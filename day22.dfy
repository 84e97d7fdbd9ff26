// Day 22: each buyer's secret number evolves by a fixed xorshift-style step;
// the last decimal digit of each number is a price. A monkey sells at the
// first time a buyer's last four price changes match the chosen sequence, and
// the best sequence is the one whose first-match prices sum highest.

module Day22 {
  import opened Wrappers
  import opened Arith

  /** Secret numbers are kept modulo 2^24. */
  const Modulus: nat := 16777216

  /** The number of evolution steps per buyer. */
  const Steps: nat := 2000

  /** Mixing is bitwise exclusive or. */
  function Mix(a: nat, b: nat): nat
  {
    Xor(a, b)
  }

  /** Each bit of a mix is set exactly when the bits of the two inputs differ. */
  lemma MixBits(a: nat, b: nat, i: nat)
    ensures Bit(Mix(a, b), i) == if Bit(a, i) == Bit(b, i) then 0 else 1
  {
    XorBit(a, b, i);
  }

  /** Mixing with the same value twice gives back the original. */
  lemma {:induction false} MixTwice(a: nat, b: nat)
    ensures Mix(Mix(a, b), b) == a
    decreases a + b
  {
    if a == 0 {
      XorSelf(b);
    } else if b > 0 {
      MixTwice(a / 2, b / 2);
      XorHalf(Xor(a, b), b);
    }
  }

  /** A value mixed with itself is zero. */
  lemma {:induction false} XorSelf(b: nat)
    ensures Xor(b, b) == 0
    decreases b
  {
    if b > 0 {
      XorSelf(b / 2);
    }
  }

  /** Pruning keeps the number below 2^24 and leaves smaller numbers alone. */
  function Prune(a: nat): (r: nat)
    ensures r < Modulus
    ensures a < Modulus ==> r == a
    ensures (a - r) % Modulus == 0
  {
    a % Modulus
  }

  /** One evolution step: multiply by 64, divide by 32, multiply by 2048, mixing and pruning after each. */
  function Evolve(n: nat): (r: nat)
    ensures r < Modulus
  {
    var step1 := Prune(Mix(n, n * 64));
    var step2 := Prune(Mix(step1, step1 / 32));
    Prune(Mix(step2, step2 * 2048))
  }

  /** `k` evolution steps from `n`, applied one after another. */
  function Iterate(n: nat, k: nat): nat
  {
    if k == 0 then n else Evolve(Iterate(n, k - 1))
  }

  /** Evolving `a` steps and then `b` more is evolving `a + b` steps. */
  lemma {:induction false} IterateAdd(n: nat, a: nat, b: nat)
    ensures Iterate(Iterate(n, a), b) == Iterate(n, a + b)
  {
    if b > 0 {
      IterateAdd(n, a, b - 1);
    }
  }

  /** After at least one step the number is below 2^24. */
  lemma IterateBound(n: nat, k: nat)
    requires k >= 1
    ensures Iterate(n, k) < Modulus
  {
  }

  /** The secret number after 2000 steps. */
  function Evolve2000(n: nat): (r: nat)
    ensures r < Modulus
  {
    Iterate(n, Steps)
  }

  /** The price after `k` steps: the last decimal digit of the secret number. */
  function Price(n: nat, k: nat): (r: int)
    ensures 0 <= r <= 9
  {
    Iterate(n, k) % 10
  }

  /** `changes` lists, for step 1, 2, ..., the price change and the new price. */
  ghost predicate IsChanges(n: nat, changes: seq<(int, int)>)
  {
    forall j :: 0 <= j < |changes| ==> changes[j] == (Price(n, j + 1) - Price(n, j), Price(n, j + 1))
  }

  /** The 2000 price changes of a buyer, each with the price it leads to. */
  method PriceChanges(number: nat) returns (changes: seq<(int, int)>)
    ensures |changes| == Steps && IsChanges(number, changes)
  {
    changes := [];
    var prev: int := number % 10;
    var n := number;
    for i := 0 to Steps
      invariant n == Iterate(number, i) && prev == Price(number, i)
      invariant |changes| == i && IsChanges(number, changes)
    {
      n := Evolve(n);
      var price := n % 10;
      changes := changes + [(price - prev, price)];
      prev := price;
    }
  }

  /** The sum of the change parts. */
  function SumChanges(changes: seq<(int, int)>): int
  {
    if changes == [] then 0 else SumChanges(changes[..|changes| - 1]) + changes[|changes| - 1].0
  }

  /** The changes telescope: the first `j` of them add up to the price after `j` steps minus the starting price. */
  lemma {:induction false} ChangesTelescope(n: nat, changes: seq<(int, int)>, j: nat)
    requires IsChanges(n, changes) && j <= |changes|
    ensures SumChanges(changes[..j]) == Price(n, j) - Price(n, 0)
  {
    if j > 0 {
      ChangesTelescope(n, changes, j - 1);
      assert changes[..j][..j - 1] == changes[..j - 1];
    }
  }

  /** Four consecutive price changes. */
  type Key = (int, int, int, int)

  /** Every window of four consecutive changes, tagged with the price after the fourth. */
  function Sequences(changes: seq<(int, int)>): (r: seq<(Key, int)>)
    ensures |r| == if |changes| >= 3 then |changes| - 3 else 0
  {
    if |changes| < 4 then []
    else
      [((changes[0].0, changes[1].0, changes[2].0, changes[3].0), changes[3].1)] + Sequences(changes[1..])
  }

  /** Window `i` holds changes `i` to `i + 3` and the price after change `i + 3`. */
  lemma {:induction false} SequencesWindows(changes: seq<(int, int)>, i: nat)
    requires i + 3 < |changes|
    ensures Sequences(changes)[i] == ((changes[i].0, changes[i + 1].0, changes[i + 2].0, changes[i + 3].0), changes[i + 3].1)
  {
    if i > 0 {
      SequencesWindows(changes[1..], i - 1);
    }
  }

  // ---------------------------------------------------------- best sequence

  /** The price at the first window of `sequences` equal to `k`, if there is one. */
  function FirstPrice(sequences: seq<(Key, int)>, k: Key): Option<int>
  {
    if sequences == [] then None
    else if sequences[0].0 == k then Some(sequences[0].1)
    else FirstPrice(sequences[1..], k)
  }

  /** `FirstPrice` finds the earliest window with that key. */
  lemma {:induction false} FirstPriceIsFirst(sequences: seq<(Key, int)>, k: Key)
    ensures FirstPrice(sequences, k).None? <==> forall i :: 0 <= i < |sequences| ==> sequences[i].0 != k
    ensures FirstPrice(sequences, k).Some? ==>
      exists i :: 0 <= i < |sequences| && sequences[i] == (k, FirstPrice(sequences, k).value) &&
        forall j :: 0 <= j < i ==> sequences[j].0 != k
  {
    if sequences != [] && sequences[0].0 != k {
      FirstPriceIsFirst(sequences[1..], k);
      if FirstPrice(sequences, k).Some? {
        var i :| 0 <= i < |sequences[1..]| && sequences[1..][i] == (k, FirstPrice(sequences, k).value) &&
          forall j :: 0 <= j < i ==> sequences[1..][j].0 != k;
        assert sequences[i + 1] == (k, FirstPrice(sequences, k).value);
      }
      if forall i :: 0 <= i < |sequences[1..]| ==> sequences[1..][i].0 != k {
        forall i | 0 <= i < |sequences| ensures sequences[i].0 != k {
          if i > 0 {
            assert sequences[i] == sequences[1..][i - 1];
          }
        }
      }
    } else if sequences != [] {
      assert sequences[0] == (k, FirstPrice(sequences, k).value);
    }
  }

  /** The price the monkey gets from one buyer with key `k`: the first match, or nothing. */
  function Gain(sequences: seq<(Key, int)>, k: Key): int
  {
    match FirstPrice(sequences, k)
    case None => 0
    case Some(p) => p
  }

  /** The total over all buyers for key `k`. */
  function Total(all: seq<seq<(Key, int)>>, k: Key): int
  {
    if all == [] then 0 else Total(all[..|all| - 1], k) + Gain(all[|all| - 1], k)
  }

  /** `k` is the key of some window of some buyer. */
  ghost predicate Seen(all: seq<seq<(Key, int)>>, k: Key)
  {
    exists b, i :: 0 <= b < |all| && 0 <= i < |all[b]| && all[b][i].0 == k
  }

  /** The first price of every key one buyer's windows show, scanning them in order. */
  method FirstPrices(sequences: seq<(Key, int)>) returns (m: map<Key, int>)
    ensures forall k :: k in m <==> FirstPrice(sequences, k).Some?
    ensures forall k :: k in m ==> m[k] == FirstPrice(sequences, k).value
  {
    m := map[];
    for i := 0 to |sequences|
      invariant forall k :: k in m <==> FirstPrice(sequences[..i], k).Some?
      invariant forall k :: k in m ==> m[k] == FirstPrice(sequences[..i], k).value
    {
      var (k, price) := sequences[i];
      FirstPriceSnoc(sequences, i);
      if k !in m {
        m := m[k := price];
      }
    }
    assert sequences[..|sequences|] == sequences;
  }

  /** Scanning one more window changes the first price only of its key, and only if that key was new. */
  lemma {:induction false} FirstPriceSnoc(sequences: seq<(Key, int)>, i: nat)
    requires i < |sequences|
    ensures forall k :: (FirstPrice(sequences[..i + 1], k)
      == if FirstPrice(sequences[..i], k).Some? || k != sequences[i].0 then FirstPrice(sequences[..i], k)
         else Some(sequences[i].1))
  {
    forall k ensures FirstPrice(sequences[..i + 1], k)
      == if FirstPrice(sequences[..i], k).Some? || k != sequences[i].0 then FirstPrice(sequences[..i], k)
         else Some(sequences[i].1)
    {
      FirstPriceAppend(sequences[..i], [sequences[i]], k);
      assert sequences[..i] + [sequences[i]] == sequences[..i + 1];
    }
  }

  lemma {:induction false} FirstPriceAppend(s: seq<(Key, int)>, t: seq<(Key, int)>, k: Key)
    ensures FirstPrice(s + t, k) == if FirstPrice(s, k).Some? then FirstPrice(s, k) else FirstPrice(t, k)
  {
    if s != [] {
      assert (s + t)[1..] == s[1..] + t;
      FirstPriceAppend(s[1..], t, k);
    } else {
      assert s + t == t;
    }
  }

  /** The value `m` holds for `k`, or zero. */
  function Get(m: map<Key, int>, k: Key): int
  {
    if k in m then m[k] else 0
  }

  /** A key no buyer shows contributes nothing. */
  lemma {:induction false} TotalUnseen(all: seq<seq<(Key, int)>>, k: Key)
    requires !Seen(all, k)
    ensures Total(all, k) == 0
  {
    if all != [] {
      TotalUnseen(all[..|all| - 1], k);
      FirstPriceIsFirst(all[|all| - 1], k);
    }
  }

  /** A key is seen among the first `b + 1` buyers iff it is seen among the first `b` or at buyer `b`. */
  lemma SeenSnoc(all: seq<seq<(Key, int)>>, b: nat, k: Key)
    requires b < |all|
    ensures Seen(all[..b + 1], k) <==>
      Seen(all[..b], k) || exists i :: 0 <= i < |all[b]| && all[b][i].0 == k
  {
    if Seen(all[..b + 1], k) {
      var c, i :| 0 <= c < b + 1 && 0 <= i < |all[..b + 1][c]| && all[..b + 1][c][i].0 == k;
      if c < b {
        assert all[..b][c][i].0 == k;
      }
    }
    if exists i :: 0 <= i < |all[b]| && all[b][i].0 == k {
      var i :| 0 <= i < |all[b]| && all[b][i].0 == k;
      assert all[..b + 1][b][i].0 == k;
    }
    if Seen(all[..b], k) {
      var c, i :| 0 <= c < b && 0 <= i < |all[..b][c]| && all[..b][c][i].0 == k;
      assert all[..b + 1][c][i].0 == k;
    }
  }

  /**
   * Adds one buyer's first prices into the running totals. The source walks
   * the buyer's map in hash order; the keys are taken here in an arbitrary
   * order, and the result does not depend on it.
   */
  method AddPrices(totals: map<Key, int>, firsts: map<Key, int>) returns (r: map<Key, int>)
    ensures r.Keys == totals.Keys + firsts.Keys
    ensures forall k :: k in r ==> r[k] == Get(totals, k) + Get(firsts, k)
  {
    r := totals;
    var pending := firsts.Keys;
    while pending != {}
      invariant pending <= firsts.Keys
      invariant r.Keys == totals.Keys + (firsts.Keys - pending)
      invariant forall k :: k in r ==> r[k] == Get(totals, k) + (if k in pending then 0 else Get(firsts, k))
      decreases pending
    {
      var k :| k in pending;
      r := r[k := Get(r, k) + firsts[k]];
      pending := pending - {k};
    }
  }

  /** The largest value in `m`, taking its keys in an arbitrary order; None when `m` is empty. */
  method MaxValue(m: map<Key, int>) returns (r: Option<int>)
    ensures r.None? <==> m == map[]
    ensures r.Some? ==> (exists k :: k in m && m[k] == r.value) && forall k :: k in m ==> m[k] <= r.value
  {
    r := None;
    var pending := m.Keys;
    while pending != {}
      invariant pending <= m.Keys
      invariant r.None? <==> pending == m.Keys
      invariant r.Some? ==> (exists k :: k in m && m[k] == r.value) &&
                            forall k :: k in m && k !in pending ==> m[k] <= r.value
      decreases pending
    {
      var k :| k in pending;
      if r.None? || r.value < m[k] {
        r := Some(m[k]);
      }
      pending := pending - {k};
    }
    if r.None? {
      assert m.Keys == {};
    }
  }

  /**
   * The best total over all four-change keys seen at any buyer, where each
   * buyer contributes only the price at its first match; None when no buyer
   * has any window, where the source panics.
   */
  method FindBestSequence(all: seq<seq<(Key, int)>>) returns (r: Option<int>)
    ensures r.None? <==> forall k :: !Seen(all, k)
    ensures r.Some? ==> (exists k :: Seen(all, k) && r.value == Total(all, k)) &&
                        forall k :: Seen(all, k) ==> Total(all, k) <= r.value
  {
    var totals: map<Key, int> := map[];
    for b := 0 to |all|
      invariant forall k :: k in totals <==> Seen(all[..b], k)
      invariant forall k :: k in totals ==> totals[k] == Total(all[..b], k)
    {
      var firsts := FirstPrices(all[b]);
      var next := AddPrices(totals, firsts);
      forall k ensures k in next <==> Seen(all[..b + 1], k) {
        SeenSnoc(all, b, k);
        FirstPriceIsFirst(all[b], k);
      }
      forall k | k in next ensures next[k] == Total(all[..b + 1], k) {
        assert all[..b + 1][..b] == all[..b];
        if k !in totals {
          TotalUnseen(all[..b], k);
        }
      }
      totals := next;
    }
    assert all[..|all|] == all;
    r := MaxValue(totals);
  }
}
