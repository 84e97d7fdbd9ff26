/**
 * Day 11: stones engraved with numbers. On every blink each stone changes
 * by the first rule that applies: 0 becomes 1; a number with an even
 * count of digits splits into its high and low halves; any other number
 * is multiplied by 2024. Stones are tracked as a count per number.
 */
module Day11 {
  import opened Wrappers
  import opened Arith
  import Util

  /**
   * The number of decimal digits of `stone`. The source takes the floor
   * of a floating-point base-10 logarithm; 0 has logarithm minus infinity,
   * which the saturating cast turns into 0, so 0 has length 1 there too.
   */
  function NumberLen(stone: nat): (r: nat)
    ensures r >= 1
    ensures stone > 0 ==> Pow(10, r - 1) <= stone < Pow(10, r)
    ensures stone < 10 ==> r == 1
  {
    if stone == 0 then 1 else DigitCount(stone)
  }

  /** The stones one stone becomes on a blink: a first and maybe a second. */
  function BlinkOne(stone: nat): (r: (nat, Option<nat>))
    ensures stone == 0 ==> r == (1, None)
    ensures stone > 0 && NumberLen(stone) % 2 == 0 ==>
      var half := Pow(10, NumberLen(stone) / 2);
      r.1.Some? && r.0 * half + r.1.value == stone && r.1.value < half
    ensures stone > 0 && NumberLen(stone) % 2 == 1 ==> r == (stone * 2024, None)
  {
    if stone == 0 then (1, None)
    else
      var len := NumberLen(stone);
      if len % 2 == 0 then
        PowPositive(10, len / 2);
        (stone / Pow(10, len / 2), Some(stone % Pow(10, len / 2)))
      else (stone * 2024, None)
  }

  /**
   * A split keeps every digit: the high half has exactly half the digits
   * (its leading digit is the stone's, so it is never 0).
   */
  lemma SplitHalves(stone: nat)
    requires stone > 0 && NumberLen(stone) % 2 == 0
    ensures var h := NumberLen(stone) / 2;
      BlinkOne(stone).1.Some? && Pow(10, h - 1) <= BlinkOne(stone).0 < Pow(10, h)
  {
    var len := NumberLen(stone);
    var h := len / 2;
    var half := Pow(10, h);
    PowPositive(10, h);
    PowPositive(10, h - 1);
    PowAdd(10, h, h);
    PowAdd(10, h - 1, h);
    assert len - 1 == (h - 1) + h;
    var hi := BlinkOne(stone).0;
    assert hi == stone / half;
    Util.DivBelow(stone, half, half);
    Util.DivBelow(stone, half, Pow(10, h - 1));
  }

  /** The stones `stone` turns into, as a sequence of one or two. */
  function Children(stone: nat): (r: seq<nat>)
    ensures 1 <= |r| <= 2
    ensures r[0] == BlinkOne(stone).0
    ensures |r| == 2 <==> BlinkOne(stone).1.Some?
    ensures |r| == 2 ==> r[1] == BlinkOne(stone).1.value
  {
    var (a, b) := BlinkOne(stone);
    if b.Some? then [a, b.value] else [a]
  }

  /** Sum over the entries of `m` of count times `f(stone)`. */
  ghost function Weigh(m: map<nat, nat>, f: nat -> nat): nat
  {
    if m == map[] then 0
    else
      var k :| k in m;
      m[k] * f(k) + Weigh(m - {k}, f)
  }

  lemma {:induction false} WeighRemove(m: map<nat, nat>, f: nat -> nat, k: nat)
    requires k in m
    ensures Weigh(m, f) == m[k] * f(k) + Weigh(m - {k}, f)
    decreases |m|
  {
    var k' :| k' in m && Weigh(m, f) == m[k'] * f(k') + Weigh(m - {k'}, f);
    if k' != k {
      WeighRemove(m - {k'}, f, k);
      WeighRemove(m - {k}, f, k');
      assert m - {k'} - {k} == m - {k} - {k'};
    }
  }

  /** How many stones `stone` becomes. */
  function Arity(stone: nat): (r: nat)
    ensures r == |Children(stone)|
  {
    if BlinkOne(stone).1.Some? then 2 else 1
  }

  /** How many of the stones `stone` becomes carry the number `x`. */
  function Yield(x: nat): nat -> nat
  {
    stone => multiset(Children(stone))[x]
  }

  /** A count read from a counter's map: 0 for a number never counted. */
  function Lookup(m: map<nat, nat>, x: nat): nat
  {
    if x in m then m[x] else 0
  }

  /**
   * One blink over a stone counter: each number's count goes to each of
   * the numbers it becomes. The result holds, for every number, the total
   * of the counts that produce it, and the stone total is the sum of the
   * counts weighted by how many stones each becomes.
   */
  method Blink(counts: Util.Counter<nat>) returns (next: Util.Counter<nat>)
    ensures fresh(next)
    ensures forall x :: next.Get(x) == Weigh(counts.counts, Yield(x))
    ensures Util.MapSum(next.counts) == Weigh(counts.counts, Arity)
  {
    next := new Util.Counter();
    var all := counts.counts;
    var keys := all.Keys;
    while keys != {}
      invariant keys <= all.Keys
      invariant Tallied(all - keys, next.counts)
      decreases |keys|
    {
      var stone :| stone in keys;
      var count := all[stone];
      ghost var seen := all - keys;
      ghost var before := next.counts;
      CountChildren(next, stone, count);
      keys := keys - {stone};
      assert all - keys == seen[stone := count];
      BlinkStep(seen, stone, count, before, next.counts);
    }
    assert all - keys == all;
  }

  /** What one stone with count `count` adds to the count of `x` on a blink. */
  function Added(stone: nat, count: nat, x: nat): nat
  {
    var cs := Children(stone);
    (if x == cs[0] then count else 0) + (if |cs| == 2 && x == cs[1] then count else 0)
  }

  /** The body of the blink loop: counts `count` of each stone `stone` becomes. */
  method CountChildren(next: Util.Counter<nat>, stone: nat, count: nat)
    modifies next
    ensures forall x :: Lookup(next.counts, x) == Lookup(old(next.counts), x) + Added(stone, count, x)
    ensures Util.MapSum(next.counts) == Util.MapSum(old(next.counts)) + (if |Children(stone)| == 2 then count + count else count)
  {
    var (a, maybeB) := BlinkOne(stone);
    next.CountN(a, count);
    if maybeB.Some? {
      next.CountN(maybeB.value, count);
    }
  }

  /** The counter `m` holds, for each number, the stones that the stones counted in `seen` become, and their total. */
  ghost predicate Tallied(seen: map<nat, nat>, m: map<nat, nat>)
  {
    (forall x :: Lookup(m, x) == Weigh(seen, Yield(x))) && Util.MapSum(m) == Weigh(seen, Arity)
  }

  /**
   * Folding one more stone into the blink: if the counter so far holds the
   * weighted sums over `seen`, and `after` adds `count` to each of the
   * stone's children, it holds the weighted sums over `seen` plus the stone.
   */
  lemma BlinkStep(seen: map<nat, nat>, stone: nat, count: nat, before: map<nat, nat>, after: map<nat, nat>)
    requires stone !in seen && Tallied(seen, before)
    requires forall x :: Lookup(after, x) == Lookup(before, x) + Added(stone, count, x)
    requires Util.MapSum(after) == Util.MapSum(before) + (if |Children(stone)| == 2 then count + count else count)
    ensures Tallied(seen[stone := count], after)
  {
    var m := seen[stone := count];
    assert m - {stone} == seen;
    ArityStep(seen, stone, count, Util.MapSum(before), Util.MapSum(after));
    forall x
      ensures Lookup(after, x) == Weigh(m, Yield(x))
    {
      WeighRemove(m, Yield(x), stone);
      YieldTimes(stone, count, x);
    }
  }

  /** The total of the blink loop after one more stone: `count` stones each becoming `Arity` stones. */
  lemma ArityStep(seen: map<nat, nat>, stone: nat, count: nat, before: nat, after: nat)
    requires stone !in seen
    requires before == Weigh(seen, Arity)
    requires after == before + (if |Children(stone)| == 2 then count + count else count)
    ensures after == Weigh(seen[stone := count], Arity)
  {
    var m := seen[stone := count];
    assert m - {stone} == seen;
    WeighRemove(m, Arity, stone);
    assert m[stone] * Arity(stone) == (if |Children(stone)| == 2 then count + count else count);
  }

  /** `count` stones of one number add `count` times its yield of `x`. */
  lemma YieldTimes(stone: nat, count: nat, x: nat)
    ensures count * Yield(x)(stone) == Added(stone, count, x)
  {
    var cs := Children(stone);
    var p := if x == cs[0] then 1 else 0;
    var q := if |cs| == 2 && x == cs[1] then 1 else 0;
    if |cs| == 2 {
      assert cs == [cs[0]] + [cs[1]];
    } else {
      assert cs == [cs[0]];
    }
    assert Yield(x)(stone) == p + q;
    assert count * (p + q) == count * p + count * q;
  }

  /** Blinking never loses stones: the new total is at least the old one. */
  lemma {:induction false} TotalNeverDecreases(m: map<nat, nat>)
    ensures Weigh(m, Arity) >= Util.MapSum(m)
    decreases |m|
  {
    if m != map[] {
      var k :| k in m;
      WeighRemove(m, Arity, k);
      Util.MapSumRemove(m, k);
      TotalNeverDecreases(m - {k});
      var ar := Arity(k);
      if m[k] > 0 {
        MulMonotone(m[k], 1, ar);
      }
    }
  }
}
