// Day 24: a circuit of AND/OR/XOR gates over named wires. Part 1 evaluates
// every z-wire (lazily, memoising wire values) and reads them as a binary
// number, z00 the least significant bit. The debugging helpers set the x and
// y input wires to a number and collect the output bits that go wrong when
// single bits are added.

module Day24 {
  import opened Wrappers
  import Arith

  type Wire = string

  datatype GateType = And | Or | Xor

  /** The gate kinds by name; anything else is rejected. */
  function ParseGateType(name: string): (r: Option<GateType>)
    ensures r == Some(And) <==> name == "AND"
    ensures r == Some(Or) <==> name == "OR"
    ensures r == Some(Xor) <==> name == "XOR"
    ensures r.None? <==> name !in {"AND", "OR", "XOR"}
  {
    if name == "AND" then Some(And)
    else if name == "OR" then Some(Or)
    else if name == "XOR" then Some(Xor)
    else None
  }

  /** What a gate outputs for its two inputs. */
  function Apply(kind: GateType, left: bool, right: bool): bool
  {
    match kind
    case And => left && right
    case Or => left || right
    case Xor => left != right
  }

  datatype Gate = Gate(left: Wire, right: Wire, output: Wire, kind: GateType)

  // ------------------------------------------------------- output gate map

  /** The last gate in `gates` that drives `w`, if any. */
  function LastDriver(gates: seq<Gate>, w: Wire): Option<Gate>
  {
    if gates == [] then None
    else if gates[|gates| - 1].output == w then Some(gates[|gates| - 1])
    else LastDriver(gates[..|gates| - 1], w)
  }

  /** `LastDriver` finds a gate driving `w` with no later gate driving it, and None only when no gate does. */
  lemma {:induction false} LastDriverIsLast(gates: seq<Gate>, w: Wire)
    ensures LastDriver(gates, w).None? <==> forall i :: 0 <= i < |gates| ==> gates[i].output != w
    ensures LastDriver(gates, w).Some? ==>
      exists i :: 0 <= i < |gates| && gates[i] == LastDriver(gates, w).value && gates[i].output == w &&
        forall j :: i < j < |gates| ==> gates[j].output != w
  {
    if gates != [] && gates[|gates| - 1].output != w {
      var init := gates[..|gates| - 1];
      LastDriverIsLast(init, w);
      if LastDriver(gates, w).Some? {
        var i :| 0 <= i < |init| && init[i] == LastDriver(gates, w).value && init[i].output == w &&
          forall j :: i < j < |init| ==> init[j].output != w;
        assert gates[i] == init[i];
      }
      if forall i :: 0 <= i < |init| ==> init[i].output != w {
        forall i | 0 <= i < |gates| ensures gates[i].output != w {
          if i < |init| {
            assert gates[i] == init[i];
          }
        }
      }
    }
  }

  /** `m` maps each driven wire to its last driver. */
  ghost predicate IndexesOutputs(gates: seq<Gate>, m: map<Wire, Gate>)
  {
    forall w :: (w in m <==> LastDriver(gates, w).Some?) && (w in m ==> m[w] == LastDriver(gates, w).value)
  }

  /** Indexes the gates by output wire; a later gate with the same output replaces an earlier one. */
  method OutputGateMap(gates: seq<Gate>) returns (m: map<Wire, Gate>)
    ensures IndexesOutputs(gates, m)
  {
    m := map[];
    for i := 0 to |gates|
      invariant IndexesOutputs(gates[..i], m)
    {
      assert gates[..i + 1][..i] == gates[..i];
      m := m[gates[i].output := gates[i]];
    }
    assert gates[..|gates|] == gates;
  }

  // ------------------------------------------------------------ evaluation

  /**
   * Evaluating `w` stops at once or goes through its gate: it has an initial
   * value (one of `keys`), no gate drives it, or it is ranked.
   */
  ghost predicate Covered(og: map<Wire, Gate>, keys: set<Wire>, rank: map<Wire, nat>, w: Wire)
  {
    w in keys || w !in og || w in rank
  }

  /** The input `u` of the ranked gate driving `w` is covered, and ranked lower when its gate is evaluated. */
  ghost predicate Feeds(og: map<Wire, Gate>, keys: set<Wire>, rank: map<Wire, nat>, w: Wire, u: Wire)
    requires w in rank
  {
    u in keys || u !in og || (u in rank && rank[u] < rank[w])
  }

  /**
   * `rank` orders the gates that evaluation goes through: every ranked gate
   * whose output has no initial value has each input stopping at once or
   * ranked lower. Gates on initialised wires and gates no ranked wire
   * reaches are unconstrained, so they may form cycles.
   */
  ghost predicate Acyclic(og: map<Wire, Gate>, keys: set<Wire>, rank: map<Wire, nat>)
  {
    forall w :: w in rank && w in og && w !in keys ==>
      Feeds(og, keys, rank, w, og[w].left) && Feeds(og, keys, rank, w, og[w].right)
  }

  ghost function Depth(og: map<Wire, Gate>, keys: set<Wire>, rank: map<Wire, nat>, w: Wire): nat
  {
    if w in og && w in rank && w !in keys then rank[w] + 1 else 0
  }

  /**
   * The value a wire carries: its initial value if it has one, otherwise its
   * gate applied to the values of the gate's inputs. None when some wire on
   * the way has neither, where the source panics.
   */
  ghost function Value(og: map<Wire, Gate>, init: map<Wire, bool>, rank: map<Wire, nat>, w: Wire): Option<bool>
    requires Acyclic(og, init.Keys, rank) && Covered(og, init.Keys, rank, w)
    decreases Depth(og, init.Keys, rank, w)
  {
    if w in init then Some(init[w])
    else if w !in og then None
    else
      match (Value(og, init, rank, og[w].left), Value(og, init, rank, og[w].right))
      case (Some(l), Some(r)) => Some(Apply(og[w].kind, l, r))
      case _ => None
  }

  /** The memo holds the initial values and only true values of other wires. */
  ghost predicate Memo(og: map<Wire, Gate>, init: map<Wire, bool>, rank: map<Wire, nat>, values: map<Wire, bool>)
    requires Acyclic(og, init.Keys, rank)
  {
    (forall w :: w in init ==> w in values && values[w] == init[w]) &&
    (forall w :: w in values ==> Covered(og, init.Keys, rank, w) && Value(og, init, rank, w) == Some(values[w]))
  }

  /** `after` keeps every entry of `before` unchanged. */
  ghost predicate Keeps(before: map<Wire, bool>, after: map<Wire, bool>)
  {
    forall w :: w in before ==> w in after && after[w] == before[w]
  }

  /**
   * Evaluates `wire`, returning a memoised value unchanged and otherwise
   * evaluating the gate's inputs and recording the result.
   */
  method ComputeValue(wire: Wire, og: map<Wire, Gate>, values: map<Wire, bool>,
                      ghost init: map<Wire, bool>, ghost rank: map<Wire, nat>)
    returns (v: Option<bool>, after: map<Wire, bool>)
    requires Acyclic(og, init.Keys, rank) && Covered(og, init.Keys, rank, wire) && Memo(og, init, rank, values)
    ensures v == Value(og, init, rank, wire)
    ensures wire in values ==> v == Some(values[wire])
    ensures Memo(og, init, rank, after) && Keeps(values, after)
    ensures v.Some? ==> wire in after
    decreases Depth(og, init.Keys, rank, wire)
  {
    if wire in values {
      return Some(values[wire]), values;
    }
    if wire !in og {
      return None, values;
    }
    var gate := og[wire];
    var l, afterLeft := ComputeValue(gate.left, og, values, init, rank);
    if l.None? {
      return None, afterLeft;
    }
    var r, afterRight := ComputeValue(gate.right, og, afterLeft, init, rank);
    if r.None? {
      return None, afterRight;
    }
    v := Some(Apply(gate.kind, l.value, r.value));
    after := afterRight[wire := v.value];
  }

  // ------------------------------------------------------------- z outputs

  predicate StartsWithZ(w: Wire)
  {
    |w| > 0 && w[0] == 'z'
  }

  /** The output wires starting with 'z', in gate order. */
  function ZWires(gates: seq<Gate>): (r: seq<Wire>)
    ensures |r| <= |gates|
    ensures forall w :: w in r ==> StartsWithZ(w)
    ensures forall w :: w in r <==> exists i :: 0 <= i < |gates| && gates[i].output == w && StartsWithZ(w)
  {
    if gates == [] then []
    else ZWires(gates[..|gates| - 1]) + (if StartsWithZ(gates[|gates| - 1].output) then [gates[|gates| - 1].output] else [])
  }

  /** The name with every 'z' removed. */
  function DropZ(w: Wire): (r: string)
    ensures 'z' !in r && |r| <= |w|
  {
    if w == [] then []
    else DropZ(w[..|w| - 1]) + (if w[|w| - 1] == 'z' then [] else [w[|w| - 1]])
  }

  predicate IsDigit(c: char)
  {
    '0' <= c <= '9'
  }

  predicate AllDigits(s: string)
  {
    forall i :: 0 <= i < |s| ==> IsDigit(s[i])
  }

  /** The decimal value of a string of digits. */
  function Decimal(s: string): nat
    requires AllDigits(s)
  {
    if s == [] then 0 else Decimal(s[..|s| - 1]) * 10 + (s[|s| - 1] as int - '0' as int)
  }

  /** A signed decimal as Rust parses an `isize`: an optional sign, then at least one digit. */
  function ParseInt(s: string): (r: Option<int>)
    ensures r.Some? <==> (|s| > 0 && AllDigits(s)) || (|s| > 1 && s[0] in "+-" && AllDigits(s[1..]))
  {
    if |s| > 0 && AllDigits(s) then Some(Decimal(s))
    else if |s| > 1 && s[0] == '+' && AllDigits(s[1..]) then Some(Decimal(s[1..]))
    else if |s| > 1 && s[0] == '-' && AllDigits(s[1..]) then Some(-(Decimal(s[1..]) as int))
    else None
  }

  /** The index of a z-wire: its name without 'z', read as a signed decimal. */
  function ZIndex(w: Wire): Option<int>
  {
    ParseInt(DropZ(w))
  }

  /** The character of a decimal digit. */
  function DigitChar(d: nat): (c: char)
    requires d < 10
    ensures IsDigit(c) && c as int - '0' as int == d
  {
    ('0' as int + d) as char
  }

  /** The wire named by a prefix and a two-digit index, as `format!("x{:02}", i)` writes it. */
  function WireName(prefix: char, i: nat): (r: Wire)
    requires i < 100
    ensures |r| == 3 && r[0] == prefix
  {
    [prefix, DigitChar(i / 10), DigitChar(i % 10)]
  }

  /** The z-wire "zNN" has index NN. */
  lemma ZIndexOfName(i: nat)
    requires i < 100
    ensures ZIndex(WireName('z', i)) == Some(i)
  {
    var w := WireName('z', i);
    assert w[..2][..1] == ['z'];
    assert DropZ(w[..1]) == [];
    assert DropZ(w[..2]) == [w[1]];
    assert DropZ(w) == [w[1], w[2]];
    assert [w[1], w[2]][..1] == [w[1]];
    assert [w[1]][..0] == [];
    assert Decimal([w[1]]) == i / 10;
  }

  /** The wire values of `ws` paired with their z-indices; None when a value or an index is missing. */
  ghost function Readings(og: map<Wire, Gate>, init: map<Wire, bool>, rank: map<Wire, nat>, ws: seq<Wire>)
    : (r: Option<seq<(int, bool)>>)
    requires Acyclic(og, init.Keys, rank) && forall w :: w in ws ==> Covered(og, init.Keys, rank, w)
    ensures r.Some? ==> |r.value| == |ws|
  {
    if ws == [] then Some([])
    else
      match (Readings(og, init, rank, ws[..|ws| - 1]), ZIndex(ws[|ws| - 1]), Value(og, init, rank, ws[|ws| - 1]))
      case (Some(rs), Some(k), Some(b)) => Some(rs + [(k, b)])
      case _ => None
  }

  // ------------------------------------------------------- sort and fold

  /** Indices never increase along `s`. */
  ghost predicate Descending(s: seq<(int, bool)>)
  {
    forall j, k :: 0 <= j < k < |s| ==> s[j].0 >= s[k].0
  }

  /** Inserts `x` before the first entry whose index is not larger, keeping equal indices in order. */
  function Insert(x: (int, bool), s: seq<(int, bool)>): (r: seq<(int, bool)>)
    requires Descending(s)
    ensures |r| == |s| + 1 && (r[0] == x || (s != [] && r[0] == s[0]))
    ensures Descending(r) && multiset(r) == multiset(s) + multiset{x}
  {
    if s == [] || s[0].0 <= x.0 then [x] + s
    else
      assert s == [s[0]] + s[1..];
      [s[0]] + Insert(x, s[1..])
  }

  /** A stable sort by descending index, as `sort_by_key` with the negated index gives. */
  function SortDescending(s: seq<(int, bool)>): (r: seq<(int, bool)>)
    ensures Descending(r) && multiset(r) == multiset(s) && |r| == |s|
  {
    if s == [] then []
    else
      assert s == [s[0]] + s[1..];
      var r := Insert(s[0], SortDescending(s[1..]));
      assert |r| == |multiset(r)|;
      r
  }

  /** The bits read most significant first: `res * 2 + bit` for each entry in turn. */
  function FoldBits(s: seq<(int, bool)>): nat
  {
    if s == [] then 0 else FoldBits(s[..|s| - 1]) * 2 + (if s[|s| - 1].1 then 1 else 0)
  }

  /** Folding `n` bits gives a number below 2^n. */
  lemma {:induction false} FoldBitsBound(s: seq<(int, bool)>)
    ensures FoldBits(s) < Arith.Pow(2, |s|)
  {
    if s != [] {
      FoldBitsBound(s[..|s| - 1]);
    }
  }

  /** The number whose bit `k` is set for each entry `(k, true)`. */
  ghost function BinaryValue(s: seq<(int, bool)>): int
    requires forall j :: 0 <= j < |s| ==> s[j].0 >= 0
  {
    if s == [] then 0
    else BinaryValue(s[..|s| - 1]) + (if s[|s| - 1].1 then Arith.Pow(2, s[|s| - 1].0) else 0)
  }

  /**
   * When the indices run down one at a time to `k`, folding the bits most
   * significant first gives the binary number they spell, shifted by `k`.
   */
  lemma {:induction false} FoldBitsBinary(s: seq<(int, bool)>, k: nat)
    requires forall j :: 0 <= j < |s| ==> s[j].0 == k + |s| - 1 - j
    ensures FoldBits(s) * Arith.Pow(2, k) == BinaryValue(s)
  {
    if s != [] {
      var init := s[..|s| - 1];
      FoldBitsBinary(init, k + 1);
      Arith.MulAssoc(FoldBits(init), 2, Arith.Pow(2, k));
      Arith.Distrib(Arith.Pow(2, k), FoldBits(init) * 2, if s[|s| - 1].1 then 1 else 0);
    }
  }

  /**
   * The number part 1 reads: every z-wire's value, sorted by descending
   * index and folded most significant first; None where the source panics.
   */
  ghost function Simulated(init: map<Wire, bool>, gates: seq<Gate>, og: map<Wire, Gate>, rank: map<Wire, nat>)
    : Option<nat>
    requires Evaluable(og, init.Keys, rank, gates)
  {
    match Readings(og, init, rank, ZWires(gates))
    case None => None
    case Some(rs) => Some(FoldBits(SortDescending(rs)))
  }

  /** The ranks order every gate the z-wires' evaluation goes through. */
  ghost predicate Evaluable(og: map<Wire, Gate>, keys: set<Wire>, rank: map<Wire, nat>, gates: seq<Gate>)
  {
    Acyclic(og, keys, rank) && forall w :: w in ZWires(gates) ==> Covered(og, keys, rank, w)
  }

  /** The simulated number has no more bits than there are z-wires. */
  lemma SimulatedBound(init: map<Wire, bool>, gates: seq<Gate>, og: map<Wire, Gate>, rank: map<Wire, nat>)
    requires Evaluable(og, init.Keys, rank, gates) && Simulated(init, gates, og, rank).Some?
    ensures Simulated(init, gates, og, rank).value < Arith.Pow(2, |ZWires(gates)|)
  {
    FoldBitsBound(SortDescending(Readings(og, init, rank, ZWires(gates)).value));
  }

  // ------------------------------------------------------------ input wires

  /** The index of `w` as a `prefix` input wire below 45, if it is one. */
  function InputIndex(prefix: char, w: Wire): (r: Option<nat>)
    ensures r.Some? ==> r.value < 45 && |w| == 3 && w[0] == prefix
  {
    if |w| == 3 && w[0] == prefix && IsDigit(w[1]) && IsDigit(w[2]) &&
       (w[1] as int - '0' as int) * 10 + (w[2] as int - '0' as int) < 45
    then
      Some((w[1] as int - '0' as int) * 10 + (w[2] as int - '0' as int))
    else None
  }

  /** An input index names its wire. */
  lemma InputIndexNames(prefix: char)
    ensures forall w :: InputIndex(prefix, w).Some? ==> w == WireName(prefix, InputIndex(prefix, w).value)
  {
    forall w | InputIndex(prefix, w).Some? ensures w == WireName(prefix, InputIndex(prefix, w).value) {
      assert w == [w[0], w[1], w[2]];
    }
  }

  lemma InputIndexOfName(prefix: char, i: nat)
    requires i < 45
    ensures InputIndex(prefix, WireName(prefix, i)) == Some(i)
  {
  }

  /** Every `prefix` wire with index below 45 has an initial value. */
  ghost predicate HasInputs(values: map<Wire, bool>, prefix: char)
  {
    forall i :: 0 <= i < 45 ==> WireName(prefix, i) in values
  }

  /** `after` is `before` with the `prefix` wires holding the low 45 bits of `value`. */
  ghost predicate Assigned(before: map<Wire, bool>, after: map<Wire, bool>, prefix: char, value: nat)
  {
    after.Keys == before.Keys &&
    forall w :: w in after ==> after[w] == match InputIndex(prefix, w)
                                           case Some(i) => Arith.Bit(value, i) == 1
                                           case None => before[w]
  }

  /** The initial values with x holding `a` and y holding `b`. */
  ghost function Inputs(orig: map<Wire, bool>, a: nat, b: nat): (m: map<Wire, bool>)
    ensures m.Keys == orig.Keys
  {
    map w | w in orig :: match (InputIndex('x', w), InputIndex('y', w))
                         case (Some(i), _) => Arith.Bit(a, i) == 1
                         case (_, Some(i)) => Arith.Bit(b, i) == 1
                         case _ => orig[w]
  }

  /** `m` differs from `orig` at most on the input wires. */
  ghost predicate Agrees(m: map<Wire, bool>, orig: map<Wire, bool>)
  {
    m.Keys == orig.Keys &&
    forall w :: w in m && InputIndex('x', w).None? && InputIndex('y', w).None? ==> m[w] == orig[w]
  }

  /** `m` holds `a` on the x-wires and agrees with `orig` off the input wires. */
  ghost predicate XSet(m: map<Wire, bool>, orig: map<Wire, bool>, a: nat)
  {
    m.Keys == orig.Keys &&
    forall w :: w in m ==> m[w] == match (InputIndex('x', w), InputIndex('y', w))
                                   case (Some(i), _) => Arith.Bit(a, i) == 1
                                   case (_, Some(_)) => m[w]
                                   case _ => orig[w]
  }

  /** Setting x from a state that agrees with `orig` gives a state with x set. */
  lemma SetXFrom(orig: map<Wire, bool>, m1: map<Wire, bool>, m2: map<Wire, bool>, a: nat)
    requires Agrees(m1, orig) && Assigned(m1, m2, 'x', a)
    ensures XSet(m2, orig, a) && Agrees(m2, orig)
  {
  }

  /** Setting y on a state with x set gives exactly the trial's initial values. */
  lemma SetYFrom(orig: map<Wire, bool>, m1: map<Wire, bool>, m2: map<Wire, bool>, a: nat, b: nat)
    requires XSet(m1, orig, a) && Assigned(m1, m2, 'y', b)
    ensures m2 == Inputs(orig, a, b) && XSet(m2, orig, a)
  {
    forall w | w in m2 ensures m2[w] == Inputs(orig, a, b)[w] {
      if InputIndex('x', w).Some? {
        assert InputIndex('y', w).None?;
      }
    }
  }

  /** Inputs keeps every other wire. */
  lemma InputsAgree(orig: map<Wire, bool>, a: nat, b: nat)
    ensures Agrees(Inputs(orig, a, b), orig)
  {
  }

  /** `m` is `before` with the `prefix` wires below index `i` holding the bits of `value`. */
  ghost predicate WrittenBelow(before: map<Wire, bool>, m: map<Wire, bool>, prefix: char, value: nat, i: nat)
  {
    m.Keys == before.Keys &&
    forall w :: w in m ==> m[w] == match InputIndex(prefix, w)
                                   case Some(j) => if j < i then Arith.Bit(value, j) == 1 else before[w]
                                   case None => before[w]
  }

  /** Writing bit `i` to wire `i` extends the writes by one wire. */
  lemma WriteNext(before: map<Wire, bool>, m: map<Wire, bool>, prefix: char, value: nat, i: nat, rest: nat)
    requires i < 45 && WrittenBelow(before, m, prefix, value, i) && WireName(prefix, i) in m
    requires Arith.Pow(2, i) > 0 && rest == value / Arith.Pow(2, i)
    ensures WrittenBelow(before, m[WireName(prefix, i) := rest % 2 == 1], prefix, value, i + 1)
  {
    InputIndexNames(prefix);
    InputIndexOfName(prefix, i);
  }

  /** Writes to the `prefix` wires touch nothing else. */
  lemma WrittenUntouched(before: map<Wire, bool>, m: map<Wire, bool>, prefix: char, value: nat, i: nat)
    requires WrittenBelow(before, m, prefix, value, i)
    ensures Untouched(before, m, prefix)
  {
  }

  /** Writing all 45 wires assigns the value. */
  lemma WrittenAll(before: map<Wire, bool>, m: map<Wire, bool>, prefix: char, value: nat)
    requires WrittenBelow(before, m, prefix, value, 45)
    ensures Assigned(before, m, prefix, value)
  {
  }

  /** `after` has the wires of `before`, and differs from it only on `prefix` input wires. */
  ghost predicate Untouched(before: map<Wire, bool>, after: map<Wire, bool>, prefix: char)
  {
    after.Keys == before.Keys &&
    forall w :: w in after && InputIndex(prefix, w).None? ==> after[w] == before[w]
  }

  /** Writes to input wires alone keep a state that agrees with `orig`, and one with x set when only y is written. */
  lemma UntouchedAgrees(orig: map<Wire, bool>, m1: map<Wire, bool>, m2: map<Wire, bool>, prefix: char)
    requires prefix == 'x' || prefix == 'y'
    requires Agrees(m1, orig) && Untouched(m1, m2, prefix)
    ensures Agrees(m2, orig)
    ensures prefix == 'y' ==> forall a: nat :: XSet(m1, orig, a) ==> XSet(m2, orig, a)
  {
    if prefix == 'y' {
      forall a: nat, w | XSet(m1, orig, a) && w in m2 && InputIndex('x', w).Some?
        ensures InputIndex('y', w).None?
      {
      }
    }
  }

  /**
   * The mismatches of all 45 × 45 trials; None where the source panics,
   * which includes an x or y input wire below 45 without an initial value.
   */
  ghost function Trials(orig: map<Wire, bool>, gates: seq<Gate>, og: map<Wire, Gate>, rank: map<Wire, nat>)
    : Option<seq<(nat, nat, nat)>>
    requires Evaluable(og, orig.Keys, rank, gates)
  {
    if HasInputs(orig, 'x') && HasInputs(orig, 'y') then Mismatches(orig, gates, og, rank, 45, 0) else None
  }

  // -------------------------------------------------------- bit collection

  /** Each wrong trial's bits: where `x + y` and the output differ. */
  function OrFold(wrong: seq<(nat, nat, nat)>): nat
  {
    if wrong == [] then 0
    else
      var (x, y, z) := wrong[|wrong| - 1];
      Arith.Or(OrFold(wrong[..|wrong| - 1]), Arith.Xor(x + y, z))
  }

  /** Bit `i` of `x + y` and of the output `z` differ. */
  predicate WrongAt(t: (nat, nat, nat), i: nat)
  {
    Arith.Bit(Arith.Xor(t.0 + t.1, t.2), i) == 1
  }

  /** A bit of the fold is set iff some trial gets that bit wrong. */
  lemma {:induction false} OrFoldBit(wrong: seq<(nat, nat, nat)>, i: nat)
    ensures Arith.Bit(OrFold(wrong), i) == 1 <==> exists j :: 0 <= j < |wrong| && WrongAt(wrong[j], i)
  {
    if wrong == [] {
      Arith.PowPositive(2, i);
    } else {
      var init := wrong[..|wrong| - 1];
      var last := wrong[|wrong| - 1];
      var acc, e := OrFold(init), Arith.Xor(last.0 + last.1, last.2);
      assert OrFold(wrong) == Arith.Or(acc, e);
      OrFoldBit(init, i);
      Arith.OrBit(acc, e, i);
      assert WrongAt(last, i) <==> Arith.Bit(e, i) == 1;
      PrefixWrong(wrong, init, i);
    }
  }

  /** Some trial gets bit `i` wrong iff one before the last does or the last does. */
  lemma PrefixWrong(wrong: seq<(nat, nat, nat)>, init: seq<(nat, nat, nat)>, i: nat)
    requires wrong != [] && init == wrong[..|wrong| - 1]
    ensures (exists j :: 0 <= j < |wrong| && WrongAt(wrong[j], i)) <==>
      (exists j :: 0 <= j < |init| && WrongAt(init[j], i)) || WrongAt(wrong[|wrong| - 1], i)
  {
    if exists j :: 0 <= j < |wrong| && WrongAt(wrong[j], i) {
      var j :| 0 <= j < |wrong| && WrongAt(wrong[j], i);
      if j < |init| {
        assert WrongAt(init[j], i);
      }
    }
    if exists j :: 0 <= j < |init| && WrongAt(init[j], i) {
      var j :| 0 <= j < |init| && WrongAt(init[j], i);
      assert WrongAt(wrong[j], i);
    }
  }

  /** `bits` lists, in increasing order, exactly the positions of the set bits of `mask`. */
  ghost predicate BitsOf(bits: seq<nat>, mask: nat)
  {
    (forall j, k :: 0 <= j < k < |bits| ==> bits[j] < bits[k]) &&
    (forall i :: i in bits <==> Arith.Bit(mask, i) == 1)
  }

  /** The positions of the set bits of `mask`, in increasing order. */
  method SetBits(mask: nat) returns (bits: seq<nat>)
    ensures BitsOf(bits, mask)
  {
    bits := [];
    var rest := mask;
    var i: nat := 0;
    Arith.PowPositive(2, 0);
    while rest != 0
      invariant Arith.Pow(2, i) > 0 && rest == mask / Arith.Pow(2, i)
      invariant forall j, k :: 0 <= j < k < |bits| ==> bits[j] < bits[k]
      invariant forall j :: 0 <= j < |bits| ==> bits[j] < i
      invariant forall j :: 0 <= j < i ==> (j in bits <==> Arith.Bit(mask, j) == 1)
      decreases rest
    {
      if rest % 2 == 1 {
        bits := bits + [i];
      }
      Arith.DivDiv(mask, Arith.Pow(2, i), 2);
      rest := rest / 2;
      i := i + 1;
    }
    forall j | j >= i ensures Arith.Bit(mask, j) == 0 {
      Arith.PowAdd(2, i, j - i);
      Arith.PowPositive(2, j - i);
      Arith.DivDiv(mask, Arith.Pow(2, i), Arith.Pow(2, j - i));
    }
  }

  // --------------------------------------------------------------- trials

  /** The sum the circuit computes with x set to 2^`x` and y to 2^`y`. */
  ghost function Trial(orig: map<Wire, bool>, gates: seq<Gate>, og: map<Wire, Gate>, rank: map<Wire, nat>, x: nat, y: nat)
    : Option<nat>
    requires Evaluable(og, orig.Keys, rank, gates)
  {
    Simulated(Inputs(orig, Pow2(x), Pow2(y)), gates, og, rank)
  }

  /**
   * The trials of rows 0 to `x` - 1 and of the first `y` columns of row `x`
   * whose output is not x + y, in trial order, as (x, y, output); None where
   * the source panics.
   */
  ghost function Mismatches(orig: map<Wire, bool>, gates: seq<Gate>, og: map<Wire, Gate>, rank: map<Wire, nat>,
                            x: nat, y: nat): Option<seq<(nat, nat, nat)>>
    requires Evaluable(og, orig.Keys, rank, gates)
    decreases x, y
  {
    if y == 0 then
      if x == 0 then Some([]) else Mismatches(orig, gates, og, rank, x - 1, 45)
    else
      match (Mismatches(orig, gates, og, rank, x, y - 1), Trial(orig, gates, og, rank, x, y - 1))
      case (Some(ws), Some(z)) =>
        var a, b := Pow2(x), Pow2(y - 1);
        Some(if z != a + b then ws + [(a, b, z)] else ws)
      case _ => None
  }

  /** 2^e, as `1 << e`. */
  function Pow2(e: nat): (r: nat)
    ensures r == Arith.Pow(2, e) && r >= 1
  {
    Arith.PowPositive(2, e);
    Arith.Pow(2, e)
  }

  /** The first `i + 1` gates' z-wires are the first `i` gates' plus gate `i`'s output if it is one. */
  lemma ZWiresSnoc(gates: seq<Gate>, i: nat)
    requires i < |gates|
    ensures ZWires(gates[..i + 1]) ==
      ZWires(gates[..i]) + (if StartsWithZ(gates[i].output) then [gates[i].output] else [])
  {
    assert gates[..i + 1][..i] == gates[..i];
  }

  /** The z-wires of a prefix of the gates are z-wires of all of them. */
  lemma ZWiresPrefix(gates: seq<Gate>, i: nat)
    requires i <= |gates|
    ensures forall u :: u in ZWires(gates[..i]) ==> u in ZWires(gates)
  {
    forall u | u in ZWires(gates[..i])
      ensures u in ZWires(gates)
    {
      var j :| 0 <= j < i && gates[..i][j].output == u && StartsWithZ(u);
      assert gates[j].output == u;
    }
  }

  lemma ReadingsSnoc(og: map<Wire, Gate>, init: map<Wire, bool>, rank: map<Wire, nat>, ws: seq<Wire>, w: Wire)
    requires Acyclic(og, init.Keys, rank) && Covered(og, init.Keys, rank, w)
    requires forall u :: u in ws ==> Covered(og, init.Keys, rank, u)
    ensures Readings(og, init, rank, ws + [w]) ==
      match (Readings(og, init, rank, ws), ZIndex(w), Value(og, init, rank, w))
      case (Some(rs), Some(k), Some(b)) => Some(rs + [(k, b)])
      case _ => None
  {
    assert (ws + [w])[..|ws|] == ws;
  }

  /** The mismatches after one more trial: the trial's entry if it is wrong; None if it panics. */
  lemma MismatchesNext(orig: map<Wire, bool>, gates: seq<Gate>, og: map<Wire, Gate>, rank: map<Wire, nat>,
                       x: nat, y: nat, ws: seq<(nat, nat, nat)>, z: Option<nat>)
    requires Evaluable(og, orig.Keys, rank, gates) && Mismatches(orig, gates, og, rank, x, y) == Some(ws)
    requires z == Simulated(Inputs(orig, Pow2(x), Pow2(y)), gates, og, rank)
    ensures Mismatches(orig, gates, og, rank, x, y + 1) ==
      if z.None? then None
      else Some(if z.value != Pow2(x) + Pow2(y) then ws + [(Pow2(x), Pow2(y), z.value)] else ws)
  {
  }

  /** Once a trial panics, the rest of its row does too. */
  lemma {:induction false} RowStaysNone(orig: map<Wire, bool>, gates: seq<Gate>, og: map<Wire, Gate>,
                                        rank: map<Wire, nat>, x: nat, y: nat, y2: nat)
    requires Evaluable(og, orig.Keys, rank, gates) && y <= y2 && Mismatches(orig, gates, og, rank, x, y).None?
    ensures Mismatches(orig, gates, og, rank, x, y2).None?
    decreases y2 - y
  {
    if y < y2 {
      RowStaysNone(orig, gates, og, rank, x, y + 1, y2);
    }
  }

  /** Once a row panics, every later row does too. */
  lemma {:induction false} RowsStayNone(orig: map<Wire, bool>, gates: seq<Gate>, og: map<Wire, Gate>,
                                         rank: map<Wire, nat>, x: nat, x2: nat)
    requires Evaluable(og, orig.Keys, rank, gates) && x <= x2 && Mismatches(orig, gates, og, rank, x, 0).None?
    ensures Mismatches(orig, gates, og, rank, x2, 0).None?
    decreases x2 - x
  {
    if x < x2 {
      RowStaysNone(orig, gates, og, rank, x, 0, 45);
      RowsStayNone(orig, gates, og, rank, x + 1, x2);
    }
  }

  /**
   * Evaluates the z-wires in gate order with one shared memo, pairing each
   * value with its index; None where the source panics.
   */
  method ReadZWires(gates: seq<Gate>, og: map<Wire, Gate>, init: map<Wire, bool>, ghost rank: map<Wire, nat>)
    returns (r: Option<seq<(int, bool)>>)
    requires Evaluable(og, init.Keys, rank, gates)
    ensures r == Readings(og, init, rank, ZWires(gates))
  {
    var values := init;
    var readings: seq<(int, bool)> := [];
    for i := 0 to |gates|
      invariant Memo(og, init, rank, values)
      invariant Readings(og, init, rank, ZWires(gates[..i])) == Some(readings)
    {
      ZWiresSnoc(gates, i);
      ZWiresPrefix(gates, i);
      var wire := gates[i].output;
      if StartsWithZ(wire) {
        assert wire in ZWires(gates) by {
          assert gates[i].output == wire;
        }
        ReadingsSnoc(og, init, rank, ZWires(gates[..i]), wire);
        var v;
        v, values := ComputeValue(wire, og, values, init, rank);
        var k := ZIndex(wire);
        if v.None? || k.None? {
          MoreReadingsNone(og, init, rank, ZWires(gates[..i + 1]), gates, i + 1);
          return None;
        }
        readings := readings + [(k.value, v.value)];
      } else {
        assert ZWires(gates[..i]) + [] == ZWires(gates[..i]);
      }
    }
    assert gates[..|gates|] == gates;
    r := Some(readings);
  }

  /** Once a reading is missing, the readings of every longer prefix are missing too. */
  lemma {:induction false} MoreReadingsNone(og: map<Wire, Gate>, init: map<Wire, bool>, rank: map<Wire, nat>,
                                            ws: seq<Wire>, gates: seq<Gate>, i: nat)
    requires Evaluable(og, init.Keys, rank, gates) && i <= |gates| && ws == ZWires(gates[..i])
    requires Readings(og, init, rank, ws).None?
    ensures Readings(og, init, rank, ZWires(gates)).None?
    decreases |gates| - i
  {
    if i < |gates| {
      ZWiresSnoc(gates, i);
      if StartsWithZ(gates[i].output) {
        ReadingsSnoc(og, init, rank, ws, gates[i].output);
      } else {
        assert ws + [] == ws;
      }
      MoreReadingsNone(og, init, rank, ZWires(gates[..i + 1]), gates, i + 1);
    } else {
      assert gates[..i] == gates;
    }
  }

  /** Folds the bits most significant first: `res * 2 + bit` for each entry in turn. */
  method ReadBits(sorted: seq<(int, bool)>) returns (res: nat)
    ensures res == FoldBits(sorted)
  {
    res := 0;
    for j := 0 to |sorted|
      invariant res == FoldBits(sorted[..j])
    {
      assert sorted[..j + 1][..j] == sorted[..j];
      res := res * 2 + if sorted[j].1 then 1 else 0;
    }
    assert sorted[..|sorted|] == sorted;
  }

  // ---------------------------------------------------------------- circuit

  /** The parsed puzzle: initial wire values, the gates, and the gates indexed by output. */
  class Circuit {
    var initialValues: map<Wire, bool>
    var gates: seq<Gate>
    var outputGateMap: map<Wire, Gate>

    constructor (initialValues: map<Wire, bool>, gates: seq<Gate>)
      ensures this.initialValues == initialValues && this.gates == gates
      ensures IndexesOutputs(gates, outputGateMap)
    {
      this.initialValues := initialValues;
      this.gates := gates;
      var m := OutputGateMap(gates);
      this.outputGateMap := m;
    }

    /**
     * Evaluates every z-wire in gate order, sharing one memo, then reads them
     * as a binary number. The source parses the indices while sorting, after
     * all evaluations; either failure is a panic, so both give None here.
     */
    method Simulate(ghost rank: map<Wire, nat>) returns (r: Option<nat>)
      requires Evaluable(outputGateMap, initialValues.Keys, rank, gates)
      ensures r == Simulated(initialValues, gates, outputGateMap, rank)
    {
      var readings := ReadZWires(gates, outputGateMap, initialValues, rank);
      if readings.None? {
        return None;
      }
      var sorted := SortDescending(readings.value);
      var res := ReadBits(sorted);
      r := Some(res);
    }

    /**
     * Writes the low 45 bits of `value` to the wires `prefix`00 to `prefix`44,
     * in index order. `ok` is false where the source's `unwrap` panics on a
     * wire without an initial value; the writes before it only touch input
     * wires of `prefix`.
     */
    method SetWires(prefix: char, value: nat) returns (ok: bool)
      modifies this
      ensures ok <==> HasInputs(old(initialValues), prefix)
      ensures ok ==> Assigned(old(initialValues), initialValues, prefix, value)
      ensures Untouched(old(initialValues), initialValues, prefix)
      ensures gates == old(gates) && outputGateMap == old(outputGateMap)
    {
      ghost var before := initialValues;
      var rest := value;
      Arith.PowPositive(2, 0);
      for i := 0 to 45
        invariant Arith.Pow(2, i) > 0 && rest == value / Arith.Pow(2, i)
        invariant forall j :: 0 <= j < i ==> WireName(prefix, j) in before
        invariant WrittenBelow(before, initialValues, prefix, value, i)
        invariant gates == old(gates) && outputGateMap == old(outputGateMap)
      {
        var name := WireName(prefix, i);
        if name !in initialValues {
          WrittenUntouched(before, initialValues, prefix, value, i);
          return false;
        }
        WriteNext(before, initialValues, prefix, value, i, rest);
        initialValues := initialValues[name := rest % 2 == 1];
        Arith.DivDiv(value, Arith.Pow(2, i), 2);
        rest := rest / 2;
      }
      WrittenUntouched(before, initialValues, prefix, value, 45);
      WrittenAll(before, initialValues, prefix, value);
      ok := true;
    }

    /** `set_x`: x00 to x44 take the low 45 bits of `value`; false where it panics. */
    method SetX(value: nat) returns (ok: bool)
      modifies this
      ensures ok <==> HasInputs(old(initialValues), 'x')
      ensures ok ==> Assigned(old(initialValues), initialValues, 'x', value)
      ensures Untouched(old(initialValues), initialValues, 'x')
      ensures gates == old(gates) && outputGateMap == old(outputGateMap)
    {
      ok := SetWires('x', value);
    }

    /** `set_y`: y00 to y44 take the low 45 bits of `value`; false where it panics. */
    method SetY(value: nat) returns (ok: bool)
      modifies this
      ensures ok <==> HasInputs(old(initialValues), 'y')
      ensures ok ==> Assigned(old(initialValues), initialValues, 'y', value)
      ensures Untouched(old(initialValues), initialValues, 'y')
      ensures gates == old(gates) && outputGateMap == old(outputGateMap)
    {
      ok := SetWires('y', value);
    }

    /**
     * Runs all 45 × 45 single-bit additions and lists, in increasing order,
     * the output bits that some wrong sum gets wrong; None where a simulation
     * or an input write panics. The inputs are left holding the last trial,
     * x = y = 2^44.
     */
    method FindWrongBits(ghost rank: map<Wire, nat>) returns (r: Option<seq<nat>>)
      modifies this
      requires Evaluable(outputGateMap, initialValues.Keys, rank, gates)
      ensures gates == old(gates) && outputGateMap == old(outputGateMap)
      ensures r.Some? <==> Trials(old(initialValues), gates, outputGateMap, rank).Some?
      ensures r.Some? ==> BitsOf(r.value, OrFold(Trials(old(initialValues), gates, outputGateMap, rank).value))
      ensures r.Some? ==> initialValues == Inputs(old(initialValues), Pow2(44), Pow2(44))
    {
      var wrong := AllTrials(rank);
      if wrong.None? {
        return None;
      }
      var mask := OrFold(wrong.value);
      var bits := SetBits(mask);
      return Some(bits);
    }

    /** The nested loops of `find_wrong_bits`: every trial's mismatch, row by row. */
    method AllTrials(ghost rank: map<Wire, nat>) returns (r: Option<seq<(nat, nat, nat)>>)
      modifies this
      requires Evaluable(outputGateMap, initialValues.Keys, rank, gates)
      ensures gates == old(gates) && outputGateMap == old(outputGateMap)
      ensures r == Trials(old(initialValues), gates, outputGateMap, rank)
      ensures r.Some? ==> initialValues == Inputs(old(initialValues), Pow2(44), Pow2(44))
    {
      ghost var orig, gs, og := initialValues, gates, outputGateMap;
      var wrong: seq<(nat, nat, nat)> := [];
      for x := 0 to 45
        invariant gates == gs && outputGateMap == og
        invariant Agrees(initialValues, orig)
        invariant Mismatches(orig, gs, og, rank, x, 0) == Some(wrong)
        invariant x > 0 ==> HasInputs(orig, 'x') && HasInputs(orig, 'y')
        invariant x > 0 ==> initialValues == Inputs(orig, Pow2(x - 1), Pow2(44))
      {
        var row := TrialRow(x, orig, wrong, rank);
        if row.None? {
          if HasInputs(orig, 'x') && HasInputs(orig, 'y') {
            RowsStayNone(orig, gs, og, rank, x + 1, 45);
          }
          return None;
        }
        wrong := row.value;
      }
      return Some(wrong);
    }

    /**
     * The inner loop of `find_wrong_bits`: x set to 2^`x`, y to each 2^0 to
     * 2^44 in turn. None where an input write or a simulation panics.
     */
    method TrialRow(x: nat, ghost orig: map<Wire, bool>, wrong: seq<(nat, nat, nat)>, ghost rank: map<Wire, nat>)
      returns (r: Option<seq<(nat, nat, nat)>>)
      modifies this
      requires x < 45 && Evaluable(outputGateMap, orig.Keys, rank, gates)
      requires Agrees(initialValues, orig)
      requires Mismatches(orig, gates, outputGateMap, rank, x, 0) == Some(wrong)
      ensures gates == old(gates) && outputGateMap == old(outputGateMap)
      ensures Agrees(initialValues, orig)
      ensures r == if HasInputs(orig, 'x') && HasInputs(orig, 'y') then Mismatches(orig, gates, outputGateMap, rank, x + 1, 0) else None
      ensures r.Some? ==> initialValues == Inputs(orig, Pow2(x), Pow2(44))
    {
      var a := Pow2(x);
      ghost var m0 := initialValues;
      var ok := SetX(a);
      if !ok {
        UntouchedAgrees(orig, m0, initialValues, 'x');
        return None;
      }
      SetXFrom(orig, m0, initialValues, a);
      r := TrialColumns(x, orig, wrong, rank);
    }

    /** The trials of row `x` once x holds 2^`x`: y set to each 2^0 to 2^44 in turn. */
    method TrialColumns(x: nat, ghost orig: map<Wire, bool>, wrong: seq<(nat, nat, nat)>, ghost rank: map<Wire, nat>)
      returns (r: Option<seq<(nat, nat, nat)>>)
      modifies this
      requires x < 45 && Evaluable(outputGateMap, orig.Keys, rank, gates)
      requires XSet(initialValues, orig, Pow2(x)) && Agrees(initialValues, orig)
      requires Mismatches(orig, gates, outputGateMap, rank, x, 0) == Some(wrong)
      ensures gates == old(gates) && outputGateMap == old(outputGateMap)
      ensures Agrees(initialValues, orig)
      ensures r == if HasInputs(orig, 'y') then Mismatches(orig, gates, outputGateMap, rank, x + 1, 0) else None
      ensures r.Some? ==> initialValues == Inputs(orig, Pow2(x), Pow2(44))
    {
      ghost var gs, og := gates, outputGateMap;
      var a := Pow2(x);
      r := Some(wrong);
      for y := 0 to 45
        invariant gates == gs && outputGateMap == og
        invariant XSet(initialValues, orig, a) && Agrees(initialValues, orig)
        invariant r.Some? && r == Mismatches(orig, gs, og, rank, x, y)
        invariant y > 0 ==> HasInputs(orig, 'y') && initialValues == Inputs(orig, a, Pow2(y - 1))
      {
        var b := Pow2(y);
        var z := RunTrial(a, b, orig, rank);
        if z.None? {
          if HasInputs(orig, 'y') {
            MismatchesNext(orig, gs, og, rank, x, y, r.value, z);
            RowStaysNone(orig, gs, og, rank, x, y + 1, 45);
          }
          return None;
        }
        MismatchesNext(orig, gs, og, rank, x, y, r.value, z);
        if z.value != a + b {
          r := Some(r.value + [(a, b, z.value)]);
        }
      }
    }

    /**
     * One trial of `find_wrong_bits`: `set_y(b)` on a state with x set to
     * `a`, then `simulate`. None where either panics.
     */
    method RunTrial(a: nat, b: nat, ghost orig: map<Wire, bool>, ghost rank: map<Wire, nat>) returns (z: Option<nat>)
      modifies this
      requires Evaluable(outputGateMap, orig.Keys, rank, gates)
      requires XSet(initialValues, orig, a) && Agrees(initialValues, orig)
      ensures gates == old(gates) && outputGateMap == old(outputGateMap)
      ensures XSet(initialValues, orig, a) && Agrees(initialValues, orig)
      ensures z == if HasInputs(orig, 'y') then Simulated(Inputs(orig, a, b), gates, outputGateMap, rank) else None
      ensures HasInputs(orig, 'y') ==> initialValues == Inputs(orig, a, b)
    {
      ghost var before := initialValues;
      var ok := SetY(b);
      if !ok {
        UntouchedAgrees(orig, before, initialValues, 'y');
        return None;
      }
      SetYFrom(orig, before, initialValues, a, b);
      InputsAgree(orig, a, b);
      z := Simulate(rank);
    }
  }
}
