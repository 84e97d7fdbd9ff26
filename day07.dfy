/**
 * Day 7: calibration equations. Each equation has a target and a list of
 * operands combined left to right by operators chosen per gap; part 1
 * allows `+` and `*`, part 2 also `||` (decimal concatenation). The
 * solver does not evaluate forwards: for each operator pattern it undoes
 * the operands from the right end of the target and checks that nothing
 * is left.
 *
 * Undoing a `*` computes `remaining % op`, which panics for a zero
 * operand; the model carries that panic as `Panics`, and a whole check
 * that reaches it as `None`. Parsing always yields at least one operand;
 * a check on none would underflow its pattern count and panic too.
 */
module Day07 {
  import opened Wrappers
  import opened Arith

  datatype Equation = Equation(target: nat, operands: seq<nat>)

  /** What undoing the operands under one pattern ends in. */
  datatype Outcome = Remains(rem: nat) | GivesUp | Panics

  /** Every operand is at least 1, so no `%` can divide by zero. */
  predicate Positive(eq: Equation)
  {
    |eq.operands| >= 1 && forall i :: 0 <= i < |eq.operands| ==> eq.operands[i] >= 1
  }

  // ------------------------------------------------- forward evaluation

  /**
   * Left-to-right value of `ops` where the gap before operand `k` (from
   * the right) uses bit `k` of `pat`: even means `+`, odd means `*`.
   */
  function Eval(ops: seq<nat>, pat: nat): nat
    requires |ops| >= 1
  {
    if |ops| == 1 then ops[0]
    else
      var rest := Eval(ops[..|ops| - 1], pat / 2);
      if pat % 2 == 0 then rest + ops[|ops| - 1] else rest * ops[|ops| - 1]
  }

  /**
   * The power of ten an operand is shifted by when concatenated after
   * another number: the least power of ten above `end`, and 10 for 0.
   */
  function ConcatFactor(end: nat): (r: nat)
    ensures r >= 10 && end < r
    ensures end == 0 ==> r == 10
    ensures end > 0 ==> r <= 10 * end
    ensures end > 0 ==> r == Pow(10, DigitCount(end)) && Pow(10, DigitCount(end) - 1) <= end
  {
    var e := if DigitCount(end) == 0 then 1 else DigitCount(end);
    PowPositive(10, e);
    if e == 1 then 10 else PowAdd(10, 1, e - 1); PowPositive(10, e - 1); Pow(10, e)
  }

  /** No power of ten above `end`, other than 1, is smaller than its factor. */
  lemma ConcatFactorLeast(end: nat, e: nat)
    requires e >= 1 && end < Pow(10, e)
    ensures ConcatFactor(end) <= Pow(10, e)
  {
    if end > 0 {
      var d := DigitCount(end);
      if e < d {
        PowMonotone(10, e, d - 1);
      }
      PowMonotone(10, d, e);
    } else {
      PowMonotone(10, 1, e);
    }
  }

  /** `x || end`: the digits of `end` written after those of `x`. */
  function Concat(x: nat, end: nat): nat
  {
    x * ConcatFactor(end) + end
  }

  /** Left-to-right value with base-3 digits of `pat`: 0 is `||`, 1 is `*`, 2 is `+`. */
  function Eval3(ops: seq<nat>, pat: nat): nat
    requires |ops| >= 1
  {
    if |ops| == 1 then ops[0]
    else
      var rest := Eval3(ops[..|ops| - 1], pat / 3);
      var op := ops[|ops| - 1];
      if pat % 3 == 0 then Concat(rest, op) else if pat % 3 == 1 then rest * op else rest + op
  }

  /** Sum of the targets of the equations `keep` accepts. */
  ghost function SumTargets(eqs: seq<Equation>, keep: Equation -> bool): nat
  {
    if eqs == [] then 0 else (if keep(eqs[0]) then eqs[0].target else 0) + SumTargets(eqs[1..], keep)
  }

  /** Two filters that agree on every equation select the same total. */
  lemma {:induction false} SumTargetsAgree(eqs: seq<Equation>, k1: Equation -> bool, k2: Equation -> bool)
    requires forall i :: 0 <= i < |eqs| ==> k1(eqs[i]) == k2(eqs[i])
    ensures SumTargets(eqs, k1) == SumTargets(eqs, k2)
  {
    if eqs != [] {
      assert k1(eqs[0]) == k2(eqs[0]);
      SumTargetsAgree(eqs[1..], k1, k2);
    }
  }

  // ------------------------------------------------------------- part 1

  /**
   * Undoing the operands of `ops` from the right, starting from `rem`,
   * with the low bit of `pat` choosing for the last one: subtract it (if
   * it fits) or divide by it (if it divides); otherwise the pattern is
   * given up. Testing divisibility by a zero operand panics.
   */
  function Undo(rem: nat, ops: seq<nat>, pat: nat): Outcome
    decreases |ops|
  {
    if ops == [] then Remains(rem)
    else
      var op := ops[|ops| - 1];
      if pat % 2 == 0 && op <= rem then Undo(rem - op, ops[..|ops| - 1], pat / 2)
      else if pat % 2 == 1 && op == 0 then Panics
      else if pat % 2 == 1 && rem % op == 0 then Undo(rem / op, ops[..|ops| - 1], pat / 2)
      else GivesUp
  }

  /** Undoing panics only on a zero operand. */
  lemma {:induction false} UndoPanicsOnZero(t: nat, ops: seq<nat>, pat: nat)
    requires Undo(t, ops, pat).Panics?
    ensures exists i :: 0 <= i < |ops| && ops[i] == 0
    decreases |ops|
  {
    var op := ops[|ops| - 1];
    var rest := ops[..|ops| - 1];
    if pat % 2 == 0 && op <= t {
      UndoPanicsOnZero(t - op, rest, pat / 2);
      var i :| 0 <= i < |rest| && rest[i] == 0;
      assert ops[i] == 0;
    } else if pat % 2 == 1 && op == 0 {
      assert ops[|ops| - 1] == 0;
    } else {
      UndoPanicsOnZero(t / op, rest, pat / 2);
      var i :| 0 <= i < |rest| && rest[i] == 0;
      assert ops[i] == 0;
    }
  }

  /**
   * Undoing without a panic leaves nothing exactly when the pattern
   * evaluates forwards to the target.
   */
  lemma {:induction false} UndoCorrect(t: nat, ops: seq<nat>, pat: nat)
    requires |ops| >= 1 && pat < Pow(2, |ops| - 1)
    requires !Undo(t, ops, pat).Panics?
    ensures Undo(t, ops, pat) == Remains(0) <==> Eval(ops, pat) == t
    decreases |ops|
  {
    var op := ops[|ops| - 1];
    var rest := ops[..|ops| - 1];
    if |ops| == 1 {
      assert pat == 0;
    } else {
      assert pat / 2 < Pow(2, |rest| - 1);
      if pat % 2 == 0 {
        if op <= t {
          UndoCorrect(t - op, rest, pat / 2);
        }
      } else {
        if t % op == 0 {
          UndoCorrect(t / op, rest, pat / 2);
          ProductMatches(Eval(rest, pat / 2), op, t);
        } else if Eval(rest, pat / 2) * op == t {
          DivUnique(t, op, Eval(rest, pat / 2), 0);
        }
      }
    }
  }

  /** For `op` dividing `t`, `x * op == t` exactly when `x == t / op`. */
  lemma ProductMatches(x: nat, op: nat, t: nat)
    requires op >= 1 && t % op == 0
    ensures x * op == t <==> x == t / op
  {
    if x * op == t {
      DivUnique(t, op, x, 0);
    }
    if x == t / op {
      ExactDiv(t, op);
    }
  }

  /** Some operator pattern for the gaps makes the operands evaluate to the target. */
  ghost predicate Equates(eq: Equation)
    requires |eq.operands| >= 1
  {
    exists pat :: 0 <= pat < Pow(2, |eq.operands| - 1) && Eval(eq.operands, pat) == eq.target
  }

  /**
   * The verdict of trying the part 1 patterns from `i` on, in order: a
   * panic ends it with `None`, a pattern leaving nothing with true.
   */
  function Search(eq: Equation, i: nat): Option<bool>
    requires |eq.operands| >= 1
    decreases Pow(2, |eq.operands| - 1) - i
  {
    if i >= Pow(2, |eq.operands| - 1) then Some(false)
    else match Undo(eq.target, eq.operands, i)
      case Panics => None
      case Remains(0) => Some(true)
      case _ => Search(eq, i + 1)
  }

  /** Part 1's verdict; `None` where the source panics. */
  function Verdict(eq: Equation): Option<bool>
  {
    if |eq.operands| == 0 then None else Search(eq, 0)
  }

  /** What the search from `i` on decides, in terms of the patterns it tries. */
  lemma {:induction false} SearchDecides(eq: Equation, i: nat)
    requires |eq.operands| >= 1
    ensures Search(eq, i) == Some(true) ==> exists p :: i <= p < Pow(2, |eq.operands| - 1) && Undo(eq.target, eq.operands, p) == Remains(0)
    ensures Search(eq, i) == Some(false) ==> forall p :: i <= p < Pow(2, |eq.operands| - 1) ==> !Undo(eq.target, eq.operands, p).Panics? && Undo(eq.target, eq.operands, p) != Remains(0)
    ensures Search(eq, i).None? ==> exists p :: i <= p < Pow(2, |eq.operands| - 1) && Undo(eq.target, eq.operands, p).Panics?
    decreases Pow(2, |eq.operands| - 1) - i
  {
    if i < Pow(2, |eq.operands| - 1) {
      var o := Undo(eq.target, eq.operands, i);
      if !o.Panics? && o != Remains(0) {
        SearchDecides(eq, i + 1);
      }
    }
  }

  /**
   * Part 1's verdict, when there is one, is whether some choice of `+`
   * and `*` evaluates to the target; there is one whenever no operand is 0,
   * and a panic needs a zero operand.
   */
  lemma VerdictMeans(eq: Equation)
    ensures Verdict(eq).Some? ==> (Verdict(eq).value <==> Equates(eq))
    ensures Positive(eq) ==> Verdict(eq).Some?
    ensures Verdict(eq).None? ==> |eq.operands| == 0 || exists i :: 0 <= i < |eq.operands| && eq.operands[i] == 0
  {
    if |eq.operands| >= 1 {
      var n := Pow(2, |eq.operands| - 1);
      SearchDecides(eq, 0);
      match Search(eq, 0)
      case Some(true) =>
        var p :| 0 <= p < n && Undo(eq.target, eq.operands, p) == Remains(0);
        UndoCorrect(eq.target, eq.operands, p);
      case Some(false) =>
        if Equates(eq) {
          var p :| 0 <= p < n && Eval(eq.operands, p) == eq.target;
          UndoCorrect(eq.target, eq.operands, p);
        }
      case None =>
        var p :| 0 <= p < n && Undo(eq.target, eq.operands, p).Panics?;
        UndoPanicsOnZero(eq.target, eq.operands, p);
    }
  }

  /** A zero target with the single operand 0 is accepted by the first pattern, before any division. */
  lemma ZeroOperandAccepted()
    ensures Verdict(Equation(0, [0])) == Some(true)
  {
    assert Undo(0, [0], 0) == Remains(0);
  }

  /**
   * A multiplying pattern that reaches a zero operand panics, even where
   * the equation holds: for target 0 and operands 1 and 0, pattern 0
   * gives up on the 1 and pattern 1 divides by the 0, though 1 * 0 = 0.
   */
  lemma ZeroOperandPanics()
    ensures Verdict(Equation(0, [1, 0])) == None
  {
    assert [1, 0][..1] == [1];
    assert Undo(0, [1, 0], 0) == GivesUp;
    assert Undo(0, [1, 0], 1) == Panics;
  }

  /**
   * Part 1's test: tries the `2^(n-1)` patterns in turn, giving up a
   * pattern as soon as an operand cannot be undone; true as soon as one
   * leaves nothing, `None` on a panic.
   */
  method CanEquate(eq: Equation) returns (r: Option<bool>)
    ensures r == Verdict(eq)
  {
    var ops := eq.operands;
    if |ops| == 0 {
      return None;
    }
    PowPositive(2, |ops| - 1);
    var combos := Pow(2, |ops| - 1);
    label outer: for i := 0 to combos
      invariant Search(eq, 0) == Search(eq, i)
    {
      var pat: nat := i;
      var remaining: nat := eq.target;
      var j := |ops|;
      assert ops[..j] == ops;
      while j > 0
        invariant 0 <= j <= |ops|
        invariant Undo(eq.target, ops, i) == Undo(remaining, ops[..j], pat)
      {
        var op := ops[j - 1];
        assert ops[..j][..j - 1] == ops[..j - 1];
        if pat % 2 == 0 && op <= remaining {
          remaining := remaining - op;
        } else if pat % 2 == 1 && op == 0 {
          return None;
        } else if pat % 2 == 1 && remaining % op == 0 {
          remaining := remaining / op;
        } else {
          continue outer;
        }
        pat := pat / 2;
        j := j - 1;
      }
      if remaining == 0 {
        return Some(true);
      }
    }
    return Some(false);
  }

  /** As the first operand has no gap before it, it is always undone by subtraction: one operand equates only with itself. */
  lemma SingleOperand(t: nat, op: nat)
    ensures Undo(t, [op], 0) == Remains(0) <==> t == op
  {
  }

  // ------------------------------------------------------------- part 2

  /**
   * Undoes a concatenation: `None` if `end` exceeds `num`, `Some(0)` if
   * they are equal, and otherwise the number whose digits followed by
   * those of `end` spell `num`, if there is one. The source measures
   * `end` with a floating-point `log10`; here its digit count is exact
   * (for `end` 0 both give the factor 10).
   */
  function RemoveMatchingEnd(num: nat, end: nat): (r: Option<nat>)
    ensures end > num ==> r.None?
    ensures end == num ==> r == Some(0)
    ensures r.Some? ==> num == Concat(r.value, end)
  {
    if end > num then None
    else if end == num then Some(0)
    else
      var fac := ConcatFactor(end);
      var res := (num - end) / fac;
      if res * fac + end == num then Some(res) else None
  }

  /** `num` is some `x` followed by `end` exactly when removing `end` gives `x`. */
  lemma RemoveMatchingEndInverse(num: nat, end: nat, x: nat)
    ensures RemoveMatchingEnd(num, end) == Some(x) <==> Concat(x, end) == num
  {
    var fac := ConcatFactor(end);
    if Concat(x, end) == num {
      if x == 0 {
        assert num == end;
      } else {
        MulPositive(x, fac);
        assert num - end == fac * x + 0;
        DivUnique(num - end, fac, x, 0);
        assert (num - end) / fac * fac + end == num;
      }
    }
  }

  /**
   * Part 2's undoing as written: the label the source continues names
   * the loop over operands, so an operand that cannot be undone is just
   * skipped, leaving the remainder and the pattern unchanged. Digit 0 of
   * `pat` undoes `||`, 1 undoes `*`, 2 undoes `+`; never `GivesUp`.
   */
  function UndoSkipping(rem: nat, ops: seq<nat>, pat: nat): (r: Outcome)
    ensures !r.GivesUp?
    decreases |ops|
  {
    if ops == [] then Remains(rem)
    else
      var op := ops[|ops| - 1];
      var rest := ops[..|ops| - 1];
      if pat % 3 == 0 then
        match RemoveMatchingEnd(rem, op)
        case None => UndoSkipping(rem, rest, pat)
        case Some(res) => UndoSkipping(res, rest, pat / 3)
      else if pat % 3 == 1 && op == 0 then Panics
      else if pat % 3 == 1 && rem % op == 0 then UndoSkipping(rem / op, rest, pat / 3)
      else if pat % 3 == 2 && op <= rem then UndoSkipping(rem - op, rest, pat / 3)
      else UndoSkipping(rem, rest, pat)
  }

  /** Undoes the operators of `pat0` from the last operand back, as written: an operand that cannot be undone is skipped. */
  method UndoAllSkipping(target: nat, ops: seq<nat>, pat0: nat) returns (r: Outcome)
    ensures r == UndoSkipping(target, ops, pat0)
  {
    var pat := pat0;
    var remaining := target;
    var j := |ops|;
    assert ops[..j] == ops;
    while j > 0
      invariant 0 <= j <= |ops|
      invariant UndoSkipping(target, ops, pat0) == UndoSkipping(remaining, ops[..j], pat)
    {
      var op := ops[j - 1];
      assert ops[..j][..j - 1] == ops[..j - 1];
      j := j - 1;
      if pat % 3 == 0 {
        var res := RemoveMatchingEnd(remaining, op);
        if res.None? {
          continue;
        }
        remaining := res.value;
      } else if pat % 3 == 1 && op == 0 {
        return Panics;
      } else if pat % 3 == 1 && remaining % op == 0 {
        remaining := remaining / op;
      } else if pat % 3 == 2 && op <= remaining {
        remaining := remaining - op;
      } else {
        continue;
      }
      pat := pat / 3;
    }
    return Remains(remaining);
  }

  /** The verdict of trying the part 2 patterns from `i` on as written. */
  function SearchSkipping(eq: Equation, i: nat): Option<bool>
    requires |eq.operands| >= 1
    decreases Pow(3, |eq.operands| - 1) - i
  {
    if i >= Pow(3, |eq.operands| - 1) then Some(false)
    else match UndoSkipping(eq.target, eq.operands, i)
      case Panics => None
      case Remains(0) => Some(true)
      case _ => SearchSkipping(eq, i + 1)
  }

  /** Part 2's verdict as written; `None` where the source panics. */
  function VerdictSkipping(eq: Equation): Option<bool>
  {
    if |eq.operands| == 0 then None else SearchSkipping(eq, 0)
  }

  /** Part 2's test as written: true when some of the `3^(n-1)` patterns leaves nothing. */
  method CanEquateP2AsWritten(eq: Equation) returns (r: Option<bool>)
    ensures r == VerdictSkipping(eq)
  {
    var ops := eq.operands;
    if |ops| == 0 {
      return None;
    }
    PowPositive(3, |ops| - 1);
    var combos := Pow(3, |ops| - 1);
    for i := 0 to combos
      invariant SearchSkipping(eq, 0) == SearchSkipping(eq, i)
    {
      var o := UndoAllSkipping(eq.target, ops, i);
      if o.Panics? {
        return None;
      }
      if o == Remains(0) {
        return Some(true);
      }
    }
    return Some(false);
  }

  /**
   * Skipping accepts equations no operator pattern satisfies: 3 cannot be
   * made from 3 and 5 (35, 15 and 8 are the candidates), yet skipping
   * the 5 leaves 3, from which the 3 is removed.
   */
  lemma SkippingAcceptsUnreachable()
    ensures VerdictSkipping(Equation(3, [3, 5])) == Some(true)
    ensures forall pat :: 0 <= pat < Pow(3, 1) ==> Eval3([3, 5], pat) != 3
  {
    assert ConcatFactor(5) == 10;
    assert ConcatFactor(3) == 10;
    assert [3, 5][..1] == [3];
    assert RemoveMatchingEnd(3, 5) == None;
    assert RemoveMatchingEnd(3, 3) == Some(0);
    assert UndoSkipping(3, [3, 5], 0) == Remains(0);
  }

  /** Part 2's undoing as intended: an operand that cannot be undone gives the pattern up. */
  function Undo3(rem: nat, ops: seq<nat>, pat: nat): Outcome
    decreases |ops|
  {
    if ops == [] then Remains(rem)
    else
      var op := ops[|ops| - 1];
      var rest := ops[..|ops| - 1];
      if pat % 3 == 0 then
        match RemoveMatchingEnd(rem, op)
        case None => GivesUp
        case Some(res) => Undo3(res, rest, pat / 3)
      else if pat % 3 == 1 && op == 0 then Panics
      else if pat % 3 == 1 && rem % op == 0 then Undo3(rem / op, rest, pat / 3)
      else if pat % 3 == 2 && op <= rem then Undo3(rem - op, rest, pat / 3)
      else GivesUp
  }

  /** The intended undoing panics only on a zero operand. */
  lemma {:induction false} Undo3PanicsOnZero(t: nat, ops: seq<nat>, pat: nat)
    requires Undo3(t, ops, pat).Panics?
    ensures exists i :: 0 <= i < |ops| && ops[i] == 0
    decreases |ops|
  {
    var op := ops[|ops| - 1];
    var rest := ops[..|ops| - 1];
    var next: nat;
    if pat % 3 == 0 {
      next := RemoveMatchingEnd(t, op).value;
    } else if pat % 3 == 1 && op == 0 {
      assert ops[|ops| - 1] == 0;
      return;
    } else if pat % 3 == 1 {
      next := t / op;
    } else {
      next := t - op;
    }
    Undo3PanicsOnZero(next, rest, pat / 3);
    var i :| 0 <= i < |rest| && rest[i] == 0;
    assert ops[i] == 0;
  }

  /** The intended undoing, without a panic, leaves nothing exactly when the pattern evaluates forwards to the target. */
  lemma {:induction false} Undo3Correct(t: nat, ops: seq<nat>, pat: nat)
    requires |ops| >= 1 && pat < Pow(3, |ops| - 1)
    requires !Undo3(t, ops, pat).Panics?
    ensures Undo3(t, ops, pat) == Remains(0) <==> Eval3(ops, pat) == t
    decreases |ops|, 1
  {
    var op := ops[|ops| - 1];
    var rest := ops[..|ops| - 1];
    if |ops| == 1 {
      assert pat == 0;
      RemoveMatchingEndInverse(t, op, 0);
      if RemoveMatchingEnd(t, op).Some? {
        RemoveMatchingEndInverse(t, op, RemoveMatchingEnd(t, op).value);
      }
    } else {
      assert pat / 3 < Pow(3, |rest| - 1);
      var x := Eval3(rest, pat / 3);
      if pat % 3 == 0 {
        RemoveMatchingEndInverse(t, op, x);
        if RemoveMatchingEnd(t, op).Some? {
          UndoCorrect3Step(t, op, rest, pat);
        }
      } else if pat % 3 == 1 {
        if t % op == 0 {
          Undo3Correct(t / op, rest, pat / 3);
          ProductMatches(x, op, t);
        } else if x * op == t {
          DivUnique(t, op, x, 0);
        }
      } else {
        if op <= t {
          Undo3Correct(t - op, rest, pat / 3);
        }
      }
    }
  }

  /** Undoing a concatenation step leaves nothing exactly when the rest evaluates to the prefix. */
  lemma UndoCorrect3Step(t: nat, op: nat, rest: seq<nat>, pat: nat)
    requires |rest| >= 1 && pat % 3 == 0 && pat / 3 < Pow(3, |rest| - 1)
    requires RemoveMatchingEnd(t, op).Some?
    requires !Undo3(RemoveMatchingEnd(t, op).value, rest, pat / 3).Panics?
    ensures Undo3(RemoveMatchingEnd(t, op).value, rest, pat / 3) == Remains(0) <==> Concat(Eval3(rest, pat / 3), op) == t
    decreases |rest| + 1, 0
  {
    var r := RemoveMatchingEnd(t, op).value;
    Undo3Correct(r, rest, pat / 3);
    RemoveMatchingEndInverse(t, op, Eval3(rest, pat / 3));
  }

  /** Some pattern of `+`, `*` and `||` makes the operands evaluate to the target. */
  ghost predicate EquatesP2(eq: Equation)
    requires |eq.operands| >= 1
  {
    exists pat :: 0 <= pat < Pow(3, |eq.operands| - 1) && Eval3(eq.operands, pat) == eq.target
  }

  /** The verdict of trying the part 2 patterns from `i` on as intended. */
  function Search3(eq: Equation, i: nat): Option<bool>
    requires |eq.operands| >= 1
    decreases Pow(3, |eq.operands| - 1) - i
  {
    if i >= Pow(3, |eq.operands| - 1) then Some(false)
    else match Undo3(eq.target, eq.operands, i)
      case Panics => None
      case Remains(0) => Some(true)
      case _ => Search3(eq, i + 1)
  }

  /** Part 2's intended verdict; `None` where a division by a zero operand panics. */
  function Verdict3(eq: Equation): Option<bool>
  {
    if |eq.operands| == 0 then None else Search3(eq, 0)
  }

  /** What the intended part 2 search from `i` on decides, in terms of the patterns it tries. */
  lemma {:induction false} Search3Decides(eq: Equation, i: nat)
    requires |eq.operands| >= 1
    ensures Search3(eq, i) == Some(true) ==> exists p :: i <= p < Pow(3, |eq.operands| - 1) && Undo3(eq.target, eq.operands, p) == Remains(0)
    ensures Search3(eq, i) == Some(false) ==> forall p :: i <= p < Pow(3, |eq.operands| - 1) ==> !Undo3(eq.target, eq.operands, p).Panics? && Undo3(eq.target, eq.operands, p) != Remains(0)
    ensures Search3(eq, i).None? ==> exists p :: i <= p < Pow(3, |eq.operands| - 1) && Undo3(eq.target, eq.operands, p).Panics?
    decreases Pow(3, |eq.operands| - 1) - i
  {
    if i < Pow(3, |eq.operands| - 1) {
      var o := Undo3(eq.target, eq.operands, i);
      if !o.Panics? && o != Remains(0) {
        Search3Decides(eq, i + 1);
      }
    }
  }

  /**
   * The intended part 2 verdict, when there is one, is whether some
   * choice of `+`, `*` and `||` evaluates to the target; there is one
   * whenever no operand is 0, and a panic needs a zero operand.
   */
  lemma Verdict3Means(eq: Equation)
    ensures Verdict3(eq).Some? ==> (Verdict3(eq).value <==> EquatesP2(eq))
    ensures Positive(eq) ==> Verdict3(eq).Some?
    ensures Verdict3(eq).None? ==> |eq.operands| == 0 || exists i :: 0 <= i < |eq.operands| && eq.operands[i] == 0
  {
    if |eq.operands| >= 1 {
      var n := Pow(3, |eq.operands| - 1);
      Search3Decides(eq, 0);
      match Search3(eq, 0)
      case Some(true) =>
        var p :| 0 <= p < n && Undo3(eq.target, eq.operands, p) == Remains(0);
        Undo3Correct(eq.target, eq.operands, p);
      case Some(false) =>
        if EquatesP2(eq) {
          var p :| 0 <= p < n && Eval3(eq.operands, p) == eq.target;
          Undo3Correct(eq.target, eq.operands, p);
        }
      case None =>
        var p :| 0 <= p < n && Undo3(eq.target, eq.operands, p).Panics?;
        Undo3PanicsOnZero(eq.target, eq.operands, p);
    }
  }

  /** Undoes the operators of `pat0` from the last operand back, giving up once an operand cannot be undone. */
  method UndoAll3(target: nat, ops: seq<nat>, pat0: nat) returns (r: Outcome)
    ensures r == Undo3(target, ops, pat0)
  {
    var pat: nat := pat0;
    var remaining: nat := target;
    var j := |ops|;
    assert ops[..j] == ops;
    while j > 0
      invariant 0 <= j <= |ops|
      invariant Undo3(target, ops, pat0) == Undo3(remaining, ops[..j], pat)
    {
      var op := ops[j - 1];
      assert ops[..j][..j - 1] == ops[..j - 1];
      if pat % 3 == 0 {
        var res := RemoveMatchingEnd(remaining, op);
        if res.None? {
          return GivesUp;
        }
        remaining := res.value;
      } else if pat % 3 == 1 && op == 0 {
        return Panics;
      } else if pat % 3 == 1 && remaining % op == 0 {
        remaining := remaining / op;
      } else if pat % 3 == 2 && op <= remaining {
        remaining := remaining - op;
      } else {
        return GivesUp;
      }
      pat := pat / 3;
      j := j - 1;
    }
    return Remains(remaining);
  }

  /** Part 2's test as intended: the labelled continue gives the pattern up. */
  method CanEquateP2(eq: Equation) returns (r: Option<bool>)
    ensures r == Verdict3(eq)
  {
    var ops := eq.operands;
    if |ops| == 0 {
      return None;
    }
    PowPositive(3, |ops| - 1);
    var combos := Pow(3, |ops| - 1);
    for i := 0 to combos
      invariant Search3(eq, 0) == Search3(eq, i)
    {
      var o := UndoAll3(eq.target, ops, i);
      if o.Panics? {
        return None;
      }
      if o == Remains(0) {
        return Some(true);
      }
    }
    return Some(false);
  }

  // ------------------------------------------------------------ totals

  /** Base-3 pattern using `+` (2) and `*` (1) where the base-2 pattern uses `+` (0) and `*` (1), over `k` gaps. */
  function Lift(pat: nat, k: nat): nat
  {
    if k == 0 then 0 else 3 * Lift(pat / 2, k - 1) + (if pat % 2 == 0 then 2 else 1)
  }

  lemma {:induction false} LiftEval(ops: seq<nat>, pat: nat)
    requires |ops| >= 1
    ensures Lift(pat, |ops| - 1) < Pow(3, |ops| - 1)
    ensures Eval3(ops, Lift(pat, |ops| - 1)) == Eval(ops, pat)
  {
    if |ops| > 1 {
      var rest := ops[..|ops| - 1];
      LiftEval(rest, pat / 2);
      var q := Lift(pat, |ops| - 1);
      var digit := if pat % 2 == 0 then 2 else 1;
      DivUnique(q, 3, Lift(pat / 2, |rest| - 1), digit);
    }
  }

  /** Every equation part 1 accepts, part 2 (as intended) accepts too. */
  lemma EquatesImpliesEquatesP2(eq: Equation)
    requires |eq.operands| >= 1 && Equates(eq)
    ensures EquatesP2(eq)
  {
    var pat :| 0 <= pat < Pow(2, |eq.operands| - 1) && Eval(eq.operands, pat) == eq.target;
    LiftEval(eq.operands, pat);
  }

  /** Some choice of `+` and `*` satisfies the equation. */
  ghost predicate Solvable(eq: Equation)
  {
    |eq.operands| >= 1 && Equates(eq)
  }

  /** Some choice of `+`, `*` and `||` satisfies the equation. */
  ghost predicate SolvableP2(eq: Equation)
  {
    |eq.operands| >= 1 && EquatesP2(eq)
  }

  /** Part 1 keeps the equations its test accepts. */
  function Part1Keeps(eq: Equation): bool
  {
    Verdict(eq) == Some(true)
  }

  /** Part 2 as written keeps those, and the ones part 1 rejects that the skipping test accepts. */
  function Part2Keeps(eq: Equation): bool
  {
    Verdict(eq) == Some(true) || (Verdict(eq) == Some(false) && VerdictSkipping(eq) == Some(true))
  }

  /** The source panics on this equation: in part 1's test, or in part 2's on an equation part 1 rejects. */
  function Panicked(eq: Equation): bool
  {
    Verdict(eq).None? || (Verdict(eq) == Some(false) && VerdictSkipping(eq).None?)
  }

  /**
   * The two totals as the source computes them: part 1 sums the targets
   * part 1's test accepts; part 2 adds the targets of the rejected
   * equations that part 2's test as written accepts. `None` when some
   * test panics.
   */
  method Totals(eqs: seq<Equation>) returns (r: Option<(nat, nat)>)
    ensures r.None? <==> exists i :: 0 <= i < |eqs| && Panicked(eqs[i])
    ensures r.Some? ==> r.value.0 == SumTargets(eqs, Part1Keeps) && r.value.1 == SumTargets(eqs, Part2Keeps)
  {
    var part1, part2 := 0, 0;
    var i := |eqs|;
    while i > 0
      invariant 0 <= i <= |eqs|
      invariant forall k :: i <= k < |eqs| ==> !Panicked(eqs[k])
      invariant part1 == SumTargets(eqs[i..], Part1Keeps)
      invariant part2 == SumTargets(eqs[i..], Part2Keeps)
    {
      i := i - 1;
      var eq := eqs[i];
      assert eqs[i..][1..] == eqs[i + 1..];
      var ok := CanEquate(eq);
      if ok.None? {
        return None;
      }
      if ok.value {
        part1 := part1 + eq.target;
        part2 := part2 + eq.target;
      } else {
        var ok2 := CanEquateP2AsWritten(eq);
        if ok2.None? {
          return None;
        }
        if ok2.value {
          part2 := part2 + eq.target;
        }
      }
    }
    assert eqs[0..] == eqs;
    return Some((part1, part2));
  }

  /** For equations without zero operands, part 1 sums exactly the targets some choice of `+` and `*` reaches. */
  lemma Part1Meaning(eqs: seq<Equation>)
    requires forall i :: 0 <= i < |eqs| ==> Positive(eqs[i])
    ensures SumTargets(eqs, Part1Keeps) == SumTargets(eqs, Solvable)
  {
    forall i | 0 <= i < |eqs|
      ensures Part1Keeps(eqs[i]) == Solvable(eqs[i])
    {
      VerdictMeans(eqs[i]);
    }
    SumTargetsAgree(eqs, Part1Keeps, Solvable);
  }

  /** Part 2 as intended keeps what part 1 accepts and what the intended part 2 test accepts of the rest. */
  function IntendedKeeps(eq: Equation): bool
  {
    Verdict(eq) == Some(true) || (Verdict(eq) == Some(false) && Verdict3(eq) == Some(true))
  }

  /** The intended part 2 total: the skipping test replaced by the intended one. */
  method IntendedPart2(eqs: seq<Equation>) returns (r: Option<nat>)
    ensures r.Some? ==> r.value == SumTargets(eqs, IntendedKeeps)
    ensures (forall i :: 0 <= i < |eqs| ==> Positive(eqs[i])) ==> r == Some(SumTargets(eqs, SolvableP2))
  {
    var part2 := 0;
    var i := |eqs|;
    while i > 0
      invariant 0 <= i <= |eqs|
      invariant part2 == SumTargets(eqs[i..], IntendedKeeps)
    {
      i := i - 1;
      var eq := eqs[i];
      assert eqs[i..][1..] == eqs[i + 1..];
      var ok := CanEquate(eq);
      if ok.None? {
        VerdictMeans(eq);
        return None;
      }
      if ok.value {
        part2 := part2 + eq.target;
      } else {
        var ok2 := CanEquateP2(eq);
        if ok2.None? {
          Verdict3Means(eq);
          return None;
        }
        if ok2.value {
          part2 := part2 + eq.target;
        }
      }
    }
    assert eqs[0..] == eqs;
    forall k | 0 <= k < |eqs| && Positive(eqs[k])
      ensures IntendedKeeps(eqs[k]) == SolvableP2(eqs[k])
    {
      IntendedMeans(eqs[k]);
    }
    if forall k :: 0 <= k < |eqs| ==> Positive(eqs[k]) {
      SumTargetsAgree(eqs, IntendedKeeps, SolvableP2);
    }
    return Some(part2);
  }

  /** Without zero operands, part 2 as intended keeps exactly the equations some choice of `+`, `*` and `||` satisfies. */
  lemma IntendedMeans(eq: Equation)
    requires Positive(eq)
    ensures IntendedKeeps(eq) == EquatesP2(eq)
  {
    VerdictMeans(eq);
    Verdict3Means(eq);
    if Equates(eq) {
      EquatesImpliesEquatesP2(eq);
    }
  }
}
