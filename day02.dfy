/**
 * Day 2: reactor reports. A report is safe when its levels move in one
 * direction by steps of 1 to 3; part 2 also accepts a report that becomes
 * safe after removing one level.
 */
module Day02 {
  import opened Arith

  /** Differences between consecutive levels. */
  function ComputeDiffs(r: seq<int>): (d: seq<int>)
    ensures |d| == if |r| == 0 then 0 else |r| - 1
    ensures forall i :: 0 <= i < |d| ==> d[i] == r[i + 1] - r[i]
  {
    if |r| <= 1 then [] else [r[1] - r[0]] + ComputeDiffs(r[1..])
  }

  function Sum(s: seq<int>): int
  {
    if s == [] then 0 else Sum(s[..|s| - 1]) + s[|s| - 1]
  }

  /** The differences telescope: each level is the first plus the differences before it. */
  lemma {:induction false} DiffsTelescope(r: seq<int>, i: nat)
    requires i < |r|
    ensures r[i] == r[0] + Sum(ComputeDiffs(r)[..i])
  {
    if i > 0 {
      DiffsTelescope(r, i - 1);
      assert ComputeDiffs(r)[..i][..i - 1] == ComputeDiffs(r)[..i - 1];
    }
  }

  function SumSigns(d: seq<int>): int
  {
    if d == [] then 0 else Signum(d[0]) + SumSigns(d[1..])
  }

  /**
   * Safe: at most one difference, or every difference has magnitude 1..3
   * and the sign of the summed signs (a tie gives sign 0, so no
   * difference can match it).
   */
  function CheckSafety(r: seq<int>): bool
  {
    var d := ComputeDiffs(r);
    if |d| <= 1 then true
    else
      var main := Signum(SumSigns(d));
      forall i :: 0 <= i < |d| ==> 1 <= Abs(d[i]) <= 3 && Signum(d[i]) == main
  }

  /** Every step goes up by 1 to 3 (`sign = 1`) or down by 1 to 3 (`sign = -1`). */
  predicate Gradual(r: seq<int>, sign: int)
  {
    forall i :: 0 <= i < |r| - 1 ==> 1 <= sign * (r[i + 1] - r[i]) <= 3
  }

  lemma {:induction false} SumSignsConstant(d: seq<int>, s: int)
    requires forall i :: 0 <= i < |d| ==> Signum(d[i]) == s
    ensures SumSigns(d) == s * |d|
  {
    if d != [] {
      SumSignsConstant(d[1..], s);
    }
  }

  /** With at least two differences, safety is exactly "gradually increasing or gradually decreasing". */
  lemma SafetyIsGradual(r: seq<int>)
    requires |r| >= 3
    ensures CheckSafety(r) <==> Gradual(r, 1) || Gradual(r, -1)
  {
    if Gradual(r, 1) {
      GradualIsSafe(r, 1);
    }
    if Gradual(r, -1) {
      GradualIsSafe(r, -1);
    }
    if CheckSafety(r) {
      SafeIsGradual(r);
    }
  }

  /** A report that moves steadily in direction `s` passes the check. */
  lemma GradualIsSafe(r: seq<int>, s: int)
    requires |r| >= 3 && (s == 1 || s == -1) && Gradual(r, s)
    ensures CheckSafety(r)
  {
    var d := ComputeDiffs(r);
    forall i | 0 <= i < |d| ensures Signum(d[i]) == s && 1 <= Abs(d[i]) <= 3 {
      assert 1 <= s * (r[i + 1] - r[i]) <= 3;
    }
    SumSignsConstant(d, s);
  }

  /** A report that passes the check moves steadily up or steadily down. */
  lemma SafeIsGradual(r: seq<int>)
    requires |r| >= 3 && CheckSafety(r)
    ensures Gradual(r, 1) || Gradual(r, -1)
  {
    var d := ComputeDiffs(r);
    var main := Signum(SumSigns(d));
    assert Signum(d[0]) == main && Abs(d[0]) >= 1;
    if main == 1 {
      forall i | 0 <= i < |r| - 1 ensures 1 <= 1 * (r[i + 1] - r[i]) <= 3 {
        assert Signum(d[i]) == 1 && 1 <= Abs(d[i]) <= 3;
      }
    } else {
      forall i | 0 <= i < |r| - 1 ensures 1 <= -1 * (r[i + 1] - r[i]) <= 3 {
        assert Signum(d[i]) == -1 && 1 <= Abs(d[i]) <= 3;
      }
    }
  }

  /** The report without the level at index `i`. */
  function Remove(r: seq<int>, i: nat): seq<int>
    requires i < |r|
  {
    r[..i] + r[i + 1..]
  }

  /** Tries removals from index `i` on, stopping at the first safe one. */
  function AnyRemovalSafe(r: seq<int>, i: nat): (b: bool)
    requires i <= |r|
    ensures b <==> exists j :: i <= j < |r| && CheckSafety(Remove(r, j))
    decreases |r| - i
  {
    if i == |r| then false
    else if CheckSafety(Remove(r, i)) then true
    else AnyRemovalSafe(r, i + 1)
  }

  /** Part 2: some single removal leaves a safe report; an empty report has none. */
  function CheckSafetyPart2(r: seq<int>): (b: bool)
    ensures b <==> exists j :: 0 <= j < |r| && CheckSafety(Remove(r, j))
    ensures r == [] ==> !b
  {
    AnyRemovalSafe(r, 0)
  }

  /** Dropping the last level keeps a safe report safe, so part 2 accepts every safe non-empty report. */
  lemma SafeImpliesPart2(r: seq<int>)
    requires |r| >= 1 && CheckSafety(r)
    ensures CheckSafetyPart2(r)
  {
    var last := |r| - 1;
    assert Remove(r, last) == r[..last];
    DropLastSafe(r);
    assert CheckSafety(Remove(r, last));
  }

  /** A safe report stays safe without its last level. */
  lemma DropLastSafe(r: seq<int>)
    requires |r| >= 1 && CheckSafety(r)
    ensures CheckSafety(r[..|r| - 1])
  {
    var p := r[..|r| - 1];
    if |p| >= 3 {
      SafetyIsGradual(r);
      var s := if Gradual(r, 1) then 1 else -1;
      assert Gradual(p, s) by {
        forall i | 0 <= i < |p| - 1 ensures 1 <= s * (p[i + 1] - p[i]) <= 3 {
          assert p[i] == r[i] && p[i + 1] == r[i + 1];
        }
      }
      SafetyIsGradual(p);
    } else {
      assert |ComputeDiffs(p)| <= 1;
    }
  }
}
