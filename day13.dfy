/**
 * Day 13: claw machines. Button A moves the claw by `a` and costs 3
 * tokens, button B moves it by `b` and costs 1; a machine is won by
 * landing exactly on its prize. With the two moves independent the press
 * counts are fixed by Cramer's rule, and a machine can be won only when
 * both quotients are whole.
 */
module Day13 {
  import opened Wrappers
  import opened Arith
  import Util

  datatype ClawMachine = ClawMachine(prize: (int, int), a: (int, int), b: (int, int))

  const ACost: int := 3
  const BCost: int := 1
  /** How far the second part moves every prize along both axes. */
  const PrizeOffset: int := 10000000000000

  /** The determinant of the two button moves. */
  function Det(m: ClawMachine): int
  {
    m.a.0 * m.b.1 - m.b.0 * m.a.1
  }

  /** Pressing A `na` times and B `nb` times puts the claw on the prize. */
  predicate Reaches(m: ClawMachine, na: int, nb: int)
  {
    na * m.a.0 + nb * m.b.0 == m.prize.0 && na * m.a.1 + nb * m.b.1 == m.prize.1
  }

  /** Cramer's quotient for the presses of A. */
  function PressesA(m: ClawMachine): Util.Ratio
  {
    Util.Ratio(m.prize.0 * m.b.1 - m.b.0 * m.prize.1, Det(m))
  }

  /** Cramer's quotient for the presses of B. */
  function PressesB(m: ClawMachine): Util.Ratio
  {
    Util.Ratio(m.a.0 * m.prize.1 - m.prize.0 * m.a.1, Det(m))
  }

  /**
   * The cheapest way to win a machine, if it can be won. The source takes
   * a remainder by the determinant, which panics when it is 0.
   */
  function FindPrize(m: ClawMachine): (r: Option<int>)
    requires Det(m) != 0
    ensures r.Some? <==> Util.IsInteger(PressesA(m)) && Util.IsInteger(PressesB(m))
  {
    var a := PressesA(m);
    var b := PressesB(m);
    if Util.IsInteger(a) && Util.IsInteger(b) then
      Some(ACost * Util.AsInteger(a) + BCost * Util.AsInteger(b))
    else None
  }

  /** Any winning press counts scale the determinant into Cramer's numerators. */
  lemma CramerNumerators(m: ClawMachine, na: int, nb: int)
    requires Reaches(m, na, nb)
    ensures m.prize.0 * m.b.1 - m.b.0 * m.prize.1 == na * Det(m)
    ensures m.a.0 * m.prize.1 - m.prize.0 * m.a.1 == nb * Det(m)
  {
    var xa, ya, xb, yb := m.a.0, m.a.1, m.b.0, m.b.1;
    calc {
      m.prize.0 * yb - xb * m.prize.1;
      (na * xa + nb * xb) * yb - xb * (na * ya + nb * yb);
      { Distrib(yb, na * xa, nb * xb); Distrib(xb, na * ya, nb * yb); }
      na * xa * yb + nb * xb * yb - (xb * na * ya + xb * nb * yb);
      na * (xa * yb - xb * ya);
    }
    calc {
      xa * m.prize.1 - m.prize.0 * ya;
      xa * (na * ya + nb * yb) - (na * xa + nb * xb) * ya;
      { Distrib(xa, na * ya, nb * yb); Distrib(ya, na * xa, nb * xb); }
      xa * na * ya + xa * nb * yb - (na * xa * ya + nb * xb * ya);
      nb * (xa * yb - xb * ya);
    }
  }

  /** When a machine pays out, the presses it counts land on the prize and cost what it returns. */
  lemma FindPrizeSound(m: ClawMachine)
    requires Det(m) != 0 && FindPrize(m).Some?
    ensures Reaches(m, Util.AsInteger(PressesA(m)), Util.AsInteger(PressesB(m)))
    ensures FindPrize(m) == Some(ACost * Util.AsInteger(PressesA(m)) + BCost * Util.AsInteger(PressesB(m)))
  {
    var na, nb := Util.AsInteger(PressesA(m)), Util.AsInteger(PressesB(m));
    BackSubstitute(m.a.0, m.a.1, m.b.0, m.b.1, m.prize.0, m.prize.1, na, nb);
    BackSubstitute(m.b.1, m.b.0, m.a.1, m.a.0, m.prize.1, m.prize.0, nb, na);
  }

  /**
   * Cramer's rule read backwards for one axis: whole quotients for both
   * counts satisfy the equation of the axis.
   */
  lemma BackSubstitute(xa: int, ya: int, xb: int, yb: int, xp: int, yp: int, na: int, nb: int)
    requires xa * yb - xb * ya != 0
    requires (xa * yb - xb * ya) * na == xp * yb - xb * yp
    requires (xa * yb - xb * ya) * nb == xa * yp - xp * ya
    ensures na * xa + nb * xb == xp
  {
    var det := xa * yb - xb * ya;
    calc {
      det * (na * xa + nb * xb);
      { Distrib(det, na * xa, nb * xb); }
      det * (na * xa) + det * (nb * xb);
      { MulAssoc(det, na, xa); MulAssoc(det, nb, xb); }
      (det * na) * xa + (det * nb) * xb;
      (xp * yb - xb * yp) * xa + (xa * yp - xp * ya) * xb;
      det * xp;
    }
    Util.MulCancel(det, na * xa + nb * xb, xp);
  }

  /** A multiple of `d` closer to 0 than `d` is 0. */
  lemma SmallMultiple(d: int, k: int)
    requires d != 0 && Abs(d * k) < Abs(d)
    ensures k == 0
  {
    assert Abs(d * k) == Abs(d) * Abs(k);
    if k != 0 {
      MulMonotone(Abs(d), 1, Abs(k));
    }
  }

  /**
   * Every whole way to win a machine is found, at its cost: with a nonzero
   * determinant the press counts are unique.
   */
  lemma FindPrizeComplete(m: ClawMachine, na: int, nb: int)
    requires Det(m) != 0 && Reaches(m, na, nb)
    ensures FindPrize(m) == Some(ACost * na + BCost * nb)
  {
    var det := Det(m);
    CramerNumerators(m, na, nb);
    var qa, qb := Util.AsInteger(PressesA(m)), Util.AsInteger(PressesB(m));
    assert det * na - det * qa == det * (na - qa);
    SmallMultiple(det, na - qa);
    assert det * nb - det * qb == det * (nb - qb);
    SmallMultiple(det, nb - qb);
  }

  /** The second part's machine: the same buttons, the prize moved along both axes. */
  function Farther(m: ClawMachine): (r: ClawMachine)
    ensures r.a == m.a && r.b == m.b && Det(r) == Det(m)
    ensures r.prize.0 - m.prize.0 == r.prize.1 - m.prize.1 == PrizeOffset
  {
    ClawMachine((m.prize.0 + PrizeOffset, m.prize.1 + PrizeOffset), m.a, m.b)
  }

  /** Total tokens over the machines that can be won. */
  function TotalCost(machines: seq<ClawMachine>): (r: int)
    requires forall i :: 0 <= i < |machines| ==> Det(machines[i]) != 0
    ensures (forall i :: 0 <= i < |machines| ==> FindPrize(machines[i]).None?) ==> r == 0
  {
    if machines == [] then 0
    else
      var last := machines[|machines| - 1];
      TotalCost(machines[..|machines| - 1]) + (match FindPrize(last) case Some(c) => c case None => 0)
  }
}
