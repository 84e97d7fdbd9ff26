/**
 * Day 15: a robot pushing crates around a warehouse. A push moves the
 * whole chain of crates in front of the robot one cell, or nothing when
 * the chain ends at a wall. In the second part every cell is doubled in
 * width and crates become two cells wide, so a vertical push of a crate
 * pushes whatever stands in front of either half; a dry run decides
 * whether the push can happen before it is applied.
 *
 * Positions are (line, column) pairs, as in the source. The puzzle's
 * warehouses are walled in, and the pushes require it: a push then never
 * steps outside, where the source's unsigned step or index would panic.
 */
module Day15 {
  import Util

  datatype Cell = Wall | Empty | Crate | BigCrateLeft | BigCrateRight

  type Grid = seq<seq<Cell>>
  type Pos = (int, int)

  predicate InGrid(g: Grid, p: Pos)
  {
    0 <= p.0 < |g| && 0 <= p.1 < |g[p.0]|
  }

  /** The cell at `p`; off the warehouse a wall (the pushes never read there). */
  function At(g: Grid, p: Pos): Cell
  {
    if InGrid(g, p) then g[p.0][p.1] else Wall
  }

  /** The grid with the cell at `p` replaced by `v`. */
  function Put(g: Grid, p: Pos, v: Cell): (r: Grid)
    requires InGrid(g, p)
    ensures Shape(r) == Shape(g)
    ensures forall q :: At(r, q) == if q == p then v else At(g, q)
  {
    g[p.0 := g[p.0][p.1 := v]]
  }

  /** The length of every line. */
  function Shape(g: Grid): (r: seq<nat>)
    ensures |r| == |g| && forall y :: 0 <= y < |g| ==> r[y] == |g[y]|
  {
    seq(|g|, y requires 0 <= y < |g| => |g[y]|)
  }

  /** The neighbour of `p` in direction `d`. */
  function Step(p: Pos, d: Util.Direction): (r: Pos)
    ensures Util.IsVertical(d) ==> r.1 == p.1
    ensures !Util.IsVertical(d) ==> r.0 == p.0
  {
    match d
    case Up => (p.0 - 1, p.1)
    case Down => (p.0 + 1, p.1)
    case Left => (p.0, p.1 - 1)
    case Right => (p.0, p.1 + 1)
  }

  /** `q` lies strictly beyond `p` in direction `d`. */
  predicate Ahead(p: Pos, q: Pos, d: Util.Direction)
  {
    match d
    case Up => q.0 < p.0
    case Down => q.0 > p.0
    case Left => q.1 < p.1
    case Right => q.1 > p.1
  }

  /** How far `p` is from the edge of the warehouse in direction `d`. */
  function Room(g: Grid, p: Pos, d: Util.Direction): nat
  {
    match d
    case Up => if p.0 > 0 then p.0 else 0
    case Down => if p.0 < |g| then |g| - p.0 else 0
    case Left => if p.1 > 0 then p.1 else 0
    case Right => if p.1 < Util.Width(g) then Util.Width(g) - p.1 else 0
  }

  /** `p` is a cell of the first or last line or column. */
  predicate OnBorder(g: Grid, p: Pos)
  {
    InGrid(g, p) && (p.0 == 0 || p.0 == |g| - 1 || p.1 == 0 || p.1 == |g[p.0]| - 1)
  }

  /** Every border cell is a wall. */
  ghost predicate Walled(g: Grid)
  {
    forall q :: OnBorder(g, q) ==> At(g, q) == Wall
  }

  /** `p` is a cell of the warehouse off its border. */
  predicate Inside(g: Grid, p: Pos)
  {
    InGrid(g, p) && !OnBorder(g, p)
  }

  /**
   * A push from `p` along `d` stays inside: `p` lies on an inner line,
   * and on an inner column unless the push is vertical (the second half
   * of a crate may sit on a border column).
   */
  predicate Pushable(g: Grid, p: Pos, d: Util.Direction)
  {
    0 < p.0 < |g| - 1 && if Util.IsVertical(d) then 0 <= p.1 < |g[p.0]| else 0 < p.1 < |g[p.0]| - 1
  }

  /** The cell ahead of a pushable cell is on the warehouse, and on the border only if the pushing cell is. */
  lemma PushableStep(g: Grid, p: Pos, d: Util.Direction)
    requires Util.Rectangular(g) && Pushable(g, p, d)
    ensures InGrid(g, p) && InGrid(g, Step(p, d))
    ensures OnBorder(g, p) ==> OnBorder(g, Step(p, d))
  {
  }

  /** A cell that is not a wall in a walled warehouse is inside, so a push from it along any direction stays inside. */
  lemma InsidePushable(g: Grid, n: Pos, d: Util.Direction)
    requires Walled(g) && InGrid(g, n) && At(g, n) != Wall
    ensures Inside(g, n) && Pushable(g, n, d)
  {
  }

  /** Warehouses of the same shape agree on which cells exist and which lie on the border. */
  lemma SameShapeBorder(g: Grid, h: Grid, p: Pos)
    requires Shape(h) == Shape(g)
    ensures InGrid(h, p) <==> InGrid(g, p)
    ensures OnBorder(h, p) <==> OnBorder(g, p)
  {
    if 0 <= p.0 < |g| {
      assert Shape(h)[p.0] == Shape(g)[p.0];
    }
  }

  // ---------------------------------------------------------------- tally

  /** How many cells of the warehouse hold `c`. */
  function Tally(g: Grid, c: Cell): nat
  {
    if g == [] then 0 else Tally(g[..|g| - 1], c) + multiset(g[|g| - 1])[c]
  }

  /** Replacing one cell moves one unit of tally from the old content to the new. */
  lemma {:induction false} TallyPut(g: Grid, p: Pos, v: Cell, c: Cell)
    requires InGrid(g, p)
    ensures Tally(Put(g, p, v), c) + (if At(g, p) == c then 1 else 0) == Tally(g, c) + (if v == c then 1 else 0)
    decreases |g|
  {
    var r := Put(g, p, v);
    var last := |g| - 1;
    assert r[..last] == if p.0 == last then g[..last] else g[..last][p.0 := g[p.0][p.1 := v]];
    if p.0 == last {
      assert g[last][p.1 := v] == r[last];
    } else {
      TallyPut(g[..last], p, v, c);
      assert Put(g[..last], p, v) == r[..last];
    }
  }

  /** A cell of the warehouse holding `c` makes the tally of `c` positive. */
  lemma {:induction false} TallyAt(g: Grid, p: Pos)
    requires InGrid(g, p)
    ensures Tally(g, At(g, p)) >= 1
    decreases |g|
  {
    var last := |g| - 1;
    if p.0 == last {
      assert g[last][p.1] in multiset(g[last]);
    } else {
      TallyAt(g[..last], p);
      assert At(g[..last], p) == At(g, p);
    }
  }

  /**
   * Moves the content of `p` to the empty cell `n` and empties `p`: the
   * writes every successful push ends with.
   */
  function Shift(g: Grid, p: Pos, n: Pos): (r: Grid)
    requires InGrid(g, p) && InGrid(g, n) && p != n && At(g, n) == Empty
    ensures Shape(r) == Shape(g)
    ensures forall c :: Tally(r, c) == Tally(g, c)
    ensures At(r, p) == Empty && At(r, n) == At(g, p)
    ensures forall q :: q != p && q != n ==> At(r, q) == At(g, q)
  {
    var g1 := Put(g, n, At(g, p));
    var r := Put(g1, p, Empty);
    forall c
      ensures Tally(r, c) == Tally(g, c)
    {
      TallyPut(g, n, At(g, p), c);
      TallyPut(g1, p, Empty, c);
    }
    r
  }

  /** Moving a cell off the border into an empty cell leaves every border wall in place. */
  lemma ShiftKeepsWalls(g: Grid, p: Pos, n: Pos)
    requires Walled(g) && InGrid(g, p) && InGrid(g, n) && p != n && At(g, n) == Empty && !OnBorder(g, p)
    ensures Walled(Shift(g, p, n))
  {
    var r := Shift(g, p, n);
    forall q | OnBorder(r, q)
      ensures At(r, q) == Wall
    {
      SameShapeBorder(g, r, q);
    }
  }

  // ---------------------------------------------------------- small crates

  /**
   * What pushing from `p` in direction `d` does: whether the push
   * succeeds, and the warehouse afterwards. A chain of crates ending at an
   * empty cell moves one cell along; a chain ending at a wall stays put.
   */
  function Push(g: Grid, d: Util.Direction, p: Pos): (r: (bool, Grid))
    requires Util.Rectangular(g) && Tally(g, BigCrateLeft) == 0 && Tally(g, BigCrateRight) == 0
    requires Walled(g) && Pushable(g, p, d)
    ensures Shape(r.1) == Shape(g) && Walled(r.1)
    ensures forall c :: Tally(r.1, c) == Tally(g, c)
    ensures !r.0 ==> r.1 == g
    ensures r.0 ==> At(g, Step(p, d)) != Wall && At(r.1, p) == Empty && At(r.1, Step(p, d)) == At(g, p)
    ensures forall q :: q != p && !Ahead(p, q, d) ==> At(r.1, q) == At(g, q)
    decreases Room(g, p, d)
  {
    var n := Step(p, d);
    PushableStep(g, p, d);
    match g[n.0][n.1]
    case Empty => ShiftKeepsWalls(g, p, n); (true, Shift(g, p, n))
    case Crate =>
      InsidePushable(g, n, d);
      var (ok, g1) := Push(g, d, n);
      assert forall q :: !Ahead(p, q, d) ==> q != n && !Ahead(n, q, d) by {
        forall q | !Ahead(p, q, d)
          ensures q != n && !Ahead(n, q, d)
        {
          StepAhead(p, d, q);
        }
      }
      SameShapeBorder(g, g1, p);
      SameShapeBorder(g, g1, n);
      if ok then ShiftKeepsWalls(g1, p, n); (true, Shift(g1, p, n)) else (false, g1)
    case Wall => (false, g)
    case BigCrateLeft => TallyAt(g, n); assert false; (false, g)
    case BigCrateRight => TallyAt(g, n); assert false; (false, g)
  }

  /** A cell not beyond `p` is neither the next cell nor beyond it. */
  lemma StepAhead(p: Pos, d: Util.Direction, q: Pos)
    requires !Ahead(p, q, d)
    ensures q != Step(p, d) && !Ahead(Step(p, d), q, d)
  {
  }

  // ---------------------------------------------------------- large crates

  /** The other half of the crate whose half `cell` lies at `n`. */
  function OtherHalf(n: Pos, cell: Cell): (m: Pos)
    ensures m.0 == n.0 && m != n && (m.1 == n.1 + 1 || m.1 == n.1 - 1)
  {
    if cell == BigCrateLeft then (n.0, n.1 + 1) else (n.0, n.1 - 1)
  }

  /**
   * The same for the widened warehouse. A vertical push into either half
   * of a crate pushes from both halves, the second on the warehouse the
   * first left (both are always attempted), and succeeds only if both do.
   * With `apply` false nothing is written.
   */
  function PushLarge(g: Grid, d: Util.Direction, p: Pos, apply: bool): (r: (bool, Grid))
    requires Util.Rectangular(g) && Tally(g, Crate) == 0
    requires Walled(g) && Pushable(g, p, d)
    ensures Shape(r.1) == Shape(g) && Walled(r.1)
    ensures forall c :: Tally(r.1, c) == Tally(g, c)
    ensures !apply ==> r.1 == g
    ensures r.0 ==> At(g, Step(p, d)) != Wall
    ensures apply && r.0 ==> At(r.1, p) == Empty && At(r.1, Step(p, d)) == At(g, p)
    ensures forall q :: q != p && !Ahead(p, q, d) ==> At(r.1, q) == At(g, q)
    decreases Room(g, p, d), 2
  {
    var n := Step(p, d);
    PushableStep(g, p, d);
    match g[n.0][n.1]
    case Empty => ShiftKeepsWalls(g, p, n); (true, if apply then Shift(g, p, n) else g)
    case Wall => (false, g)
    case Crate => TallyAt(g, n); assert false; (false, g)
    case BigCrateLeft | BigCrateRight => PushHalves(g, d, p, n, OtherHalf(n, At(g, n)), apply)
  }

  /** A push into either half of a crate is a push into the halves of that crate. */
  lemma PushLargeIntoHalf(g: Grid, d: Util.Direction, p: Pos, apply: bool)
    requires Util.Rectangular(g) && Tally(g, Crate) == 0 && Walled(g) && Pushable(g, p, d)
    requires At(g, Step(p, d)) == BigCrateLeft || At(g, Step(p, d)) == BigCrateRight
    ensures InGrid(g, Step(p, d))
    ensures PushLarge(g, d, p, apply) == PushHalves(g, d, p, Step(p, d), OtherHalf(Step(p, d), At(g, Step(p, d))), apply)
  {
    PushableStep(g, p, d);
  }

  /** `m` is the cell beside the crate half `n` on its line. */
  predicate Beside(n: Pos, m: Pos)
  {
    m.0 == n.0 && (m.1 == n.1 + 1 || m.1 == n.1 - 1)
  }

  /** Pushing into one half `n` of a crate, whose other half is `m`. */
  function PushHalves(g: Grid, d: Util.Direction, p: Pos, n: Pos, m: Pos, apply: bool): (r: (bool, Grid))
    requires Util.Rectangular(g) && Tally(g, Crate) == 0
    requires Walled(g) && Pushable(g, p, d) && n == Step(p, d) && InGrid(g, n) && At(g, n) != Wall && Beside(n, m)
    ensures Shape(r.1) == Shape(g) && Walled(r.1)
    ensures forall c :: Tally(r.1, c) == Tally(g, c)
    ensures !apply ==> r.1 == g
    ensures apply && r.0 ==> At(r.1, p) == Empty && At(r.1, n) == At(g, p)
    ensures forall q :: q != p && !Ahead(p, q, d) ==> At(r.1, q) == At(g, q)
    decreases Room(g, p, d), 1
  {
    if Util.IsVertical(d) then PushBoth(g, d, p, n, m, apply)
    else
      InsidePushable(g, n, d);
      PushableStep(g, p, d);
      var (a, g1) := PushLarge(g, d, n, apply);
      SameShapeBorder(g, g1, p);
      SameShapeBorder(g, g1, n);
      if a then (true, if apply then ShiftKeepsWalls(g1, p, n); Shift(g1, p, n) else g1)
      else (false, g1)
  }

  /** A vertical push into a crate: from both halves, the second on the warehouse the first left. */
  function PushBoth(g: Grid, d: Util.Direction, p: Pos, n: Pos, m: Pos, apply: bool): (r: (bool, Grid))
    requires Util.Rectangular(g) && Tally(g, Crate) == 0
    requires Walled(g) && Pushable(g, p, d) && n == Step(p, d) && InGrid(g, n) && At(g, n) != Wall && Beside(n, m)
    requires Util.IsVertical(d)
    ensures !apply && r.0 ==> PushLarge(g, d, n, false).0 && PushLarge(g, d, m, false).0
    ensures Shape(r.1) == Shape(g) && Walled(r.1)
    ensures forall c :: Tally(r.1, c) == Tally(g, c)
    ensures !apply ==> r.1 == g
    ensures apply && r.0 ==> At(r.1, p) == Empty && At(r.1, n) == At(g, p)
    ensures forall q :: q != p && !Ahead(p, q, d) ==> At(r.1, q) == At(g, q)
    decreases Room(g, p, d), 0
  {
    InsidePushable(g, n, d);
    PushableStep(g, p, d);
    var (a, g1) := PushLarge(g, d, n, apply);
    SecondHalfPushable(g, g1, n, m, d);
    var (b, g2) := PushLarge(g1, d, m, apply);
    assert forall q :: !Ahead(p, q, d) ==> At(g2, q) == At(g, q) by {
      forall q | !Ahead(p, q, d)
        ensures At(g2, q) == At(g, q)
      {
        HalvesAhead(p, n, m, d, q);
      }
    }
    assert !Ahead(m, n, d) && At(g2, n) == At(g1, n);
    SameShapeBorder(g, g2, p);
    SameShapeBorder(g, g2, n);
    if a && b then (true, if apply then ShiftKeepsWalls(g2, p, n); Shift(g2, p, n) else g2) else (false, g2)
  }

  /**
   * The cell beside a crate half lies on the same inner line, so after
   * the first half's push the second half can be pushed vertically
   * without leaving the warehouse.
   */
  lemma SecondHalfPushable(g: Grid, g1: Grid, n: Pos, m: Pos, d: Util.Direction)
    requires Util.Rectangular(g) && Inside(g, n) && Beside(n, m) && Util.IsVertical(d)
    requires Shape(g1) == Shape(g)
    ensures Util.Rectangular(g1) && Pushable(g1, m, d) && Room(g1, m, d) == Room(g, n, d)
  {
    SameShapeRectangular(g, g1);
    SameShapeBorder(g, g1, m);
  }

  /** After the push from the first half, the second half can still be pushed, and the two pushes make up `PushBoth`. */
  lemma BothInSequence(g: Grid, d: Util.Direction, p: Pos, n: Pos, m: Pos, apply: bool)
    requires Util.Rectangular(g) && Tally(g, Crate) == 0
    requires Walled(g) && Pushable(g, p, d) && n == Step(p, d) && InGrid(g, n) && At(g, n) != Wall && Beside(n, m)
    requires Util.IsVertical(d)
    ensures var g1 := PushLarge(g, d, n, apply).1;
      Util.Rectangular(g1) && Tally(g1, Crate) == 0 && Walled(g1) && Pushable(g1, m, d) && Room(g1, m, d) < Room(g, p, d)
    ensures var (a, g1) := PushLarge(g, d, n, apply);
      var (b, g2) := PushLarge(g1, d, m, apply);
      (a && b && apply ==> InGrid(g2, p) && InGrid(g2, n) && p != n && At(g2, n) == Empty) &&
      PushHalves(g, d, p, n, m, apply) == if a && b then (true, if apply then Shift(g2, p, n) else g2) else (false, g2)
  {
    InsidePushable(g, n, d);
    PushableStep(g, p, d);
    var g1 := PushLarge(g, d, n, apply).1;
    SecondHalfPushable(g, g1, n, m, d);
    var g2 := PushLarge(g1, d, m, apply).1;
    SameShapeBorder(g, g2, p);
    SameShapeBorder(g, g2, n);
  }

  /** A sideways push into a crate is the push from its near half, followed by the shift from `p`. */
  lemma SidewaysInSequence(g: Grid, d: Util.Direction, p: Pos, n: Pos, m: Pos, apply: bool)
    requires Util.Rectangular(g) && Tally(g, Crate) == 0
    requires Walled(g) && Pushable(g, p, d) && n == Step(p, d) && InGrid(g, n) && At(g, n) != Wall && Beside(n, m)
    requires !Util.IsVertical(d)
    ensures Pushable(g, n, d)
    ensures var (a, g1) := PushLarge(g, d, n, apply);
      (a && apply ==> InGrid(g1, p) && InGrid(g1, n) && p != n && At(g1, n) == Empty) &&
      PushHalves(g, d, p, n, m, apply) == if a then (true, if apply then Shift(g1, p, n) else g1) else (false, g1)
  {
    InsidePushable(g, n, d);
    PushableStep(g, p, d);
    var g1 := PushLarge(g, d, n, apply).1;
    SameShapeBorder(g, g1, p);
    SameShapeBorder(g, g1, n);
  }

  /** Cells not beyond `p` are neither half of the crate ahead of it nor beyond either half. */
  lemma HalvesAhead(p: Pos, n: Pos, m: Pos, d: Util.Direction, q: Pos)
    requires Util.IsVertical(d) && n == Step(p, d) && m.0 == n.0 && !Ahead(p, q, d)
    ensures q != n && q != m && !Ahead(n, q, d) && !Ahead(m, q, d)
  {
  }

  // ------------------------------------------------------------ the walks

  /** Equal line lengths keep a warehouse rectangular. */
  lemma SameShapeRectangular(g: Grid, h: Grid)
    requires Util.Rectangular(g) && Shape(h) == Shape(g)
    ensures Util.Rectangular(h)
  {
    if |g| > 0 {
      assert Shape(h)[0] == Shape(g)[0];
    }
    forall y | 0 <= y < |h|
      ensures |h[y]| == Util.Width(h)
    {
      assert Shape(h)[y] == Shape(g)[y];
      assert Shape(h)[0] == Shape(g)[0];
    }
  }

  /** The first warehouse holds no wide crates. */
  predicate Narrow(g: Grid)
  {
    Util.Rectangular(g) && Tally(g, BigCrateLeft) == 0 && Tally(g, BigCrateRight) == 0
  }

  /**
   * One move of the robot in the first warehouse: it steps in direction
   * `d` exactly when the push from its cell succeeds. The robot stays on
   * an empty cell of the warehouse and no cell content appears or vanishes.
   */
  function MoveRobot(g: Grid, p: Pos, d: Util.Direction): (r: (Grid, Pos))
    requires Narrow(g) && Walled(g) && Inside(g, p)
    ensures Narrow(r.0) && Walled(r.0) && Inside(r.0, r.1)
    ensures forall c :: Tally(r.0, c) == Tally(g, c)
    ensures r.1 == (if Push(g, d, p).0 then Step(p, d) else p)
    ensures At(g, p) == Empty ==> At(r.0, r.1) == Empty
  {
    var (ok, g1) := Push(g, d, p);
    SameShapeRectangular(g, g1);
    var p1 := if ok then Step(p, d) else p;
    PushableStep(g, p, d);
    SameShapeBorder(g, g1, p1);
    (g1, p1)
  }

  /** The robot's moves in the first warehouse, in order. */
  function Walk(g: Grid, p: Pos, dirs: seq<Util.Direction>): (r: (Grid, Pos))
    requires Narrow(g) && Walled(g) && Inside(g, p)
    ensures Narrow(r.0) && Walled(r.0) && Inside(r.0, r.1)
    ensures forall c :: Tally(r.0, c) == Tally(g, c)
    ensures At(g, p) == Empty ==> At(r.0, r.1) == Empty
  {
    if dirs == [] then (g, p)
    else
      var (g1, p1) := Walk(g, p, dirs[..|dirs| - 1]);
      MoveRobot(g1, p1, dirs[|dirs| - 1])
  }

  /** The widened warehouse holds no single-width crates. */
  predicate Wide(g: Grid)
  {
    Util.Rectangular(g) && Tally(g, Crate) == 0
  }

  /**
   * One move of the robot in the widened warehouse: a dry run first, and
   * only if it succeeds the push applied and the step taken. The robot
   * stays on the warehouse and no cell content appears or vanishes; when
   * the applied push succeeds too, the robot lands on the content of its
   * old cell.
   */
  function MoveRobotLarge(g: Grid, p: Pos, d: Util.Direction): (r: (Grid, Pos))
    requires Wide(g) && Walled(g) && Inside(g, p)
    ensures Wide(r.0) && Walled(r.0) && Inside(r.0, r.1)
    ensures forall c :: Tally(r.0, c) == Tally(g, c)
    ensures r.1 == (if PushLarge(g, d, p, false).0 then Step(p, d) else p)
    ensures PushLarge(g, d, p, false).0 ==> r.0 == PushLarge(g, d, p, true).1
    ensures !PushLarge(g, d, p, false).0 ==> r.0 == g
    ensures PushLarge(g, d, p, false).0 && PushLarge(g, d, p, true).0 ==> At(r.0, r.1) == At(g, p)
  {
    if PushLarge(g, d, p, false).0 then
      var (ok, g1) := PushLarge(g, d, p, true);
      SameShapeRectangular(g, g1);
      PushableStep(g, p, d);
      SameShapeBorder(g, g1, Step(p, d));
      (g1, Step(p, d))
    else (g, p)
  }

  /** The robot's moves in the widened warehouse, in order. */
  function WalkLarge(g: Grid, p: Pos, dirs: seq<Util.Direction>): (r: (Grid, Pos))
    requires Wide(g) && Walled(g) && Inside(g, p)
    ensures Wide(r.0) && Walled(r.0) && Inside(r.0, r.1)
    ensures forall c :: Tally(r.0, c) == Tally(g, c)
  {
    if dirs == [] then (g, p)
    else
      var (g1, p1) := WalkLarge(g, p, dirs[..|dirs| - 1]);
      MoveRobotLarge(g1, p1, dirs[|dirs| - 1])
  }

  // ------------------------------------------------------------- widening

  /** The two cells one cell of the first warehouse becomes. */
  function Widen(c: Cell): (Cell, Cell)
  {
    if c == Crate then (BigCrateLeft, BigCrateRight) else (c, c)
  }

  /** A line of the widened warehouse. */
  function WidenRow(row: seq<Cell>): (r: seq<Cell>)
    ensures |r| == 2 * |row|
    ensures forall j :: 0 <= j < |row| ==> r[2 * j] == Widen(row[j]).0 && r[2 * j + 1] == Widen(row[j]).1
  {
    if row == [] then []
    else
      var w := Widen(row[|row| - 1]);
      WidenRow(row[..|row| - 1]) + [w.0, w.1]
  }

  /** The widened warehouse. */
  function Widened(g: Grid): (r: Grid)
    ensures |r| == |g| && forall y :: 0 <= y < |g| ==> r[y] == WidenRow(g[y])
  {
    seq(|g|, y requires 0 <= y < |g| => WidenRow(g[y]))
  }

  /** How many cells holding `c` a line with cell counts `m` widens into. */
  function WidenedCount(m: multiset<Cell>, c: Cell): nat
  {
    match c
    case Crate => 0
    case BigCrateLeft => m[Crate] + 2 * m[BigCrateLeft]
    case BigCrateRight => m[Crate] + 2 * m[BigCrateRight]
    case _ => 2 * m[c]
  }

  lemma WidenedCountAdd(m: multiset<Cell>, x: Cell, c: Cell)
    ensures WidenedCount(m + multiset{x}, c) == WidenedCount(m, c) + multiset([Widen(x).0, Widen(x).1])[c]
  {
  }

  lemma MultisetSnoc(row: seq<Cell>)
    requires row != []
    ensures multiset(row) == multiset(row[..|row| - 1]) + multiset{row[|row| - 1]}
  {
    assert row == row[..|row| - 1] + [row[|row| - 1]];
  }

  lemma {:induction false} WidenRowCount(row: seq<Cell>, c: Cell)
    ensures multiset(WidenRow(row))[c] == WidenedCount(multiset(row), c)
    decreases |row|
  {
    if row != [] {
      var init := row[..|row| - 1];
      var x := row[|row| - 1];
      var w := Widen(x);
      WidenRowCount(init, c);
      MultisetSnoc(row);
      assert WidenRow(row) == WidenRow(init) + [w.0, w.1];
      assert multiset(WidenRow(row)) == multiset(WidenRow(init)) + multiset([w.0, w.1]);
      WidenedCountAdd(multiset(init), x, c);
    }
  }

  /**
   * Widening turns every crate into one left and one right half and
   * doubles every other cell; a warehouse without wide crates widens into
   * one without single crates and with one left half per crate.
   */
  lemma {:induction false} WidenedTally(g: Grid, c: Cell)
    ensures Tally(Widened(g), c) == WidenedTally1(g, c)
    decreases |g|
  {
    if g != [] {
      var init := g[..|g| - 1];
      WidenedTally(init, c);
      assert Widened(g)[..|g| - 1] == Widened(init);
      WidenRowCount(g[|g| - 1], c);
    }
  }

  /** The sum of `WidenedCount` over the lines of `g`. */
  function WidenedTally1(g: Grid, c: Cell): nat
  {
    if g == [] then 0 else WidenedTally1(g[..|g| - 1], c) + WidenedCount(multiset(g[|g| - 1]), c)
  }

  /** The widened warehouse of a first warehouse is one the second part's pushes accept. */
  lemma WidenedIsWide(g: Grid)
    requires Narrow(g)
    ensures Wide(Widened(g))
    ensures Tally(Widened(g), BigCrateLeft) == Tally(g, Crate)
  {
    WidenedTally(g, Crate);
    WidenedTally(g, BigCrateLeft);
    NarrowCounts(g);
    var r := Widened(g);
    forall y | 0 <= y < |r|
      ensures |r[y]| == Util.Width(r)
    {
    }
  }

  lemma {:induction false} NarrowCounts(g: Grid)
    requires Tally(g, BigCrateLeft) == 0
    ensures WidenedTally1(g, Crate) == 0
    ensures WidenedTally1(g, BigCrateLeft) == Tally(g, Crate)
    decreases |g|
  {
    if g != [] {
      NarrowCounts(g[..|g| - 1]);
    }
  }

  /** The robot starts at the left cell of its widened cell, which widens from its old one. */
  lemma WidenedStart(g: Grid, p: Pos)
    requires InGrid(g, p)
    ensures InGrid(Widened(g), (p.0, 2 * p.1))
    ensures At(Widened(g), (p.0, 2 * p.1)) == Widen(At(g, p)).0
    ensures Inside(g, p) ==> Inside(Widened(g), (p.0, 2 * p.1))
  {
  }

  /** Each widened cell comes from the cell at half its column. */
  lemma WidenedAt(g: Grid, q: Pos)
    requires InGrid(Widened(g), q)
    ensures InGrid(g, (q.0, q.1 / 2))
    ensures At(Widened(g), q) == if q.1 % 2 == 0 then Widen(At(g, (q.0, q.1 / 2))).0 else Widen(At(g, (q.0, q.1 / 2))).1
  {
    var j := q.1 / 2;
    assert q.1 == 2 * j || q.1 == 2 * j + 1;
  }

  /** The border of the widened warehouse widens from the border of the first, so its walls stay walls. */
  lemma WidenedWalled(g: Grid)
    requires Walled(g)
    ensures Walled(Widened(g))
  {
    var w := Widened(g);
    forall q | OnBorder(w, q)
      ensures At(w, q) == Wall
    {
      WidenedAt(g, q);
      assert OnBorder(g, (q.0, q.1 / 2));
    }
  }

  /** Builds the widened warehouse line by line and cell by cell. */
  method EnlargeWarehouse(small: Grid) returns (larger: Grid)
    ensures larger == Widened(small)
  {
    larger := [];
    for y := 0 to |small|
      invariant larger == Widened(small[..y])
    {
      var line := small[y];
      var larger_line := [];
      for x := 0 to |line|
        invariant larger_line == WidenRow(line[..x])
      {
        var w := Widen(line[x]);
        larger_line := larger_line + [w.0, w.1];
        assert line[..x + 1][..x] == line[..x];
      }
      assert line[..|line|] == line;
      larger := larger + [larger_line];
      assert small[..y + 1][..y] == small[..y];
    }
    assert small[..|small|] == small;
  }

  // ----------------------------------------------------------------- gps

  /** The GPS sum of one line `y`: 100 times the line plus the column, over cells holding `t`. */
  function RowGps(row: seq<Cell>, y: int, t: Cell): int
  {
    if row == [] then 0
    else RowGps(row[..|row| - 1], y, t) + (if row[|row| - 1] == t then 100 * y + |row| - 1 else 0)
  }

  /** The GPS sum of the warehouse over cells holding `t`. */
  function CalcGps(g: Grid, t: Cell): int
  {
    if g == [] then 0 else CalcGps(g[..|g| - 1], t) + RowGps(g[|g| - 1], |g| - 1, t)
  }

  /** The GPS coordinate of a position. */
  function Coordinate(p: Pos): int
  {
    100 * p.0 + p.1
  }

  lemma {:induction false} RowGpsPut(row: seq<Cell>, y: int, x: int, v: Cell, t: Cell)
    requires 0 <= x < |row|
    ensures RowGps(row[x := v], y, t) + (if row[x] == t then 100 * y + x else 0)
      == RowGps(row, y, t) + (if v == t then 100 * y + x else 0)
    decreases |row|
  {
    var last := |row| - 1;
    if x < last {
      RowGpsPut(row[..last], y, x, v, t);
      assert row[x := v][..last] == row[..last][x := v];
    } else {
      assert row[x := v][..last] == row[..last];
    }
  }

  /** Replacing one cell changes the sum by that cell's coordinate, out and in. */
  lemma GpsPut(g: Grid, p: Pos, v: Cell, t: Cell)
    requires InGrid(g, p)
    ensures CalcGps(Put(g, p, v), t) + (if At(g, p) == t then Coordinate(p) else 0)
      == CalcGps(g, t) + (if v == t then Coordinate(p) else 0)
  {
    GpsUpdate(g, p.0, p.1, v, t);
  }

  /** `GpsPut` on the raw update of line `y`, column `x`, by induction over the lines. */
  lemma {:induction false} GpsUpdate(g: Grid, y: nat, x: nat, v: Cell, t: Cell)
    requires y < |g| && x < |g[y]|
    ensures CalcGps(g[y := g[y][x := v]], t) + (if g[y][x] == t then 100 * y + x else 0)
      == CalcGps(g, t) + (if v == t then 100 * y + x else 0)
    decreases |g|
  {
    var r := g[y := g[y][x := v]];
    var last := |g| - 1;
    if y == last {
      assert r[..last] == g[..last];
      RowGpsPut(g[last], last, x, v, t);
    } else {
      GpsUpdate(g[..last], y, x, v, t);
      assert g[..last][y := g[..last][y][x := v]] == r[..last];
    }
  }

  /** Moving a cell holding `t` from `p` to `n` moves its coordinate in the sum. */
  lemma GpsShift(g: Grid, p: Pos, n: Pos, t: Cell)
    requires InGrid(g, p) && InGrid(g, n) && p != n && At(g, n) == Empty && t != Empty
    ensures CalcGps(Shift(g, p, n), t) == CalcGps(g, t) + (if At(g, p) == t then Coordinate(n) - Coordinate(p) else 0)
  {
    GpsPut(g, n, At(g, p), t);
    GpsPut(Put(g, n, At(g, p)), p, Empty, t);
  }

  /** A warehouse without cells holding `t` sums to 0. */
  lemma {:induction false} GpsNone(g: Grid, t: Cell)
    requires Tally(g, t) == 0
    ensures CalcGps(g, t) == 0
    decreases |g|
  {
    if g != [] {
      GpsNone(g[..|g| - 1], t);
      RowGpsNone(g[|g| - 1], |g| - 1, t);
    }
  }

  lemma {:induction false} RowGpsNone(row: seq<Cell>, y: int, t: Cell)
    requires multiset(row)[t] == 0
    ensures RowGps(row, y, t) == 0
    decreases |row|
  {
    if row != [] {
      assert row == row[..|row| - 1] + [row[|row| - 1]];
      RowGpsNone(row[..|row| - 1], y, t);
    }
  }

  // ------------------------------------------------------------ the class

  /** The warehouse the robot works in, written in place by the pushes. */
  class Warehouse {
    var rows: Grid

    constructor (rows: Grid)
      ensures this.rows == rows
    {
      this.rows := rows;
    }

    /** Writes one cell. */
    method Set(p: Pos, v: Cell)
      requires InGrid(rows, p)
      modifies this
      ensures rows == Put(old(rows), p, v)
    {
      rows := rows[p.0 := rows[p.0][p.1 := v]];
    }

    /** Moves the content of `p` to `n` and empties `p`. */
    method ShiftCell(p: Pos, n: Pos)
      requires InGrid(rows, p) && InGrid(rows, n) && p != n && At(rows, n) == Empty
      modifies this
      ensures rows == Shift(old(rows), p, n)
    {
      Set(n, At(rows, p));
      Set(p, Empty);
    }

    /** Pushes from `p` in direction `d` in the first warehouse. */
    method TryMove(d: Util.Direction, p: Pos) returns (moved: bool)
      requires Util.Rectangular(rows) && Tally(rows, BigCrateLeft) == 0 && Tally(rows, BigCrateRight) == 0
      requires Walled(rows) && Pushable(rows, p, d)
      modifies this
      ensures (moved, rows) == Push(old(rows), d, p)
      decreases Room(rows, p, d)
    {
      ghost var g := rows;
      var n := Step(p, d);
      PushableStep(rows, p, d);
      match rows[n.0][n.1]
      case Empty =>
        ShiftCell(p, n);
        moved := true;
      case Crate =>
        InsidePushable(rows, n, d);
        moved := TryMove(d, n);
        SameShapeBorder(g, rows, p);
        SameShapeBorder(g, rows, n);
        if moved {
          ShiftCell(p, n);
        }
      case Wall =>
        moved := false;
      case BigCrateLeft =>
        TallyAt(rows, n);
        assert false;
      case BigCrateRight =>
        TallyAt(rows, n);
        assert false;
    }

    /** Pushes from `p` in direction `d` in the widened warehouse, writing only when `apply`. */
    method TryMoveLargerCrates(d: Util.Direction, p: Pos, apply: bool) returns (moved: bool)
      requires Util.Rectangular(rows) && Tally(rows, Crate) == 0
      requires Walled(rows) && Pushable(rows, p, d)
      modifies this
      ensures (moved, rows) == PushLarge(old(rows), d, p, apply)
      decreases Room(rows, p, d), 2
    {
      ghost var g := rows;
      var n := Step(p, d);
      PushableStep(rows, p, d);
      var cell := rows[n.0][n.1];
      if cell == Crate {
        TallyAt(rows, n);
        assert false;
      } else if cell == BigCrateLeft || cell == BigCrateRight {
        PushLargeIntoHalf(g, d, p, apply);
        moved := TryHalves(d, p, n, OtherHalf(n, cell), apply);
      } else if cell == Empty {
        if apply {
          ShiftCell(p, n);
        }
        moved := true;
        assert PushLarge(g, d, p, apply) == (true, if apply then Shift(g, p, n) else g);
      } else {
        moved := false;
        assert PushLarge(g, d, p, apply) == (false, g);
      }
    }

    /** Pushes into one half `n` of a crate whose other half is `m`. */
    method TryHalves(d: Util.Direction, p: Pos, n: Pos, m: Pos, apply: bool) returns (moved: bool)
      requires Util.Rectangular(rows) && Tally(rows, Crate) == 0
      requires Walled(rows) && Pushable(rows, p, d) && n == Step(p, d) && InGrid(rows, n) && At(rows, n) != Wall && Beside(n, m)
      modifies this
      ensures (moved, rows) == PushHalves(old(rows), d, p, n, m, apply)
      decreases Room(rows, p, d), 1
    {
      ghost var g := rows;
      if Util.IsVertical(d) {
        BothInSequence(g, d, p, n, m, apply);
      } else {
        SidewaysInSequence(g, d, p, n, m, apply);
      }
      var a := TryMoveLargerCrates(d, n, apply);
      if Util.IsVertical(d) {
        var b := TryMoveLargerCrates(d, m, apply);
        moved := a && b;
      } else {
        moved := a;
      }
      if moved && apply {
        ShiftCell(p, n);
      }
    }

    /** The first part's moves: each direction pushed, the robot stepping when the push succeeds. */
    method MoveAll(start: Pos, dirs: seq<Util.Direction>) returns (position: Pos)
      requires Narrow(rows) && Walled(rows) && Inside(rows, start)
      modifies this
      ensures (rows, position) == Walk(old(rows), start, dirs)
    {
      ghost var g := rows;
      position := start;
      for i := 0 to |dirs|
        invariant (rows, position) == Walk(g, start, dirs[..i])
      {
        assert dirs[..i + 1][..i] == dirs[..i];
        var dir := dirs[i];
        var moved := TryMove(dir, position);
        if moved {
          position := Step(position, dir);
        }
      }
      assert dirs[..|dirs|] == dirs;
    }

    /** The second part's moves: a dry run, then, if it succeeds, the push applied and the step. */
    method MoveAllLarger(start: Pos, dirs: seq<Util.Direction>) returns (position: Pos)
      requires Wide(rows) && Walled(rows) && Inside(rows, start)
      modifies this
      ensures (rows, position) == WalkLarge(old(rows), start, dirs)
    {
      ghost var g := rows;
      position := start;
      for i := 0 to |dirs|
        invariant (rows, position) == WalkLarge(g, start, dirs[..i])
      {
        assert dirs[..i + 1][..i] == dirs[..i];
        var dir := dirs[i];
        var can := TryMoveLargerCrates(dir, position, false);
        if can {
          var _ := TryMoveLargerCrates(dir, position, true);
          position := Step(position, dir);
        }
      }
      assert dirs[..|dirs|] == dirs;
    }
  }
}
