/**
 * Day 10: a topographic map of digit heights. A trail climbs one unit per
 * orthogonal step from a 0 to a 9. A trail head's score is the number of
 * distinct 9s it reaches; its rating is the number of distinct trails.
 */
module Day10 {
  import opened Wrappers
  import opened Arith
  import Util
  import Sets

  type Coord = Util.Coord
  type TopoMap = seq<seq<nat>>

  /** Every height is a single digit, as parsing guarantees. */
  predicate Digits(map_: TopoMap)
  {
    forall y, x :: 0 <= y < |map_| && 0 <= x < |map_[y]| ==> map_[y][x] <= 9
  }

  function Height(map_: TopoMap, c: Coord): nat
    requires Util.InBounds(map_, c)
  {
    map_[c.y][c.x]
  }

  // ---------------------------------------------------------- trail heads

  /** The height-0 cells of `row` (row `y`) from column `x` on. */
  function HeadsInRow(row: seq<nat>, y: nat, x: nat): (r: seq<Coord>)
    requires x <= |row|
    ensures forall c :: c in r <==> c.y == y && x <= c.x < |row| && row[c.x] == 0
    ensures forall i, j :: 0 <= i < j < |r| ==> r[i].y == r[j].y && r[i].x < r[j].x
    decreases |row| - x
  {
    if x == |row| then []
    else (if row[x] == 0 then [Util.Coord(x, y)] else []) + HeadsInRow(row, y, x + 1)
  }

  /** The height-0 cells of the rows from `y` on, in reading order. */
  function HeadsFrom(map_: TopoMap, y: nat): (r: seq<Coord>)
    requires y <= |map_|
    ensures forall c :: c in r <==> y <= c.y && Util.Get(map_, c) == Some(0)
    ensures forall i, j :: 0 <= i < j < |r| ==> r[i].y < r[j].y || (r[i].y == r[j].y && r[i].x < r[j].x)
    decreases |map_| - y
  {
    if y == |map_| then []
    else
      var here := HeadsInRow(map_[y], y, 0);
      var rest := HeadsFrom(map_, y + 1);
      assert forall c :: c in here ==> c.y == y;
      assert forall c :: c in rest ==> c.y > y;
      here + rest
  }

  /** The trail heads: exactly the cells of height 0, in reading order and without repeats. */
  function FindTrailHeads(map_: TopoMap): (r: seq<Coord>)
    ensures forall c :: c in r <==> Util.Get(map_, c) == Some(0)
    ensures forall i, j :: 0 <= i < j < |r| ==> r[i] != r[j]
  {
    HeadsFrom(map_, 0)
  }

  // ----------------------------------------------------------- climbing

  /** The four neighbours in the order the score search tries them: up, left, down, right. */
  function Nexts(c: Coord): seq<Coord>
  {
    [Util.Coord(c.x, c.y - 1), Util.Coord(c.x - 1, c.y), Util.Coord(c.x, c.y + 1), Util.Coord(c.x + 1, c.y)]
  }

  /** `n` is one step up from `c`: a neighbour on the map exactly one unit higher. */
  predicate Uphill(map_: TopoMap, c: Coord, n: Coord)
  {
    Util.InBounds(map_, c) && n in Nexts(c) && Util.Get(map_, n) == Some(Height(map_, c) + 1)
  }

  /** The cells on trails from `c`, up to and including the 9s; a trail stops at 9. */
  ghost function ReachSet(map_: TopoMap, c: Coord): set<Coord>
    requires Digits(map_) && Util.InBounds(map_, c)
    decreases 9 - Height(map_, c), 1
  {
    if Height(map_, c) >= 9 then {c}
    else
      var ns := Nexts(c);
      {c} + Branch(map_, c, ns[0]) + Branch(map_, c, ns[1]) + Branch(map_, c, ns[2]) + Branch(map_, c, ns[3])
  }

  ghost function Branch(map_: TopoMap, c: Coord, n: Coord): set<Coord>
    requires Digits(map_) && Util.InBounds(map_, c) && Height(map_, c) < 9
    decreases 9 - Height(map_, c), 0
  {
    if Uphill(map_, c, n) then ReachSet(map_, n) else {}
  }

  /** The 9s among `s`. */
  ghost function Nines(map_: TopoMap, s: set<Coord>): set<Coord>
  {
    set c | c in s && Util.Get(map_, c) == Some(9)
  }

  /** The trail cells of an uphill neighbour are trail cells. */
  lemma ReachStep(map_: TopoMap, c: Coord, n: Coord)
    requires Digits(map_) && Util.InBounds(map_, c) && Height(map_, c) < 9 && Uphill(map_, c, n)
    ensures ReachSet(map_, n) <= ReachSet(map_, c)
  {
  }

  /** Trail cells of trail cells are trail cells. */
  lemma {:induction false} ReachTrans(map_: TopoMap, a: Coord, c: Coord)
    requires Digits(map_) && Util.InBounds(map_, a) && c in ReachSet(map_, a)
    ensures Util.InBounds(map_, c) && ReachSet(map_, c) <= ReachSet(map_, a)
    decreases 9 - Height(map_, a)
  {
    if c != a {
      var i :| 0 <= i < 4 && c in Branch(map_, a, Nexts(a)[i]);
      var n := Nexts(a)[i];
      ReachTrans(map_, n, c);
      ReachStep(map_, a, n);
    }
  }

  /** A set that holds `c` and is closed under climbing holds every trail cell from `c`. */
  lemma {:induction false} ClosedHoldsReach(map_: TopoMap, vis: set<Coord>, c: Coord)
    requires Digits(map_) && Util.InBounds(map_, c) && c in vis
    requires forall a, n :: a in vis && Util.InBounds(map_, a) && Height(map_, a) < 9 && Uphill(map_, a, n) ==> n in vis
    ensures ReachSet(map_, c) <= vis
    decreases 9 - Height(map_, c)
  {
    if Height(map_, c) < 9 {
      forall i | 0 <= i < 4 && Uphill(map_, c, Nexts(c)[i])
        ensures ReachSet(map_, Nexts(c)[i]) <= vis
      {
        ClosedHoldsReach(map_, vis, Nexts(c)[i]);
      }
    }
  }

  // --------------------------------------------------------------- score

  /**
   * Depth-first search with a visited set: counts the 9s reachable from
   * `start`, each once. Reading the start's height panics the source when
   * the start is off the map.
   */
  method TrailHeadScore(map_: TopoMap, start: Coord) returns (score: nat)
    requires Digits(map_) && Util.InBounds(map_, start)
    ensures score == |Nines(map_, ReachSet(map_, start))|
  {
    score := 0;
    var stack := [start];
    var visited: set<Coord> := {};
    ghost var all := ReachSet(map_, start);
    while |stack| > 0
      invariant Searching(map_, start, all, visited, stack, score)
      decreases |all - visited|, |stack|
    {
      var c := stack[|stack| - 1];
      ghost var popped := stack;
      stack := stack[..|stack| - 1];
      Popped(map_, start, all, visited, popped, score);
      if c in visited {
        SkipVisited(map_, start, all, visited, popped, score);
        continue;
      }
      Sets.VisitShrinks(all, visited, c);
      ghost var before := visited;
      visited := visited + {c};
      var curr := map_[c.y][c.x];
      if curr == 9 {
        CountNine(map_, start, all, before, popped, score);
        score := score + 1;
        continue;
      }
      stack := PushUphill(map_, c, stack);
      Climb(map_, start, all, before, popped, score, stack);
    }
    ClosedHoldsReach(map_, visited, start);
    assert visited == all;
  }

  /** The invariant of the score search: the stack and `vis` hold cells of `all`, `start` is among them, every climb out of `vis` is covered, and `score` counts the 9s in `vis`. */
  ghost predicate Searching(map_: TopoMap, start: Coord, all: set<Coord>, vis: set<Coord>, stack: seq<Coord>, score: nat)
  {
    (forall c :: c in stack ==> Util.InBounds(map_, c) && c in all) &&
    vis <= all &&
    (start in vis || start in stack) &&
    ClosedBut(map_, vis, stack) &&
    score == |Nines(map_, vis)|
  }

  /** The cell popped off the stack is a trail cell on the map. */
  lemma Popped(map_: TopoMap, start: Coord, all: set<Coord>, vis: set<Coord>, popped: seq<Coord>, score: nat)
    requires Searching(map_, start, all, vis, popped, score) && |popped| > 0
    ensures Util.InBounds(map_, popped[|popped| - 1]) && popped[|popped| - 1] in all
  {
  }

  /** Dropping an already visited cell keeps the invariant. */
  lemma SkipVisited(map_: TopoMap, start: Coord, all: set<Coord>, vis: set<Coord>, popped: seq<Coord>, score: nat)
    requires Searching(map_, start, all, vis, popped, score) && |popped| > 0 && popped[|popped| - 1] in vis
    ensures Searching(map_, start, all, vis, popped[..|popped| - 1], score)
  {
    var c := popped[|popped| - 1];
    var stack := popped[..|popped| - 1];
    assert forall d :: d in popped ==> d == c || d in stack;
    ClosedStep(map_, vis, popped, c, stack);
    assert vis + {c} == vis;
  }

  /** Visiting a new 9 adds one to the count. */
  lemma CountNine(map_: TopoMap, start: Coord, all: set<Coord>, vis: set<Coord>, popped: seq<Coord>, score: nat)
    requires Searching(map_, start, all, vis, popped, score) && |popped| > 0
    requires popped[|popped| - 1] !in vis && Util.Get(map_, popped[|popped| - 1]) == Some(9)
    ensures Searching(map_, start, all, vis + {popped[|popped| - 1]}, popped[..|popped| - 1], score + 1)
  {
    var c := popped[|popped| - 1];
    var stack := popped[..|popped| - 1];
    assert forall d :: d in popped ==> d == c || d in stack;
    assert Nines(map_, vis + {c}) == Nines(map_, vis) + {c};
    ClosedStep(map_, vis, popped, c, stack);
  }

  /** Visiting a new cell below 9 and pushing its climbs keeps the invariant. */
  lemma Climb(map_: TopoMap, start: Coord, all: set<Coord>, vis: set<Coord>, popped: seq<Coord>, score: nat, stack: seq<Coord>)
    requires Digits(map_) && Util.InBounds(map_, start) && all == ReachSet(map_, start)
    requires Searching(map_, start, all, vis, popped, score) && |popped| > 0
    requires var c := popped[|popped| - 1];
      c !in vis && Util.InBounds(map_, c) && Height(map_, c) != 9 &&
      |popped| - 1 <= |stack| && stack[..|popped| - 1] == popped[..|popped| - 1] &&
      (forall d :: d in stack ==> d in popped[..|popped| - 1] || Uphill(map_, c, d)) &&
      (forall i :: 0 <= i < 4 && Uphill(map_, c, Nexts(c)[i]) ==> Nexts(c)[i] in stack)
    ensures Searching(map_, start, all, vis + {popped[|popped| - 1]}, stack, score)
  {
    var c := popped[|popped| - 1];
    var rest := popped[..|popped| - 1];
    assert forall d :: d in popped ==> d == c || d in rest;
    assert Nines(map_, vis + {c}) == Nines(map_, vis);
    assert forall d :: d in rest ==> d in stack by {
      assert forall k :: 0 <= k < |rest| ==> stack[k] == rest[k];
    }
    ClosedStep(map_, vis, popped, c, stack);
    ClimbsInReach(map_, start, c, rest, stack);
  }

  /** The climbs out of a trail cell `c` are trail cells. */
  lemma ClimbsInReach(map_: TopoMap, start: Coord, c: Coord, rest: seq<Coord>, stack: seq<Coord>)
    requires Digits(map_) && Util.InBounds(map_, start) && c in ReachSet(map_, start)
    requires Util.InBounds(map_, c) && Height(map_, c) < 9
    requires forall d :: d in rest ==> Util.InBounds(map_, d) && d in ReachSet(map_, start)
    requires forall d :: d in stack ==> d in rest || Uphill(map_, c, d)
    ensures forall d :: d in stack ==> Util.InBounds(map_, d) && d in ReachSet(map_, start)
  {
    ReachTrans(map_, start, c);
    forall d | d in stack
      ensures Util.InBounds(map_, d) && d in ReachSet(map_, start)
    {
      if d !in rest {
        ReachStep(map_, c, d);
      }
    }
  }

  /** Every climb out of a visited cell below 9 lands in `vis` or is still on the stack. */
  ghost predicate ClosedBut(map_: TopoMap, vis: set<Coord>, stack: seq<Coord>)
  {
    forall a, n :: a in vis && Util.InBounds(map_, a) && Height(map_, a) < 9 && Uphill(map_, a, n) ==> n in vis || n in stack
  }

  /** One pop of the score search keeps `ClosedBut`, whether `c` was already visited, a 9, or had its climbs pushed. */
  lemma ClosedStep(map_: TopoMap, vis: set<Coord>, popped: seq<Coord>, c: Coord, after: seq<Coord>)
    requires ClosedBut(map_, vis, popped)
    requires forall d :: d in popped ==> d == c || d in after
    requires c in vis || !Util.InBounds(map_, c) || Height(map_, c) >= 9 || forall i :: 0 <= i < 4 && Uphill(map_, c, Nexts(c)[i]) ==> Nexts(c)[i] in after
    ensures ClosedBut(map_, vis + {c}, after)
  {
  }

  /**
   * The neighbour loop of the score search: pushes, in order, each of the
   * four neighbours that is on the map and one unit higher than `c`.
   */
  method PushUphill(map_: TopoMap, c: Coord, stack: seq<Coord>) returns (r: seq<Coord>)
    requires Util.InBounds(map_, c)
    ensures |stack| <= |r| && r[..|stack|] == stack
    ensures forall d :: d in r ==> d in stack || Uphill(map_, c, d)
    ensures forall i :: 0 <= i < 4 && Uphill(map_, c, Nexts(c)[i]) ==> Nexts(c)[i] in r
  {
    r := stack;
    var curr := map_[c.y][c.x];
    var nexts := Nexts(c);
    for k := 0 to 4
      invariant |stack| <= |r| && r[..|stack|] == stack
      invariant forall d :: d in r ==> d in stack || Uphill(map_, c, d)
      invariant forall i :: 0 <= i < k && Uphill(map_, c, nexts[i]) ==> nexts[i] in r
    {
      var next := nexts[k];
      var v := Util.Get(map_, next);
      if v.Some? && v.value == curr + 1 {
        r := r + [next];
      }
    }
  }

  // -------------------------------------------------------------- rating

  /** The number of distinct trails from `c` to a 9. */
  ghost function Paths(map_: TopoMap, c: Coord): nat
    requires Digits(map_) && Util.InBounds(map_, c)
    decreases 9 - Height(map_, c), 1
  {
    if Height(map_, c) >= 9 then 1
    else
      var ns := Nexts(c);
      PathsVia(map_, c, ns[0]) + PathsVia(map_, c, ns[1]) + PathsVia(map_, c, ns[2]) + PathsVia(map_, c, ns[3])
  }

  ghost function PathsVia(map_: TopoMap, c: Coord, n: Coord): nat
    requires Digits(map_) && Util.InBounds(map_, c) && Height(map_, c) < 9
    decreases 9 - Height(map_, c), 0
  {
    if Uphill(map_, c, n) then Paths(map_, n) else 0
  }

  /** Every reachable 9 ends at least one trail, so the rating is at least the score. */
  lemma {:induction false} RatingAtLeastScore(map_: TopoMap, c: Coord)
    requires Digits(map_) && Util.InBounds(map_, c)
    ensures |Nines(map_, ReachSet(map_, c))| <= Paths(map_, c)
    decreases 9 - Height(map_, c), 1
  {
    if Height(map_, c) < 9 {
      var ns := Nexts(c);
      var n0 := NinesBranch(map_, c, ns[0]);
      var n1 := NinesBranch(map_, c, ns[1]);
      var n2 := NinesBranch(map_, c, ns[2]);
      var n3 := NinesBranch(map_, c, ns[3]);
      NinesSplit(map_, c);
      UnionSize(n0, n1);
      UnionSize(n0 + n1, n2);
      UnionSize(n0 + n1 + n2, n3);
      assert Paths(map_, c) == PathsVia(map_, c, ns[0]) + PathsVia(map_, c, ns[1]) + PathsVia(map_, c, ns[2]) + PathsVia(map_, c, ns[3]);
    } else {
      AtTop(map_, c);
    }
  }

  /** Below 9, the reachable 9s are those reachable through the four neighbours. */
  lemma NinesSplit(map_: TopoMap, c: Coord)
    requires Digits(map_) && Util.InBounds(map_, c) && Height(map_, c) < 9
    ensures var ns := Nexts(c);
      Nines(map_, ReachSet(map_, c)) == Nines(map_, Branch(map_, c, ns[0])) + Nines(map_, Branch(map_, c, ns[1]))
        + Nines(map_, Branch(map_, c, ns[2])) + Nines(map_, Branch(map_, c, ns[3]))
  {
    var ns := Nexts(c);
    var b0, b1, b2, b3 := Branch(map_, c, ns[0]), Branch(map_, c, ns[1]), Branch(map_, c, ns[2]), Branch(map_, c, ns[3]);
    assert ReachSet(map_, c) == {c} + b0 + b1 + b2 + b3;
    assert Nines(map_, {c}) == {};
    NinesUnion(map_, {c}, b0);
    NinesUnion(map_, {c} + b0, b1);
    NinesUnion(map_, {c} + b0 + b1, b2);
    NinesUnion(map_, {c} + b0 + b1 + b2, b3);
  }

  /** The 9s of a union are the 9s of each part. */
  lemma NinesUnion(map_: TopoMap, a: set<Coord>, b: set<Coord>)
    ensures Nines(map_, a + b) == Nines(map_, a) + Nines(map_, b)
  {
  }

  /** A cell at height 9 ends exactly one trail and reaches at most itself. */
  lemma AtTop(map_: TopoMap, c: Coord)
    requires Digits(map_) && Util.InBounds(map_, c) && Height(map_, c) >= 9
    ensures |Nines(map_, ReachSet(map_, c))| <= 1 == Paths(map_, c)
  {
    var top := Nines(map_, ReachSet(map_, c));
    assert top <= {c};
    if c in top {
      assert top == {c};
    } else {
      assert top == {};
    }
  }

  /** The 9s reachable through one neighbour number at most the trails through it. */
  lemma {:induction false} NinesBranch(map_: TopoMap, c: Coord, n: Coord) returns (ns: set<Coord>)
    requires Digits(map_) && Util.InBounds(map_, c) && Height(map_, c) < 9
    ensures ns == Nines(map_, Branch(map_, c, n)) && |ns| <= PathsVia(map_, c, n)
    decreases 9 - Height(map_, c), 0
  {
    ns := Nines(map_, Branch(map_, c, n));
    if Uphill(map_, c, n) {
      RatingAtLeastScore(map_, n);
    }
  }

  lemma UnionSize<T>(a: set<T>, b: set<T>)
    ensures |a + b| <= |a| + |b|
  {
    assert |a + b| == |a| + |b| - |a * b|;
  }

  /** Sum of the trail counts of the cells of `stack`. */
  ghost function SumPaths(map_: TopoMap, stack: seq<Coord>): nat
    requires Digits(map_) && forall c :: c in stack ==> Util.InBounds(map_, c)
  {
    if stack == [] then 0 else SumPaths(map_, stack[..|stack| - 1]) + Paths(map_, stack[|stack| - 1])
  }

  /** Bound on the work left below a cell: a cell at height `h` pushes at most four cells of height `h + 1`. */
  function Weight(map_: TopoMap, c: Coord): nat
    requires Digits(map_) && Util.InBounds(map_, c)
  {
    PowNonNegative(5, 9 - Height(map_, c));
    Pow(5, 9 - Height(map_, c))
  }

  function SumWeight(map_: TopoMap, stack: seq<Coord>): nat
    requires Digits(map_) && forall c :: c in stack ==> Util.InBounds(map_, c)
  {
    if stack == [] then 0 else SumWeight(map_, stack[..|stack| - 1]) + Weight(map_, stack[|stack| - 1])
  }

  /**
   * Depth-first search without a visited set: every trail to a 9 is
   * followed separately, so the count is the number of trails. The
   * neighbour tests read rows above and below at the same column, which
   * panics the source on a ragged map.
   */
  method TrailHeadRating(map_: TopoMap, start: Coord) returns (score: nat)
    requires Digits(map_) && Util.Rectangular(map_) && Util.InBounds(map_, start)
    ensures score == Paths(map_, start)
  {
    score := 0;
    var stack := [start];
    while |stack| > 0
      invariant forall c :: c in stack ==> Util.InBounds(map_, c)
      invariant score + SumPaths(map_, stack) == Paths(map_, start)
      decreases SumWeight(map_, stack)
    {
      var c := stack[|stack| - 1];
      PopTrail(map_, stack);
      stack := stack[..|stack| - 1];
      var curr := map_[c.y][c.x];
      if curr == 9 {
        score := score + 1;
        continue;
      }
      ClimbsWeighLess(map_, c);
      stack := PushClimbs(map_, c, stack);
    }
  }

  /** Popping the top of the rating stack takes off its trails and its weight. */
  lemma PopTrail(map_: TopoMap, stack: seq<Coord>)
    requires Digits(map_) && |stack| > 0 && forall c :: c in stack ==> Util.InBounds(map_, c)
    ensures var rest, c := stack[..|stack| - 1], stack[|stack| - 1];
      && Util.InBounds(map_, c) && (forall d :: d in rest ==> Util.InBounds(map_, d))
      && SumPaths(map_, stack) == SumPaths(map_, rest) + Paths(map_, c)
      && SumWeight(map_, stack) == SumWeight(map_, rest) + Weight(map_, c)
  {
    var rest := stack[..|stack| - 1];
    assert forall d :: d in rest ==> d in stack;
    assert stack[|stack| - 1] in stack;
  }

  /** The climbs out of `c` weigh less than `c`: four cells one level up against five. */
  lemma ClimbsWeighLess(map_: TopoMap, c: Coord)
    requires Digits(map_) && Util.InBounds(map_, c) && Height(map_, c) < 9
    ensures 4 * Pow(5, 8 - Height(map_, c)) < Weight(map_, c)
  {
    PowPositive(5, 8 - Height(map_, c));
    assert Weight(map_, c) == 5 * Pow(5, 8 - Height(map_, c));
  }

  /**
   * The four neighbour tests of the rating search: up, left, down, right,
   * each pushed when on the map and one unit higher than `c`.
   */
  method PushClimbs(map_: TopoMap, c: Coord, stack: seq<Coord>) returns (r: seq<Coord>)
    requires Digits(map_) && Util.Rectangular(map_) && Util.InBounds(map_, c) && Height(map_, c) < 9
    requires forall d :: d in stack ==> Util.InBounds(map_, d)
    ensures forall d :: d in r ==> Util.InBounds(map_, d)
    ensures SumPaths(map_, r) == SumPaths(map_, stack) + Paths(map_, c)
    ensures SumWeight(map_, r) <= SumWeight(map_, stack) + 4 * Pow(5, 8 - Height(map_, c))
  {
    var x, y := c.x, c.y;
    var curr := map_[y][x];
    var ns := Nexts(c);
    UphillCases(map_, c);
    r := stack;
    if y > 0 && map_[y - 1][x] == curr + 1 {
      r := r + [ns[0]];
    }
    PushStep(map_, c, ns[0], stack, r);
    var r0 := r;
    if x > 0 && map_[y][x - 1] == curr + 1 {
      r := r + [ns[1]];
    }
    PushStep(map_, c, ns[1], r0, r);
    var r1 := r;
    if y + 1 < |map_| && map_[y + 1][x] == curr + 1 {
      r := r + [ns[2]];
    }
    PushStep(map_, c, ns[2], r1, r);
    var r2 := r;
    if x + 1 < |map_[y]| && map_[y][x + 1] == curr + 1 {
      r := r + [ns[3]];
    }
    PushStep(map_, c, ns[3], r2, r);
  }

  /** On a rectangular map the rating search's bare index tests are exactly the four climbs. */
  lemma UphillCases(map_: TopoMap, c: Coord)
    requires Util.Rectangular(map_) && Util.InBounds(map_, c)
    ensures Uphill(map_, c, Nexts(c)[0]) <==> c.y > 0 && map_[c.y - 1][c.x] == Height(map_, c) + 1
    ensures Uphill(map_, c, Nexts(c)[1]) <==> c.x > 0 && map_[c.y][c.x - 1] == Height(map_, c) + 1
    ensures Uphill(map_, c, Nexts(c)[2]) <==> c.y + 1 < |map_| && map_[c.y + 1][c.x] == Height(map_, c) + 1
    ensures Uphill(map_, c, Nexts(c)[3]) <==> c.x + 1 < |map_[c.y]| && map_[c.y][c.x + 1] == Height(map_, c) + 1
  {
    if c.y > 0 {
      assert |map_[c.y - 1]| == |map_[c.y]|;
    }
    if c.y + 1 < |map_| {
      assert |map_[c.y + 1]| == |map_[c.y]|;
    }
  }

  /**
   * One conditional push of the rating search: the stack grows by `n`
   * exactly when `n` is one step up, so the trail count and the weight
   * grow by `n`'s share.
   */
  lemma PushStep(map_: TopoMap, c: Coord, n: Coord, before: seq<Coord>, after: seq<Coord>)
    requires Digits(map_) && Util.Rectangular(map_) && Util.InBounds(map_, c) && Height(map_, c) < 9 && n in Nexts(c)
    requires forall d :: d in before ==> Util.InBounds(map_, d)
    requires after == (if Uphill(map_, c, n) then before + [n] else before)
    ensures forall d :: d in after ==> Util.InBounds(map_, d)
    ensures SumPaths(map_, after) == SumPaths(map_, before) + PathsVia(map_, c, n)
    ensures SumWeight(map_, after) <= SumWeight(map_, before) + Pow(5, 8 - Height(map_, c))
  {
    PowNonNegative(5, 8 - Height(map_, c));
    if Uphill(map_, c, n) {
      assert after[..|after| - 1] == before;
      assert Height(map_, n) == Height(map_, c) + 1;
      assert Weight(map_, n) == Pow(5, 8 - Height(map_, c));
    }
  }
}
