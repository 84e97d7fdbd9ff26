/**
 * Day 6: a guard walks a lab grid, turning right in front of an obstacle
 * and otherwise stepping forward, until it walks off the grid. Part 1
 * counts the cells it visits; part 2 counts the cells of its path where
 * one added obstacle traps it in a loop.
 */
module Day06 {
  import opened Wrappers
  import Util
  import Sets

  datatype Slot = Empty | Obstacle

  type Coord = Util.Coord
  /** A direction `(dx, dy)`, `y` growing downwards. */
  type Direction = (int, int)

  /** Where the guard stands and which way it faces. */
  datatype State = State(loc: Coord, dir: Direction)

  // ------------------------------------------------------------ turning

  /** A quarter turn clockwise (with `y` pointing down). */
  function RotateDirection(d: Direction): (r: Direction)
    ensures r.0 * r.0 + r.1 * r.1 == d.0 * d.0 + d.1 * d.1
  {
    (-1 * d.1, d.0)
  }

  /** Up turns to right, and four quarter turns bring any direction back. */
  lemma RotateProperties(d: Direction)
    ensures RotateDirection((0, -1)) == (1, 0)
    ensures RotateDirection(RotateDirection(RotateDirection(RotateDirection(d)))) == d
    ensures d != (0, 0) ==> RotateDirection(d) != d
  {
  }

  /** The directions reachable from `d` by quarter turns. */
  function Orbit(d: Direction): (r: set<Direction>)
    ensures d in r && RotateDirection(d) in r
  {
    {d, RotateDirection(d), RotateDirection(RotateDirection(d)), RotateDirection(RotateDirection(RotateDirection(d)))}
  }

  lemma OrbitClosed(d: Direction, e: Direction)
    requires e in Orbit(d)
    ensures RotateDirection(e) in Orbit(d)
  {
    RotateProperties(d);
  }

  // ---------------------------------------------------------- one step

  /** `c` names a cell of the grid; rows may have different lengths. */
  predicate OnMap(grid: seq<seq<Slot>>, c: Coord)
  {
    0 <= c.y < |grid| && 0 <= c.x < |grid[c.y]|
  }

  /** The cell the guard faces. */
  function Ahead(s: State): Coord
  {
    Util.Coord(s.loc.x + s.dir.0, s.loc.y + s.dir.1)
  }

  /**
   * One move of the guard: `None` when the faced cell is off the grid;
   * otherwise a turn in place before an obstacle, or a step onto the
   * faced empty cell.
   */
  function Advance(grid: seq<seq<Slot>>, s: State): (r: Option<State>)
    ensures r.None? <==> !OnMap(grid, Ahead(s))
    ensures r.Some? && grid[Ahead(s).y][Ahead(s).x] == Obstacle ==> r.value == State(s.loc, RotateDirection(s.dir))
    ensures r.Some? && grid[Ahead(s).y][Ahead(s).x] == Empty ==> r.value == State(Ahead(s), s.dir)
  {
    var yNext := s.loc.y + s.dir.1;
    if yNext < 0 || yNext >= |grid| then None
    else
      var xNext := s.loc.x + s.dir.0;
      if xNext < 0 || xNext >= |grid[yNext]| then None
      else match grid[yNext][xNext]
        case Obstacle => Some(State(s.loc, RotateDirection(s.dir)))
        case Empty => Some(State(Util.Coord(xNext, yNext), s.dir))
  }

  /** The state after `n` moves from `s`, or `None` once the guard has left. */
  function Walk(grid: seq<seq<Slot>>, s: State, n: nat): Option<State>
    decreases n
  {
    if n == 0 then Some(s)
    else match Advance(grid, s)
      case None => None
      case Some(t) => Walk(grid, t, n - 1)
  }

  lemma {:induction false} WalkStep(grid: seq<seq<Slot>>, s: State, n: nat)
    ensures Walk(grid, s, n + 1) == match Walk(grid, s, n) case None => None case Some(t) => Advance(grid, t)
    decreases n
  {
    if n > 0 {
      match Advance(grid, s)
      case None =>
      case Some(t) => WalkStep(grid, t, n - 1);
    }
  }

  /** Once the guard has left it stays gone. */
  lemma {:induction false} WalkGone(grid: seq<seq<Slot>>, s: State, n: nat, m: nat)
    requires n <= m && Walk(grid, s, n).None?
    ensures Walk(grid, s, m).None?
  {
    if n < m {
      WalkGone(grid, s, n, m - 1);
      WalkStep(grid, s, m - 1);
    }
  }

  /** After `n` moves the guard is still on the grid and its next move leaves it. */
  ghost predicate ExitsAfter(grid: seq<seq<Slot>>, s: State, n: nat)
  {
    Walk(grid, s, n).Some? && Advance(grid, Walk(grid, s, n).value).None?
  }

  /** The cells the guard stands on during its first `n` moves. */
  ghost function VisitedUpTo(grid: seq<seq<Slot>>, s: State, n: nat): set<Coord>
  {
    set i | 0 <= i <= n && Walk(grid, s, i).Some? :: Walk(grid, s, i).value.loc
  }

  /** The guard stands only on its start and on empty cells of the grid, and never changes its direction's orbit. */
  lemma {:induction false} WalkStaysOnMap(grid: seq<seq<Slot>>, s: State, n: nat)
    requires Walk(grid, s, n).Some?
    ensures var t := Walk(grid, s, n).value;
      (t.loc == s.loc || (OnMap(grid, t.loc) && grid[t.loc.y][t.loc.x] == Empty)) && t.dir in Orbit(s.dir)
  {
    if n > 0 {
      WalkStep(grid, s, n - 1);
      WalkStaysOnMap(grid, s, n - 1);
      OrbitClosed(s.dir, Walk(grid, s, n - 1).value.dir);
    }
  }

  // ------------------------------------------------------------ part 1

  /**
   * The cells the guard visits before walking off the grid. The walk may
   * never end, so it is bounded by `fuel` moves; `None` means the guard
   * was still on the grid when the fuel ran out.
   */
  method TracePath(grid: seq<seq<Slot>>, guardLoc: Coord, direction: Direction, fuel: nat) returns (visited: Option<set<Coord>>)
    ensures visited.Some? ==> exists n :: 0 <= n < fuel && ExitsAfter(grid, State(guardLoc, direction), n) && visited.value == VisitedUpTo(grid, State(guardLoc, direction), n)
    ensures visited.None? ==> forall n :: 1 <= n <= fuel ==> Walk(grid, State(guardLoc, direction), n).Some?
  {
    ghost var s0 := State(guardLoc, direction);
    var loc, dir := guardLoc, direction;
    var seen: set<Coord> := {};
    var k := 0;
    while k < fuel
      invariant k <= fuel
      invariant Walk(grid, s0, k) == Some(State(loc, dir))
      invariant k > 0 ==> seen == VisitedUpTo(grid, s0, k - 1)
      invariant k == 0 ==> seen == {}
      invariant forall n :: 0 <= n <= k ==> Walk(grid, s0, n).Some?
    {
      assert VisitedUpTo(grid, s0, k) == seen + {loc} by {
        if k > 0 {
          assert forall c :: c in VisitedUpTo(grid, s0, k) <==> c in VisitedUpTo(grid, s0, k - 1) || c == loc;
        }
      }
      seen := seen + {loc};
      WalkStep(grid, s0, k);
      var next := Advance(grid, State(loc, dir));
      if next.None? {
        return Some(seen);
      }
      loc, dir := next.value.loc, next.value.dir;
      k := k + 1;
    }
    return None;
  }

  /** Part 1's visited set holds the start and otherwise only empty cells of the grid. */
  lemma VisitedCells(grid: seq<seq<Slot>>, s: State, n: nat)
    ensures s.loc in VisitedUpTo(grid, s, n)
    ensures forall c :: c in VisitedUpTo(grid, s, n) ==> c == s.loc || (OnMap(grid, c) && grid[c.y][c.x] == Empty)
  {
    assert Walk(grid, s, 0) == Some(s);
    forall c | c in VisitedUpTo(grid, s, n) ensures c == s.loc || (OnMap(grid, c) && grid[c.y][c.x] == Empty) {
      var i :| 0 <= i <= n && Walk(grid, s, i).Some? && Walk(grid, s, i).value.loc == c;
      WalkStaysOnMap(grid, s, i);
    }
  }

  // ------------------------------------------------------------ part 2

  /** The guard returns to a state it was in before: it walks in a loop forever. */
  ghost predicate Loops(grid: seq<seq<Slot>>, s: State)
  {
    exists i, j :: 0 <= i < j && Walk(grid, s, i).Some? && Walk(grid, s, i) == Walk(grid, s, j)
  }

  /** Every state the guard can be in: its start or a grid cell, facing a direction of its orbit. */
  function StateSpace(grid: seq<seq<Slot>>, s: State): set<State>
  {
    var cells := set y, x | 0 <= y < |grid| && 0 <= x < |grid[y]| :: Util.Coord(x, y);
    set c, d | c in cells + {s.loc} && d in Orbit(s.dir) :: State(c, d)
  }

  /**
   * Walks the guard, remembering every (location, direction) state; true
   * as soon as a state repeats, false when the guard walks off the grid.
   * The states are finitely many, so the walk always ends.
   */
  method CheckLoop(grid: seq<seq<Slot>>, guardLoc: Coord, direction: Direction) returns (looped: bool)
    ensures looped <==> Loops(grid, State(guardLoc, direction))
  {
    ghost var s0 := State(guardLoc, direction);
    ghost var space := StateSpace(grid, s0);
    var loc, dir := guardLoc, direction;
    var visited: set<State> := {};
    ghost var k := 0;
    ghost var history: seq<State> := [];
    while true
      invariant |history| == k && Explored(grid, s0, history, visited)
      invariant Walk(grid, s0, k) == Some(State(loc, dir))
      invariant visited <= space
      decreases |space| - |visited|
    {
      var s := State(loc, dir);
      WalkStaysOnMap(grid, s0, k);
      if s in visited {
        ghost var i :| 0 <= i < k && history[i] == s;
        return true;
      }
      StateInSpace(grid, s0, s);
      ExploreStep(grid, s0, history, visited, s);
      visited := visited + {s};
      history := history + [s];
      Sets.SubsetCardinality(visited, space);
      WalkStep(grid, s0, k);
      k := k + 1;
      var next := Advance(grid, s);
      if next.None? {
        NoLoopWhenExiting(grid, s0, k, history);
        return false;
      }
      loc, dir := next.value.loc, next.value.dir;
    }
  }

  /** `history` lists the first states of the walk from `s0`, all distinct, and `visited` holds exactly them. */
  ghost predicate Explored(grid: seq<seq<Slot>>, s0: State, history: seq<State>, visited: set<State>)
  {
    && visited == (set t | t in history)
    && (forall i :: 0 <= i < |history| ==> Walk(grid, s0, i) == Some(history[i]))
    && (forall i, j :: 0 <= i < j < |history| ==> history[i] != history[j])
  }

  /** Recording the walk's next state, when it is new, keeps the record exact. */
  lemma ExploreStep(grid: seq<seq<Slot>>, s0: State, history: seq<State>, visited: set<State>, s: State)
    requires Explored(grid, s0, history, visited) && s !in visited
    requires Walk(grid, s0, |history|) == Some(s)
    ensures Explored(grid, s0, history + [s], visited + {s})
  {
    assert (set t | t in history + [s]) == (set t | t in history) + {s};
  }

  /** A state the walk reaches on the map is one of the states counted in its state space. */
  lemma StateInSpace(grid: seq<seq<Slot>>, s0: State, s: State)
    requires (s.loc == s0.loc || OnMap(grid, s.loc)) && s.dir in Orbit(s0.dir)
    ensures s in StateSpace(grid, s0)
  {
    var cells := set y, x | 0 <= y < |grid| && 0 <= x < |grid[y]| :: Util.Coord(x, y);
    if s.loc != s0.loc {
      assert s.loc in cells;
    }
  }

  /** A walk that leaves the grid after `n` distinct states never repeats one. */
  lemma NoLoopWhenExiting(grid: seq<seq<Slot>>, s0: State, n: nat, history: seq<State>)
    requires |history| == n
    requires forall i :: 0 <= i < n ==> Walk(grid, s0, i) == Some(history[i])
    requires forall i, j :: 0 <= i < j < n ==> history[i] != history[j]
    requires Walk(grid, s0, n).None?
    ensures !Loops(grid, s0)
  {
    forall i, j | 0 <= i < j && Walk(grid, s0, i).Some? && Walk(grid, s0, i) == Walk(grid, s0, j)
      ensures false
    {
      if j >= n {
        WalkGone(grid, s0, n, j);
      }
    }
  }

  /** The grid with an obstacle added at `c`. */
  function WithObstacle(grid: seq<seq<Slot>>, c: Coord): seq<seq<Slot>>
    requires OnMap(grid, c)
  {
    Util.Updated(grid, c, Obstacle)
  }

  /** Every cell of `cs` is an empty cell of the grid. */
  ghost predicate AllEmpty(grid: seq<seq<Slot>>, cs: set<Coord>)
  {
    forall c :: c in cs ==> OnMap(grid, c) && grid[c.y][c.x] == Empty
  }

  /** `a` and `b` have the same shape. */
  predicate SameShape(a: seq<seq<Slot>>, b: seq<seq<Slot>>)
  {
    |a| == |b| && forall y :: 0 <= y < |b| ==> |a[y]| == |b[y]|
  }

  /** The candidate cells, other than the guard's start, on which an obstacle traps the guard in a loop. */
  ghost function Trapping(grid: seq<seq<Slot>>, cs: set<Coord>, guardLoc: Coord, direction: Direction): set<Coord>
    requires forall c :: c in cs ==> OnMap(grid, c)
  {
    set c | c in cs && c != guardLoc && Loops(WithObstacle(grid, c), State(guardLoc, direction))
  }

  /**
   * Part 2: tries an obstacle on each visited cell except the guard's
   * start, counting the ones that trap the guard, and clears each cell
   * again afterwards. When the tried cells are empty, as the cells the
   * guard walks on are, every trial sees the original grid plus one
   * obstacle, and the grid ends as it began.
   */
  method MakeLoops(lab: Util.Grid<Slot>, guardLoc: Coord, direction: Direction, visitedLocations: set<Coord>) returns (count: nat)
    requires forall c :: c in visitedLocations ==> OnMap(lab.rows, c)
    modifies lab
    ensures AllEmpty(old(lab.rows), visitedLocations - {guardLoc}) ==>
      count == |Trapping(old(lab.rows), visitedLocations, guardLoc, direction)|
    ensures AllEmpty(old(lab.rows), visitedLocations - {guardLoc}) ==> lab.rows == old(lab.rows)
  {
    ghost var grid0 := lab.rows;
    ghost var clean := AllEmpty(grid0, visitedLocations - {guardLoc});
    ghost var trapping := Trapping(grid0, visitedLocations, guardLoc, direction);
    var todo := visitedLocations;
    count := 0;
    while todo != {}
      invariant todo <= visitedLocations
      invariant SameShape(lab.rows, grid0)
      invariant clean ==> lab.rows == grid0 && count == |trapping - todo|
      decreases |todo|
    {
      var c :| c in todo;
      Sets.HandledStep(trapping, todo, c);
      todo := todo - {c};
      if c == guardLoc {
        assert c !in trapping;
        continue;
      }
      var looped := TryObstacle(lab, c, guardLoc, direction);
      if looped {
        count := count + 1;
      }
      if clean {
        assert looped <==> c in trapping;
        ClearEmptyCell(grid0, c);
      }
    }
    assert trapping - todo == trapping;
  }

  /** One trial of part 2: put an obstacle on `c`, check for a loop, and clear `c` again. */
  method TryObstacle(lab: Util.Grid<Slot>, c: Coord, guardLoc: Coord, direction: Direction) returns (looped: bool)
    requires OnMap(lab.rows, c)
    modifies lab
    ensures lab.rows == Util.Updated(old(lab.rows), c, Empty)
    ensures looped <==> Loops(WithObstacle(old(lab.rows), c), State(guardLoc, direction))
  {
    lab.rows := Util.Updated(lab.rows, c, Obstacle);
    looped := CheckLoop(lab.rows, guardLoc, direction);
    lab.rows := Util.Updated(lab.rows, c, Empty);
    ghost var g := old(lab.rows);
    assert g[c.y][c.x := Obstacle][c.x := Empty] == g[c.y][c.x := Empty];
  }

  /** Clearing a cell that is already empty leaves the grid as it was. */
  lemma ClearEmptyCell(grid: seq<seq<Slot>>, c: Coord)
    requires OnMap(grid, c) && grid[c.y][c.x] == Empty
    ensures Util.Updated(grid, c, Empty) == grid
  {
    assert grid[c.y][c.x := Empty] == grid[c.y];
  }
}
