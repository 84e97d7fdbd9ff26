/**
 * Day 20: a single racetrack winds through a walled grid. `get_path`
 * follows it from the start to the end; a cheat jumps from one track cell
 * to a later one through walls, and the two counting passes keep the
 * cheats that save enough time (two-step jumps in part one, jumps of at
 * most 20 steps in part two).
 */
module Day20 {
  import opened Wrappers
  import opened Util
  import Sets

  datatype Cell = Empty | Wall

  type Map = seq<seq<Cell>>

  // ---------------------------------------------------------------- parsing

  /** `S` and `E` mark open cells, `#` a wall, `.` an open cell; any other character is rejected. */
  function ParseCell(ch: char): (r: Option<Cell>)
    ensures r.Some? <==> ch in {'S', 'E', '#', '.'}
    ensures r == Some(Wall) <==> ch == '#'
  {
    match ch
    case 'S' => Some(Empty)
    case 'E' => Some(Empty)
    case '#' => Some(Wall)
    case '.' => Some(Empty)
    case _ => None
  }

  /** One line of the map: rejected as soon as one character is. */
  function ParseRow(line: string): (r: Option<seq<Cell>>)
    ensures r.Some? <==> forall x :: 0 <= x < |line| ==> ParseCell(line[x]).Some?
    ensures r.Some? ==> (|r.value| == |line| &&
      forall x :: 0 <= x < |line| ==> Some(r.value[x]) == ParseCell(line[x]))
    decreases |line|
  {
    if line == [] then Some([])
    else
      match (ParseRow(line[..|line| - 1]), ParseCell(line[|line| - 1]))
      case (Some(row), Some(cell)) => Some(row + [cell])
      case _ => None
  }

  /** The whole map, row `y` from line `y`. */
  function ParseMap(lines: seq<string>): (r: Option<Map>)
    ensures r.Some? <==> forall y :: 0 <= y < |lines| ==> ParseRow(lines[y]).Some?
    ensures r.Some? ==> (|r.value| == |lines| &&
      forall y :: 0 <= y < |lines| ==> Some(r.value[y]) == ParseRow(lines[y]))
    decreases |lines|
  {
    if lines == [] then Some([])
    else
      match (ParseMap(lines[..|lines| - 1]), ParseRow(lines[|lines| - 1]))
      case (Some(rows), Some(row)) => Some(rows + [row])
      case _ => None
  }

  /** The last column of `line` holding `ch`. */
  function LastInRow(line: string, ch: char): (r: Option<nat>)
    ensures r.None? <==> ch !in line
    ensures r.Some? ==> (r.value < |line| && line[r.value] == ch &&
      forall x :: r.value < x < |line| ==> line[x] != ch)
    decreases |line|
  {
    if line == [] then None
    else if line[|line| - 1] == ch then Some(|line| - 1)
    else LastInRow(line[..|line| - 1], ch)
  }

  /**
   * The position of the last `ch` in reading order: the scan overwrites
   * the start and end markers, so a repeated marker counts where it last
   * appears.
   */
  function FindLast(lines: seq<string>, ch: char): (r: Option<Coord>)
    ensures r.None? <==> forall y :: 0 <= y < |lines| ==> ch !in lines[y]
    ensures r.Some? ==> (0 <= r.value.y < |lines| && 0 <= r.value.x < |lines[r.value.y]| &&
      lines[r.value.y][r.value.x] == ch &&
      (forall x :: r.value.x < x < |lines[r.value.y]| ==> lines[r.value.y][x] != ch) &&
      (forall y :: r.value.y < y < |lines| ==> ch !in lines[y]))
    decreases |lines|
  {
    if lines == [] then None
    else
      match LastInRow(lines[|lines| - 1], ch)
      case Some(x) => Some(Coord(x, |lines| - 1))
      case None => FindLast(lines[..|lines| - 1], ch)
  }

  // ---------------------------------------------------------------- the track

  predicate Open(m: Map, c: Coord)
  {
    Get(m, c) == Some(Empty)
  }

  /** No cell appears twice. */
  predicate Distinct(p: seq<Coord>)
  {
    forall i, j :: 0 <= i < j < |p| ==> p[i] != p[j]
  }

  /** Consecutive cells are orthogonal neighbours. */
  predicate Steps(p: seq<Coord>)
  {
    forall k :: 0 <= k < |p| - 1 ==> ManhattanDistance(p[k], p[k + 1]) == 1
  }

  /**
   * A walk from `start`: it begins there, moves one orthogonal step at a
   * time, never revisits a cell, and every cell after the first is open.
   */
  predicate Walk(m: Map, start: Coord, p: seq<Coord>)
  {
    |p| > 0 && p[0] == start && Distinct(p) && Steps(p) &&
    forall k :: 0 < k < |p| ==> Open(m, p[k])
  }

  /** The walk cannot go on: each neighbour of its last cell is already on it or is not open. */
  predicate Stuck(m: Map, p: seq<Coord>)
    requires |p| > 0
  {
    forall d: Direction :: Move(Last(p), d) in p || !Open(m, Move(Last(p), d))
  }

  function Last(p: seq<Coord>): Coord
    requires |p| > 0
  {
    p[|p| - 1]
  }

  /** The cells of the map. */
  ghost function Cells(m: Map): set<Coord>
  {
    set y, x | 0 <= y < |m| && 0 <= x < |m[y]| :: Coord(x, y)
  }

  /**
   * Follows the track from `start` until `end`: at each cell the first
   * direction (up, down, left, right) that does not turn straight back,
   * does not revisit a cell and leads to an open cell is taken. `ok` is
   * false where the source panics, at a cell other than the end with no
   * such direction.
   */
  method GetPath(m: Map, start: Coord, end: Coord) returns (path: seq<Coord>, ok: bool)
    ensures Walk(m, start, path)
    ensures ok ==> Last(path) == end
    ensures !ok ==> Last(path) != end && Stuck(m, path)
  {
    var curr := start;
    var prev: Option<Direction> := None;
    path := [start];
    ghost var seen := {start};
    ghost var universe := Cells(m) + {start};
    var dirs := AllDirections();
    while curr != end
      invariant Walk(m, start, path) && curr == Last(path)
      invariant prev.Some? ==> |path| >= 2 && curr == Move(path[|path| - 2], prev.value)
      invariant seen == set c | c in path
      invariant seen <= universe
      decreases |universe - seen|
    {
      var chosen: Option<Direction> := None;
      var i := 0;
      while i < 4
        invariant 0 <= i <= 4
        invariant chosen.None? && forall u :: 0 <= u < i ==> Declined(m, path, prev, dirs[u])
      {
        if Some(Opposite(dirs[i])) != prev {
          var next := Move(curr, dirs[i]);
          if next !in path && Get(m, next) == Some(Empty) {
            chosen := Some(dirs[i]);
            break;
          }
        }
        i := i + 1;
      }
      if chosen.None? {
        StuckWhenAllDeclined(m, path, prev);
        return path, false;
      }
      var d := chosen.value;
      var next := Move(curr, d);
      WalkExtends(m, start, path, d);
      assert next in Cells(m);
      Sets.VisitShrinks(universe, seen, next);
      curr, prev, path, seen := next, Some(d), path + [next], seen + {next};
    }
    ok := true;
  }

  /** Taking a step to an open cell off the walk extends the walk. */
  lemma WalkExtends(m: Map, start: Coord, p: seq<Coord>, d: Direction)
    requires Walk(m, start, p)
    requires Move(Last(p), d) !in p && Open(m, Move(Last(p), d))
    ensures Walk(m, start, p + [Move(Last(p), d)])
  {
    MoveAdjacent(Last(p), d);
  }

  /** The loop of `get_path` skips direction `d` at the walk's last cell. */
  predicate Declined(m: Map, p: seq<Coord>, prev: Option<Direction>, d: Direction)
    requires |p| > 0
  {
    Some(Opposite(d)) == prev || Move(Last(p), d) in p || !Open(m, Move(Last(p), d))
  }

  /** Skipping every direction leaves the walk stuck: turning straight back would land on the previous cell. */
  lemma StuckWhenAllDeclined(m: Map, p: seq<Coord>, prev: Option<Direction>)
    requires |p| > 0
    requires prev.Some? ==> |p| >= 2 && Last(p) == Move(p[|p| - 2], prev.value)
    requires forall u :: 0 <= u < 4 ==> Declined(m, p, prev, AllDirections()[u])
    ensures Stuck(m, p)
  {
    forall d: Direction
      ensures Move(Last(p), d) in p || !Open(m, Move(Last(p), d))
    {
      assert d in AllDirections();
      var u :| 0 <= u < 4 && AllDirections()[u] == d;
      if Some(Opposite(d)) == prev {
        OppositeInvolution(d);
        MoveOpposite(p[|p| - 2], prev.value);
        assert Move(Last(p), d) == p[|p| - 2];
      }
    }
  }

  /**
   * Reads the map and follows the track from the start marker to the end
   * marker; `None` for an unexpected character, a missing marker or a
   * track that gets stuck.
   */
  method ParseInput(lines: seq<string>) returns (r: Option<seq<Coord>>)
    ensures ParseMap(lines).None? || FindLast(lines, 'S').None? || FindLast(lines, 'E').None? ==> r.None?
    ensures r.Some? ==> (Walk(ParseMap(lines).value, FindLast(lines, 'S').value, r.value) &&
      Last(r.value) == FindLast(lines, 'E').value)
  {
    var m := ParseMap(lines);
    var start := FindLast(lines, 'S');
    var end := FindLast(lines, 'E');
    if m.None? || start.None? || end.None? {
      return None;
    }
    var path, ok := GetPath(m.value, start.value, end.value);
    if !ok {
      return None;
    }
    return Some(path);
  }

  // ---------------------------------------------------------------- positions along the track

  /** Each cell of the path mapped to its position; a repeated cell keeps its last position. */
  function ReverseIndex(p: seq<Coord>): (r: map<Coord, nat>)
    ensures forall c :: c in r <==> c in p
    ensures forall c :: c in r ==> (r[c] < |p| && p[r[c]] == c &&
      forall j :: r[c] < j < |p| ==> p[j] != c)
    decreases |p|
  {
    if p == [] then map[]
    else ReverseIndex(p[..|p| - 1])[p[|p| - 1] := |p| - 1]
  }

  /** On a path without repeats, the reverse index is the exact inverse of indexing. */
  lemma IndexInverts(p: seq<Coord>, i: nat)
    requires Distinct(p) && i < |p|
    ensures p[i] in ReverseIndex(p) && ReverseIndex(p)[p[i]] == i
  {
    assert p[i] in p;
  }

  // ---------------------------------------------------------------- part one

  /** The cell reached by step `u` and then step `v`, both indices into up, down, left, right. */
  function Jump(c: Coord, u: nat, v: nat): Coord
    requires u < 4 && v < 4
  {
    Move(Move(c, AllDirections()[u]), AllDirections()[v])
  }

  /** The second step turns straight back, so the jump is skipped. */
  predicate Backtracks(u: nat, v: nat)
    requires u < 4 && v < 4
  {
    AllDirections()[v] == Opposite(AllDirections()[u])
  }

  /** The jump from position `i` lands on the track more than 100 positions further on. */
  predicate Hit(p: seq<Coord>, idx: map<Coord, nat>, i: nat, u: nat, v: nat)
    requires i < |p| && u < 4 && v < 4
  {
    !Backtracks(u, v) && Jump(p[i], u, v) in idx && idx[Jump(p[i], u, v)] > i && idx[Jump(p[i], u, v)] - i > 100
  }

  /** Jump `(u', v')` is tried before jump `(u, v)`: first steps outer, second steps inner. */
  predicate Before(u': nat, v': nat, u: nat, v: nat)
  {
    u' < 4 && v' < 4 && (u' < u || (u' == u && v' < v))
  }

  /** The cheats found from position `i` by the jumps tried before `(u, v)`. */
  ghost function HitsBefore(p: seq<Coord>, idx: map<Coord, nat>, i: nat, u: nat, v: nat): set<(Coord, Coord)>
    requires i < |p| && ((u < 4 && v <= 4) || (u == 4 && v == 0))
    decreases u, v
  {
    if v == 0 then (if u == 0 then {} else HitsBefore(p, idx, i, u - 1, 4))
    else HitsBefore(p, idx, i, u, v - 1) + (if Hit(p, idx, i, u, v - 1) then {(p[i], Jump(p[i], u, v - 1))} else {})
  }

  /** The cheats found from position `i` by all sixteen jumps. */
  ghost function Hits(p: seq<Coord>, idx: map<Coord, nat>, i: nat): set<(Coord, Coord)>
    requires i < |p|
  {
    set u, v | 0 <= u < 4 && 0 <= v < 4 && Hit(p, idx, i, u, v) :: (p[i], Jump(p[i], u, v))
  }

  /** The cheats found from the first `n` positions. */
  ghost function CheatsUpto(p: seq<Coord>, idx: map<Coord, nat>, n: nat): set<(Coord, Coord)>
    requires n <= |p|
  {
    if n == 0 then {} else CheatsUpto(p, idx, n - 1) + Hits(p, idx, n - 1)
  }

  /** The positions part one jumps from: all but the last hundred. */
  function Scanned(p: seq<Coord>): nat
    requires |p| >= 100
  {
    |p| - 100
  }

  /** The part-one cheats: two-step jumps from every scanned position. */
  ghost function Cheats(p: seq<Coord>): set<(Coord, Coord)>
    requires |p| >= 100
  {
    CheatsUpto(p, ReverseIndex(p), Scanned(p))
  }

  /** A cheat is found from position `i` before jump `(u, v)` exactly when an earlier jump from there hits. */
  lemma {:induction false} HitsMembers(p: seq<Coord>, idx: map<Coord, nat>, i: nat, u: nat, v: nat, pair: (Coord, Coord))
    requires i < |p| && ((u < 4 && v <= 4) || (u == 4 && v == 0))
    ensures pair in HitsBefore(p, idx, i, u, v) <==>
      exists u', v' :: Before(u', v', u, v) && Hit(p, idx, i, u', v') && pair == (p[i], Jump(p[i], u', v'))
    decreases u, v
  {
    if v == 0 {
      if u > 0 {
        HitsMembers(p, idx, i, u - 1, 4, pair);
        assert forall u', v' :: Before(u', v', u, 0) <==> Before(u', v', u - 1, 4);
      }
    } else {
      HitsMembers(p, idx, i, u, v - 1, pair);
      if Hit(p, idx, i, u, v - 1) && pair == (p[i], Jump(p[i], u, v - 1)) {
        assert Before(u, v - 1, u, v);
      }
    }
  }

  /** A cheat is found from the first `n` positions exactly when it is found from one of them. */
  lemma {:induction false} CheatsUptoMembers(p: seq<Coord>, idx: map<Coord, nat>, n: nat, pair: (Coord, Coord))
    requires n <= |p|
    ensures pair in CheatsUpto(p, idx, n) <==> exists i :: 0 <= i < n && pair in Hits(p, idx, i)
  {
    if n > 0 {
      CheatsUptoMembers(p, idx, n - 1, pair);
    }
  }

  /** After the last jump, the jumps tried from position `i` have found all of its cheats. */
  lemma HitsComplete(p: seq<Coord>, idx: map<Coord, nat>, i: nat)
    requires i < |p|
    ensures HitsBefore(p, idx, i, 4, 0) == Hits(p, idx, i)
  {
    forall pair
      ensures pair in HitsBefore(p, idx, i, 4, 0) <==> pair in Hits(p, idx, i)
    {
      HitsMembers(p, idx, i, 4, 0, pair);
    }
  }

  /**
   * Part one: from every position but the last hundred, each pair of
   * steps that does not turn straight back; the jump counts when it lands
   * on the track more than 100 positions further on. `None` where the
   * source's length arithmetic underflows, a track shorter than 100.
   */
  method FindCheats(path: seq<Coord>) returns (r: Option<set<(Coord, Coord)>>)
    ensures r.None? <==> |path| < 100
    ensures r.Some? ==> r.value == Cheats(path)
  {
    if |path| < 100 {
      return None;
    }
    var idx := ReverseIndex(path);
    var good: set<(Coord, Coord)> := {};
    for i := 0 to Scanned(path)
      invariant good == CheatsUpto(path, idx, i)
    {
      good := AddCheatsFrom(path, idx, i, good);
    }
    return Some(good);
  }

  /** The two inner loops of part one: every jump from position `i`, each hit added to `good`. */
  method AddCheatsFrom(path: seq<Coord>, idx: map<Coord, nat>, i: nat, good: set<(Coord, Coord)>)
    returns (good': set<(Coord, Coord)>)
    requires i < |path|
    ensures good' == good + Hits(path, idx, i)
  {
    var loc := path[i];
    var dirs := AllDirections();
    good' := good;
    for u := 0 to 4
      invariant good' == good + HitsBefore(path, idx, i, u, 0)
    {
      for v := 0 to 4
        invariant good' == good + HitsBefore(path, idx, i, u, v)
      {
        if dirs[v] == Opposite(dirs[u]) {
          assert HitsBefore(path, idx, i, u, v + 1) == HitsBefore(path, idx, i, u, v);
          continue;
        }
        var next := Move(Move(loc, dirs[u]), dirs[v]);
        assert next == Jump(path[i], u, v);
        if next !in idx {
          assert HitsBefore(path, idx, i, u, v + 1) == HitsBefore(path, idx, i, u, v);
          continue;
        }
        var nextI := idx[next];
        if nextI > i && nextI - i > 100 {
          assert HitsBefore(path, idx, i, u, v + 1) == HitsBefore(path, idx, i, u, v) + {(loc, next)};
          good' := good' + {(loc, next)};
        } else {
          assert HitsBefore(path, idx, i, u, v + 1) == HitsBefore(path, idx, i, u, v);
        }
      }
    }
    HitsComplete(path, idx, i);
  }

  /** Every jump that does not turn straight back lands exactly two steps away, and every cell two steps away is such a jump. */
  lemma TwoSteps(c: Coord, b: Coord)
    ensures (exists u, v :: u < 4 && v < 4 && !Backtracks(u, v) && Jump(c, u, v) == b) <==> ManhattanDistance(c, b) == 2
  {
    if ManhattanDistance(c, b) == 2 {
      var u, v := JumpTo(c, b);
    }
  }

  /** The jump that reaches a cell two steps away. */
  lemma JumpTo(c: Coord, b: Coord) returns (u: nat, v: nat)
    requires ManhattanDistance(c, b) == 2
    ensures u < 4 && v < 4 && !Backtracks(u, v) && Jump(c, u, v) == b
  {
    var dx, dy := b.x - c.x, b.y - c.y;
    // Up 0, Down 1, Left 2, Right 3.
    if dx == 2 { u, v := 3, 3; }
    else if dx == -2 { u, v := 2, 2; }
    else if dy == 2 { u, v := 1, 1; }
    else if dy == -2 { u, v := 0, 0; }
    else if dx == 1 && dy == 1 { u, v := 3, 1; }
    else if dx == 1 { u, v := 3, 0; }
    else if dy == 1 { u, v := 2, 1; }
    else { u, v := 2, 0; }
  }

  /** Position `i`, one of those scanned, holds `a`, and `b`, two steps away, lies on the track more than 100 positions on. */
  predicate TwoStepCheat(p: seq<Coord>, a: Coord, b: Coord, i: nat)
    requires |p| >= 100
  {
    i < |p| - 100 && p[i] == a && ManhattanDistance(a, b) == 2 &&
    b in ReverseIndex(p) && ReverseIndex(p)[b] > i + 100
  }

  lemma CheatsSound(p: seq<Coord>, a: Coord, b: Coord) returns (i: nat)
    requires |p| >= 100 && (a, b) in Cheats(p)
    ensures TwoStepCheat(p, a, b, i)
  {
    var idx := ReverseIndex(p);
    CheatsUptoMembers(p, idx, Scanned(p), (a, b));
    i :| 0 <= i < Scanned(p) && (a, b) in Hits(p, idx, i);
    var u, v :| 0 <= u < 4 && 0 <= v < 4 && Hit(p, idx, i, u, v) && (a, b) == (p[i], Jump(p[i], u, v));
    TwoSteps(a, b);
  }

  lemma CheatsComplete(p: seq<Coord>, a: Coord, b: Coord, i: nat)
    requires |p| >= 100 && TwoStepCheat(p, a, b, i)
    ensures (a, b) in Cheats(p)
  {
    var idx := ReverseIndex(p);
    var u, v := JumpTo(a, b);
    assert Hit(p, idx, i, u, v);
    assert (a, b) in Hits(p, idx, i);
    CheatsUptoMembers(p, idx, Scanned(p), (a, b));
  }

  /** Membership in the part-one cheats, stated without directions. */
  lemma CheatsMembers(p: seq<Coord>, a: Coord, b: Coord)
    requires |p| >= 100
    ensures (a, b) in Cheats(p) <==> exists i :: TwoStepCheat(p, a, b, i)
  {
    if (a, b) in Cheats(p) {
      var i := CheatsSound(p, a, b);
    }
    if exists i :: TwoStepCheat(p, a, b, i) {
      var i :| TwoStepCheat(p, a, b, i);
      CheatsComplete(p, a, b, i);
    }
  }

  // ---------------------------------------------------------------- part two

  /**
   * From position `i` to position `k` at least `minSave` further on: the
   * jump is at most 20 steps long and the positions skipped beyond
   * `minSave` pay for its length, so the saving `k - i - distance` is at
   * least `minSave`.
   */
  predicate Shortcut(p: seq<Coord>, minSave: nat, i: nat, k: nat)
    requires i + minSave <= k < |p|
  {
    ManhattanDistance(p[i], p[k]) <= 20 && k - (i + minSave) >= ManhattanDistance(p[i], p[k])
  }

  /** The cheats from position `i` to the positions before `n`. */
  ghost function ShortcutsFrom(p: seq<Coord>, minSave: nat, i: nat, n: nat): set<(Coord, Coord)>
    requires i < |p| && n <= |p|
  {
    set k | i + minSave <= k < n && Shortcut(p, minSave, i, k) :: (p[i], p[k])
  }

  /** The cheats from the first `n` positions. */
  ghost function ShortcutsUpto(p: seq<Coord>, minSave: nat, n: nat): set<(Coord, Coord)>
    requires n <= |p|
  {
    if n == 0 then {} else ShortcutsUpto(p, minSave, n - 1) + ShortcutsFrom(p, minSave, n - 1, |p|)
  }

  /** The positions part two jumps from: all but the last `minSave`. */
  function Kept(p: seq<Coord>, minSave: nat): nat
    requires |p| >= minSave
  {
    |p| - minSave
  }

  /** The part-two cheats: jumps of at most 20 steps that save at least `minSave`. */
  ghost function CheatsP2(p: seq<Coord>, minSave: nat): set<(Coord, Coord)>
    requires |p| >= minSave
  {
    ShortcutsUpto(p, minSave, Kept(p, minSave))
  }

  lemma ShortcutsFromStep(p: seq<Coord>, minSave: nat, i: nat, k: nat)
    requires i + minSave <= k < |p|
    ensures ShortcutsFrom(p, minSave, i, k + 1) ==
      ShortcutsFrom(p, minSave, i, k) + (if Shortcut(p, minSave, i, k) then {(p[i], p[k])} else {})
  {
  }

  /** A cheat is found from the first `n` positions exactly when it is found from one of them. */
  lemma {:induction false} ShortcutsUptoMembers(p: seq<Coord>, minSave: nat, n: nat, pair: (Coord, Coord))
    requires n <= |p|
    ensures pair in ShortcutsUpto(p, minSave, n) <==> exists i :: 0 <= i < n && pair in ShortcutsFrom(p, minSave, i, |p|)
  {
    if n > 0 {
      ShortcutsUptoMembers(p, minSave, n - 1, pair);
    }
  }

  /** Membership in the part-two cheats, stated by positions. */
  lemma CheatsP2Members(p: seq<Coord>, minSave: nat, pair: (Coord, Coord))
    requires |p| >= minSave
    ensures pair in CheatsP2(p, minSave) <==>
      exists i, k :: 0 <= i < |p| - minSave && i + minSave <= k < |p| && Shortcut(p, minSave, i, k) && pair == (p[i], p[k])
  {
    ShortcutsUptoMembers(p, minSave, Kept(p, minSave), pair);
    if pair in CheatsP2(p, minSave) {
      var i :| 0 <= i < Kept(p, minSave) && pair in ShortcutsFrom(p, minSave, i, |p|);
      var k :| i + minSave <= k < |p| && Shortcut(p, minSave, i, k) && pair == (p[i], p[k]);
    }
    if exists i, k :: 0 <= i < |p| - minSave && i + minSave <= k < |p| && Shortcut(p, minSave, i, k) && pair == (p[i], p[k]) {
      var i, k :| 0 <= i < |p| - minSave && i + minSave <= k < |p| && Shortcut(p, minSave, i, k) && pair == (p[i], p[k]);
      assert pair in ShortcutsFrom(p, minSave, i, |p|);
    }
  }

  /**
   * Part two: every position but the last `minSave` paired with every
   * position at least `minSave` further on (the `j`-th of them is
   * position `k`). `None` where the source's length arithmetic
   * underflows, a track shorter than `minSave`.
   */
  method FindCheatsP2(path: seq<Coord>, minSave: nat) returns (r: Option<set<(Coord, Coord)>>)
    ensures r.None? <==> |path| < minSave
    ensures r.Some? ==> r.value == CheatsP2(path, minSave)
  {
    if |path| < minSave {
      return None;
    }
    var good: set<(Coord, Coord)> := {};
    for i := 0 to Kept(path, minSave)
      invariant good == ShortcutsUpto(path, minSave, i)
    {
      good := AddShortcutsFrom(path, minSave, i, good);
    }
    return Some(good);
  }

  /** The inner loop of part two: every position at least `minSave` after `i` (the `j`-th is position `k`), each cheat added to `good`. */
  method AddShortcutsFrom(path: seq<Coord>, minSave: nat, i: nat, good: set<(Coord, Coord)>)
    returns (good': set<(Coord, Coord)>)
    requires i < |path|
    ensures good' == good + ShortcutsFrom(path, minSave, i, |path|)
  {
    var loc := path[i];
    good' := good;
    if i + minSave >= |path| {
      assert ShortcutsFrom(path, minSave, i, |path|) == {};
      return;
    }
    for k := i + minSave to |path|
      invariant good' == good + ShortcutsFrom(path, minSave, i, k)
    {
      var j := k - (i + minSave);
      var nextLoc := path[k];
      var dist := ManhattanDistance(loc, nextLoc);
      ShortcutsFromStep(path, minSave, i, k);
      if dist <= 20 && j >= dist {
        good' := good' + {(loc, nextLoc)};
      }
    }
  }


  // ---------------------------------------------------------------- the two parts agree

  /** One orthogonal step changes the distance to any fixed cell by exactly one, so its parity flips. */
  lemma StepParity(a: Coord, b: Coord, c: Coord)
    requires ManhattanDistance(b, c) == 1
    ensures ManhattanDistance(a, c) % 2 != ManhattanDistance(a, b) % 2
  {
  }

  /** Along a track, the number of positions between two cells has the parity of their distance. */
  lemma {:induction false} Parity(p: seq<Coord>, i: nat, k: nat)
    requires Steps(p) && i <= k < |p|
    ensures (k - i) % 2 == ManhattanDistance(p[i], p[k]) % 2
    decreases k - i
  {
    if k > i {
      Parity(p, i, k - 1);
      StepParity(p[i], p[k - 1], p[k]);
    }
  }

  lemma EvenGap(g: int)
    requires g % 2 == 0 && g > 100
    ensures g >= 102
  {
  }

  lemma PartOneInPartTwo(p: seq<Coord>, a: Coord, b: Coord)
    requires |p| >= 100 && Distinct(p) && Steps(p) && (a, b) in Cheats(p)
    ensures (a, b) in CheatsP2(p, 100) && ManhattanDistance(a, b) == 2
  {
    var i := CheatsSound(p, a, b);
    var k := ReverseIndex(p)[b];
    Parity(p, i, k);
    EvenGap(k - i);
    assert 0 <= i < |p| - 100 && i + 100 <= k < |p| && Shortcut(p, 100, i, k) && (a, b) == (p[i], p[k]);
    CheatsP2Members(p, 100, (a, b));
  }

  lemma PartTwoInPartOne(p: seq<Coord>, a: Coord, b: Coord)
    requires |p| >= 100 && Distinct(p) && (a, b) in CheatsP2(p, 100) && ManhattanDistance(a, b) == 2
    ensures (a, b) in Cheats(p)
  {
    CheatsP2Members(p, 100, (a, b));
    var i, k :| 0 <= i < |p| - 100 && i + 100 <= k < |p| && Shortcut(p, 100, i, k) && (a, b) == (p[i], p[k]);
    IndexInverts(p, k);
    assert TwoStepCheat(p, a, b, i);
    CheatsComplete(p, a, b, i);
  }

  /**
   * On a track without repeats, the part-one cheats are exactly the
   * two-step cheats of part two with a saving of 100: a two-step jump
   * skips an even number of positions, so "more than 100 positions on"
   * is "a saving of at least 100".
   */
  lemma PartOneIsPartTwo(p: seq<Coord>, a: Coord, b: Coord)
    requires |p| >= 100 && Distinct(p) && Steps(p)
    ensures (a, b) in Cheats(p) <==> (a, b) in CheatsP2(p, 100) && ManhattanDistance(a, b) == 2
  {
    if (a, b) in Cheats(p) {
      PartOneInPartTwo(p, a, b);
    }
    if (a, b) in CheatsP2(p, 100) && ManhattanDistance(a, b) == 2 {
      PartTwoInPartOne(p, a, b);
    }
  }
}
