/**
 * Day 18: bytes fall onto a 71 by 71 memory grid and corrupt the cells
 * they land on. A label-correcting search finds the fewest steps from the
 * start to the end through uncorrupted cells, a depth-first search decides
 * whether the end can be reached at all, and `first_blocker` drops further
 * bytes one at a time until the end is cut off.
 */
module Day18 {
  import opened Wrappers
  import Util
  import Sets

  datatype Cell = Empty | Corrupted

  type Grid = seq<seq<Cell>>

  const Width: nat := 71
  const Height: nat := 71

  /** The grid before any byte has fallen. */
  function Blank(): Grid
  {
    Util.WithDimensions(Width, Height, Empty)
  }

  /** One byte falls: a cell on the grid becomes corrupted; a byte off the grid changes nothing. */
  function Drop(g: Grid, b: Util.Coord): Grid
  {
    if Util.InBounds(g, b) then Util.Updated(g, b, Corrupted) else g
  }

  /** The grid after `bytes` have fallen in order. */
  function Fallen(g: Grid, bytes: seq<Util.Coord>): Grid
    decreases |bytes|
  {
    if bytes == [] then g else Drop(Fallen(g, bytes[..|bytes| - 1]), bytes[|bytes| - 1])
  }

  /** A cell of the grid is corrupted after the fall exactly when a byte landed on it; nothing else changes. */
  lemma {:induction false} FallenCells(g: Grid, bytes: seq<Util.Coord>, c: Util.Coord)
    ensures Util.Get(Fallen(g, bytes), c) ==
      if Util.InBounds(g, c) && c in bytes then Some(Corrupted) else Util.Get(g, c)
    decreases |bytes|
  {
    if bytes != [] {
      var init, b := bytes[..|bytes| - 1], bytes[|bytes| - 1];
      assert bytes == init + [b];
      FallenCells(g, init, c);
      FallenCells(g, init, b);
      if Util.InBounds(Fallen(g, init), b) {
        Util.GetUpdated(Fallen(g, init), b, Corrupted, c);
      }
    }
  }

  /**
   * Builds the grid for the first bytes: a fresh blank grid, then each byte
   * written as corrupted (a byte off the grid is ignored).
   */
  method ConstructMap(bytes: seq<Util.Coord>) returns (grid: Util.Grid<Cell>)
    ensures fresh(grid) && grid.rows == Fallen(Blank(), bytes)
  {
    grid := new Util.Grid(Blank());
    for i := 0 to |bytes|
      invariant grid.rows == Fallen(Blank(), bytes[..i])
    {
      FallenStep(Blank(), bytes, i);
      var _ := grid.Set(bytes[i], Corrupted);
    }
    assert bytes[..|bytes|] == bytes;
  }

  /** The constructed grid is Width by Height, corrupted exactly where a listed byte landed. */
  lemma ConstructedCells(bytes: seq<Util.Coord>, c: Util.Coord)
    ensures Util.Get(Fallen(Blank(), bytes), c) ==
      if 0 <= c.x < Width && 0 <= c.y < Height then Some(if c in bytes then Corrupted else Empty) else None
  {
    FallenCells(Blank(), bytes, c);
  }

  // ---------------------------------------------------------------- paths

  predicate Open(g: Grid, c: Util.Coord)
  {
    Util.Get(g, c) == Some(Empty)
  }

  /** The four cells one step away, in the order of the directions. */
  function Neighbours(c: Util.Coord): (r: seq<Util.Coord>)
    ensures |r| == 4 && forall j :: 0 <= j < 4 ==> r[j] == Util.Move(c, Util.AllDirections()[j])
  {
    var dirs := Util.AllDirections();
    [Util.Move(c, dirs[0]), Util.Move(c, dirs[1]), Util.Move(c, dirs[2]), Util.Move(c, dirs[3])]
  }

  /** One step from `a` onto the neighbouring uncorrupted cell `b`. */
  predicate Step(g: Grid, a: Util.Coord, b: Util.Coord)
  {
    b in Neighbours(a) && Open(g, b)
  }

  ghost predicate IsPath(g: Grid, p: seq<Util.Coord>)
  {
    |p| >= 1 && forall i :: 0 <= i < |p| - 1 ==> StepAt(g, p, i)
  }

  predicate StepAt(g: Grid, p: seq<Util.Coord>, i: int)
  {
    0 <= i < |p| - 1 && Step(g, p[i], p[i + 1])
  }

  /** Some path from `start` ends in `c` after exactly `cost` steps. */
  ghost predicate Witnessed(g: Grid, start: Util.Coord, c: Util.Coord, cost: nat)
  {
    exists p :: IsPath(g, p) && p[0] == start && p[|p| - 1] == c && |p| == cost + 1
  }

  ghost predicate Reaches(g: Grid, start: Util.Coord, end: Util.Coord)
  {
    exists p :: IsPath(g, p) && p[0] == start && p[|p| - 1] == end
  }

  lemma WitnessStart(g: Grid, start: Util.Coord)
    ensures Witnessed(g, start, start, 0)
  {
    assert IsPath(g, [start]);
  }

  /** A step past a witnessed cell is witnessed one step dearer. */
  lemma WitnessStep(g: Grid, start: Util.Coord, c: Util.Coord, cost: nat, n: Util.Coord)
    requires Witnessed(g, start, c, cost) && Step(g, c, n)
    ensures Witnessed(g, start, n, cost + 1)
  {
    var p :| IsPath(g, p) && p[0] == start && p[|p| - 1] == c && |p| == cost + 1;
    var q := p + [n];
    forall i | 0 <= i < |q| - 1
      ensures StepAt(g, q, i)
    {
      if i < |p| - 1 {
        assert StepAt(g, p, i);
      }
    }
    assert IsPath(g, q) && q[0] == start && q[|q| - 1] == n;
  }

  lemma WitnessReaches(g: Grid, start: Util.Coord, c: Util.Coord, cost: nat)
    requires Witnessed(g, start, c, cost)
    ensures Reaches(g, start, c)
  {
  }

  /** A cell of a map keyed by cells, each step from which is matched within one more unit. */
  ghost predicate Relaxed(g: Grid, dists: map<Util.Coord, nat>, c: Util.Coord)
    requires c in dists
  {
    forall n :: Step(g, c, n) ==> n in dists && dists[n] <= dists[c] + 1
  }

  /** If every stored cell is relaxed, each cell of a path from `start` is stored at no more than its position. */
  lemma {:induction false} RelaxedBound(g: Grid, start: Util.Coord, dists: map<Util.Coord, nat>, p: seq<Util.Coord>, k: nat)
    requires start in dists && dists[start] == 0
    requires forall c :: c in dists ==> Relaxed(g, dists, c)
    requires IsPath(g, p) && p[0] == start && k < |p|
    ensures p[k] in dists && dists[p[k]] <= k
  {
    if k > 0 {
      RelaxedBound(g, start, dists, p, k - 1);
      assert StepAt(g, p, k - 1);
    }
  }

  // ------------------------------------------------------------- search

  /** A queued cell with the step count it was reached at. */
  datatype HeapEntry = HeapEntry(location: Util.Coord, dist: nat)

  /** The cells a stored cost can be for: those of the grid, and the start. */
  ghost function Universe(g: Grid, start: Util.Coord): set<Util.Coord>
  {
    {start} + set y, x | 0 <= y < |g| && 0 <= x < |g[y]| :: Util.Coord(x, y)
  }

  lemma InUniverse(g: Grid, start: Util.Coord, c: Util.Coord)
    requires c == start || Open(g, c)
    ensures c in Universe(g, start)
  {
    if c != start {
      assert Util.Coord(c.x, c.y) in set y, x | 0 <= y < |g| && 0 <= x < |g[y]| :: Util.Coord(x, y);
    }
  }

  /** The facts the search keeps: the start at cost 0, stored cells open, every cost that of a real path. */
  ghost predicate SearchInv(g: Grid, start: Util.Coord, dists: map<Util.Coord, nat>, heap: multiset<HeapEntry>)
  {
    && start in dists && dists[start] == 0
    && (forall c :: c in dists ==> c == start || Open(g, c))
    && (forall c :: c in dists ==> Witnessed(g, start, c, dists[c]))
    && (forall e :: e in heap ==> Witnessed(g, start, e.location, e.dist))
  }

  /** A stored cell is queued at its stored cost or already relaxed. */
  ghost predicate Pending(g: Grid, dists: map<Util.Coord, nat>, heap: multiset<HeapEntry>, c: Util.Coord)
    requires c in dists
  {
    HeapEntry(c, dists[c]) in heap || Relaxed(g, dists, c)
  }

  /** One relaxation made progress: a new cell stored, or a lower total. */
  ghost predicate Progress(before: map<Util.Coord, nat>, after: map<Util.Coord, nat>)
  {
    before.Keys < after.Keys || (before.Keys == after.Keys && Util.MapSum(after) < Util.MapSum(before))
  }

  /** A nonempty queue has an entry of greatest cost. */
  lemma {:induction false} MaxEntry(heap: multiset<HeapEntry>) returns (e: HeapEntry)
    requires heap != multiset{}
    ensures e in heap && forall f :: f in heap ==> f.dist <= e.dist
    decreases |heap|
  {
    var x :| x in heap;
    var rest := heap - multiset{x};
    assert heap == rest + multiset{x};
    if rest == multiset{} {
      e := x;
      forall f | f in heap
        ensures f.dist <= e.dist
      {
        assert f in multiset{x};
      }
    } else {
      var best := MaxEntry(rest);
      e := if x.dist <= best.dist then best else x;
      forall f | f in heap
        ensures f.dist <= e.dist
      {
        if f != x {
          assert f in rest;
        }
      }
    }
  }

  /**
   * The search from `start` at cost 0: it pops a queued entry of greatest
   * cost (the queue orders entries by cost and pops the largest), then
   * offers each neighbour one step dearer; an uncorrupted neighbour not yet
   * stored, or stored at a higher cost, gets the new cost and is queued.
   * `None` where the source panics because `end` was never stored. The
   * result is the fewest steps from `start` to `end`.
   */
  method Dijkstra(g: Grid, start: Util.Coord, end: Util.Coord) returns (r: Option<nat>)
    ensures r.Some? <==> Reaches(g, start, end)
    ensures r.Some? ==> Witnessed(g, start, end, r.value)
    ensures r.Some? ==> forall p :: IsPath(g, p) && p[0] == start && p[|p| - 1] == end ==> r.value <= |p| - 1
  {
    var dists := map[start := 0];
    var heap := multiset{HeapEntry(start, 0)};
    WitnessStart(g, start);
    ghost var universe := Universe(g, start);
    InUniverse(g, start, start);
    while heap != multiset{}
      invariant SearchInv(g, start, dists, heap)
      invariant dists.Keys <= universe
      invariant forall c :: c in dists ==> Pending(g, dists, heap, c)
      decreases |universe - dists.Keys|, Util.MapSum(dists), |heap|
    {
      ghost var top := MaxEntry(heap);
      var e :| e in heap && forall f :: f in heap ==> f.dist <= e.dist;
      heap := heap - multiset{e};
      ghost var before := dists;
      ghost var queued := heap;
      dists, heap := Relax(g, start, dists, heap, e);
      StaysInUniverse(g, start, universe, before, queued, dists, heap);
    }
    Shortest(g, start, end, dists);
    r := if end in dists then Some(dists[end]) else None;
  }

  /**
   * Once every stored cell is relaxed, `end` is stored exactly when it can
   * be reached, its stored cost is that of a real path, and no path is shorter.
   */
  lemma Shortest(g: Grid, start: Util.Coord, end: Util.Coord, dists: map<Util.Coord, nat>)
    requires SearchInv(g, start, dists, multiset{})
    requires forall c :: c in dists ==> Pending(g, dists, multiset{}, c)
    ensures end in dists <==> Reaches(g, start, end)
    ensures end in dists ==> Witnessed(g, start, end, dists[end])
    ensures end in dists ==> forall p :: IsPath(g, p) && p[0] == start && p[|p| - 1] == end ==> dists[end] <= |p| - 1
  {
    if end in dists {
      WitnessReaches(g, start, end, dists[end]);
    }
    forall p | IsPath(g, p) && p[0] == start && p[|p| - 1] == end
      ensures end in dists && dists[end] <= |p| - 1
    {
      RelaxedBound(g, start, dists, p, |p| - 1);
    }
  }

  /** After a relaxation the stored cells are still cells of the grid, and fewer are unreached when more are reached. */
  lemma StaysInUniverse(g: Grid, start: Util.Coord, universe: set<Util.Coord>, before: map<Util.Coord, nat>,
                        queued: multiset<HeapEntry>, dists: map<Util.Coord, nat>, heap: multiset<HeapEntry>)
    requires universe == Universe(g, start) && before.Keys <= universe
    requires SearchInv(g, start, dists, heap)
    requires (dists == before && heap == queued) || Progress(before, dists)
    ensures dists.Keys <= universe
    ensures || (dists == before && heap == queued)
            || |universe - dists.Keys| < |universe - before.Keys|
            || (|universe - dists.Keys| == |universe - before.Keys| && Util.MapSum(dists) < Util.MapSum(before))
  {
    forall c | c in dists
      ensures c in universe
    {
      InUniverse(g, start, c);
    }
    if before.Keys < dists.Keys {
      Sets.ProperSubsetCardinality(universe - dists.Keys, universe - before.Keys);
    }
  }

  /** The facts of relaxing `e` once its first `i` neighbours have been offered. */
  ghost predicate RelaxInv(g: Grid, start: Util.Coord, dists: map<Util.Coord, nat>, heap: multiset<HeapEntry>,
                           e: HeapEntry, i: nat, dists': map<Util.Coord, nat>, heap': multiset<HeapEntry>)
  {
    && SearchInv(g, start, dists', heap')
    && dists.Keys <= dists'.Keys && heap <= heap'
    && (forall c :: c in dists ==> dists'[c] <= dists[c])
    && (e.location in dists ==> dists'[e.location] == dists[e.location])
    && (forall c :: c in dists' ==> Pending(g, dists', heap', c) || HeapEntry(c, dists'[c]) == e)
    && (forall j :: 0 <= j < i && j < 4 && Step(g, e.location, Neighbours(e.location)[j]) ==>
          Neighbours(e.location)[j] in dists' && dists'[Neighbours(e.location)[j]] <= e.dist + 1)
    && ((dists' == dists && heap' == heap) || Progress(dists, dists'))
  }

  /**
   * Offers each of the four neighbours of the popped entry `e`, one step
   * dearer; stored costs only ever go down.
   */
  method Relax(g: Grid, start: Util.Coord, dists: map<Util.Coord, nat>, heap: multiset<HeapEntry>, e: HeapEntry)
    returns (dists': map<Util.Coord, nat>, heap': multiset<HeapEntry>)
    requires SearchInv(g, start, dists, heap) && Witnessed(g, start, e.location, e.dist)
    requires forall c :: c in dists ==> Pending(g, dists, heap, c) || HeapEntry(c, dists[c]) == e
    ensures SearchInv(g, start, dists', heap')
    ensures forall c :: c in dists' ==> Pending(g, dists', heap', c)
    ensures forall c :: c in dists ==> c in dists' && dists'[c] <= dists[c]
    ensures (dists' == dists && heap' == heap) || Progress(dists, dists')
  {
    dists', heap' := dists, heap;
    var dirs := Util.AllDirections();
    for i := 0 to 4
      invariant RelaxInv(g, start, dists, heap, e, i, dists', heap')
    {
      var newDist := e.dist + 1;
      var neighbour := Util.Move(e.location, dirs[i]);
      assert neighbour == Neighbours(e.location)[i];
      if Util.Get(g, neighbour) != Some(Empty) {
        continue;
      }
      if neighbour in dists' {
        if dists'[neighbour] > newDist {
          Lower(g, start, dists, heap, e, i, dists', heap');
          dists' := dists'[neighbour := newDist];
          heap' := heap' + multiset{HeapEntry(neighbour, newDist)};
        }
      } else {
        Lower(g, start, dists, heap, e, i, dists', heap');
        dists' := dists'[neighbour := newDist];
        heap' := heap' + multiset{HeapEntry(neighbour, newDist)};
      }
    }
    Finish(g, start, dists, heap, e, dists', heap');
  }

  /** Storing the `i`th neighbour one step dearer than `e`, when that beats its stored cost, keeps the invariant. */
  lemma Lower(g: Grid, start: Util.Coord, dists: map<Util.Coord, nat>, heap: multiset<HeapEntry>, e: HeapEntry, i: nat,
              d: map<Util.Coord, nat>, h: multiset<HeapEntry>)
    requires i < 4 && RelaxInv(g, start, dists, heap, e, i, d, h)
    requires Witnessed(g, start, e.location, e.dist)
    requires var n := Neighbours(e.location)[i]; Open(g, n) && (n in d ==> d[n] > e.dist + 1)
    ensures var n := Neighbours(e.location)[i];
      RelaxInv(g, start, dists, heap, e, i + 1, d[n := e.dist + 1], h + multiset{HeapEntry(n, e.dist + 1)})
  {
    var n := Neighbours(e.location)[i];
    var nd := e.dist + 1;
    var d2, h2 := d[n := nd], h + multiset{HeapEntry(n, nd)};
    Util.MoveAdjacent(e.location, Util.AllDirections()[i]);
    assert n != e.location;
    WitnessStep(g, start, e.location, e.dist, n);
    LowerKeeps(g, start, d, h, n, nd);
    LowerPending(g, d, h, e, n, nd);
    LowerProgress(dists, heap, d, h, n, nd);
    LowerBounds(g, dists, d, e.location, i, nd);
    assert heap <= h2;
  }

  /** Lowering the `i`th neighbour of `loc` to `nd` keeps costs at most their old values and covers the first `i + 1` neighbours. */
  lemma LowerBounds(g: Grid, dists: map<Util.Coord, nat>, d: map<Util.Coord, nat>, loc: Util.Coord, i: nat, nd: nat)
    requires i < 4 && dists.Keys <= d.Keys && forall c :: c in dists ==> d[c] <= dists[c]
    requires Neighbours(loc)[i] in d ==> d[Neighbours(loc)[i]] > nd
    requires forall j :: 0 <= j < i && j < 4 && Step(g, loc, Neighbours(loc)[j]) ==>
      Neighbours(loc)[j] in d && d[Neighbours(loc)[j]] <= nd
    ensures var d2 := d[Neighbours(loc)[i] := nd];
      && dists.Keys <= d2.Keys && (forall c :: c in dists ==> d2[c] <= dists[c])
      && (forall j :: 0 <= j < i + 1 && j < 4 && Step(g, loc, Neighbours(loc)[j]) ==>
            Neighbours(loc)[j] in d2 && d2[Neighbours(loc)[j]] <= nd)
  {
  }

  /** Storing a witnessed cost for an open cell keeps the search's facts. */
  lemma LowerKeeps(g: Grid, start: Util.Coord, d: map<Util.Coord, nat>, h: multiset<HeapEntry>, n: Util.Coord, nd: nat)
    requires SearchInv(g, start, d, h) && Open(g, n) && Witnessed(g, start, n, nd)
    requires n in d ==> d[n] > nd
    ensures SearchInv(g, start, d[n := nd], h + multiset{HeapEntry(n, nd)})
  {
  }

  /** Lowering the cost of `n` and queueing it leaves every other cell as pending as before. */
  lemma LowerPending(g: Grid, d: map<Util.Coord, nat>, h: multiset<HeapEntry>, e: HeapEntry, n: Util.Coord, nd: nat)
    requires forall c :: c in d ==> Pending(g, d, h, c) || HeapEntry(c, d[c]) == e
    requires n in d ==> d[n] > nd
    ensures var d2 := d[n := nd];
      forall c :: c in d2 ==> Pending(g, d2, h + multiset{HeapEntry(n, nd)}, c) || HeapEntry(c, d2[c]) == e
  {
    var d2, h2 := d[n := nd], h + multiset{HeapEntry(n, nd)};
    forall c | c in d2 && c != n && HeapEntry(c, d[c]) != e && HeapEntry(c, d[c]) !in h
      ensures Relaxed(g, d2, c)
    {
      assert Pending(g, d, h, c);
      assert Relaxed(g, d, c);
    }
  }

  lemma LowerProgress(dists: map<Util.Coord, nat>, heap: multiset<HeapEntry>, d: map<Util.Coord, nat>,
                      h: multiset<HeapEntry>, n: Util.Coord, nd: nat)
    requires dists.Keys <= d.Keys && ((d == dists && h == heap) || Progress(dists, d))
    requires n in d ==> d[n] > nd
    ensures Progress(dists, d[n := nd])
  {
    Util.MapSumUpdate(d, n, nd);
  }

  /** After all four neighbours, every stored cell is pending without exception. */
  lemma Finish(g: Grid, start: Util.Coord, dists: map<Util.Coord, nat>, heap: multiset<HeapEntry>, e: HeapEntry,
               d: map<Util.Coord, nat>, h: multiset<HeapEntry>)
    requires RelaxInv(g, start, dists, heap, e, 4, d, h)
    ensures forall c :: c in d ==> Pending(g, d, h, c)
  {
    forall c | c in d && HeapEntry(c, d[c]) == e
      ensures Relaxed(g, d, c)
    {
      forall n | Step(g, c, n)
        ensures n in d && d[n] <= d[c] + 1
      {
        var j :| 0 <= j < 4 && Neighbours(c)[j] == n;
      }
    }
  }

  // -------------------------------------------------------- reachability

  /** The uncorrupted neighbours of `c`, in the order of the directions. */
  function OpenNeighbours(g: Grid, c: Util.Coord): (r: seq<Util.Coord>)
    ensures forall n :: n in r <==> Step(g, c, n)
  {
    var ns := Neighbours(c);
    (if Open(g, ns[0]) then [ns[0]] else [])
    + (if Open(g, ns[1]) then [ns[1]] else [])
    + (if Open(g, ns[2]) then [ns[2]] else [])
    + (if Open(g, ns[3]) then [ns[3]] else [])
  }

  /** The depth-first search's facts: everything seen is reachable, `end` not yet visited, and every step out of a visited cell is visited or stacked. */
  ghost predicate DfsInv(g: Grid, start: Util.Coord, end: Util.Coord, universe: set<Util.Coord>,
                         visited: set<Util.Coord>, stack: seq<Util.Coord>)
  {
    && (forall c :: c in stack ==> c in universe && Reaches(g, start, c))
    && visited <= universe
    && (forall c :: c in visited ==> Reaches(g, start, c))
    && end !in visited
    && (start in visited || start in stack)
    && (forall a, n :: a in visited && Step(g, a, n) ==> n in visited || n in stack)
  }

  /**
   * Depth-first search from `start`: pops a cell, skips it if visited,
   * otherwise visits it, answers true if it is `end`, and pushes its
   * uncorrupted neighbours. Each cell is expanded at most once.
   */
  method Reachable(g: Grid, start: Util.Coord, end: Util.Coord) returns (r: bool)
    ensures r <==> Reaches(g, start, end)
  {
    var visited: set<Util.Coord> := {};
    var stack := [start];
    ghost var universe := Universe(g, start);
    InUniverse(g, start, start);
    WitnessStart(g, start);
    WitnessReaches(g, start, start, 0);
    while |stack| > 0
      invariant DfsInv(g, start, end, universe, visited, stack)
      decreases |universe - visited|, |stack|
    {
      var next := stack[|stack| - 1];
      ghost var popped := stack;
      stack := stack[..|stack| - 1];
      if next in visited {
        SkipVisited(g, start, end, universe, visited, popped);
        continue;
      }
      Sets.VisitShrinks(universe, visited, next);
      if next == end {
        return true;
      }
      stack := stack + OpenNeighbours(g, next);
      Expand(g, start, end, universe, visited, popped);
      visited := visited + {next};
    }
    Unreachable(g, start, end, visited);
    return false;
  }

  lemma SkipVisited(g: Grid, start: Util.Coord, end: Util.Coord, universe: set<Util.Coord>,
                    visited: set<Util.Coord>, popped: seq<Util.Coord>)
    requires DfsInv(g, start, end, universe, visited, popped) && |popped| > 0 && popped[|popped| - 1] in visited
    ensures DfsInv(g, start, end, universe, visited, popped[..|popped| - 1])
  {
    assert forall c :: c in popped ==> c == popped[|popped| - 1] || c in popped[..|popped| - 1];
  }

  /** Visiting the popped cell and pushing its open neighbours keeps the search's facts. */
  lemma Expand(g: Grid, start: Util.Coord, end: Util.Coord, universe: set<Util.Coord>,
               visited: set<Util.Coord>, popped: seq<Util.Coord>)
    requires universe == Universe(g, start)
    requires DfsInv(g, start, end, universe, visited, popped) && |popped| > 0
    requires popped[|popped| - 1] !in visited && popped[|popped| - 1] != end
    ensures var c := popped[|popped| - 1];
      DfsInv(g, start, end, universe, visited + {c}, popped[..|popped| - 1] + OpenNeighbours(g, c))
  {
    var c := popped[|popped| - 1];
    var rest := popped[..|popped| - 1];
    var stack := rest + OpenNeighbours(g, c);
    assert forall d :: d in popped ==> d == c || d in rest;
    assert c in popped;
    assert Reaches(g, start, c);
    var p :| IsPath(g, p) && p[0] == start && p[|p| - 1] == c;
    assert Witnessed(g, start, c, |p| - 1);
    forall n | n in OpenNeighbours(g, c)
      ensures n in universe && Reaches(g, start, n)
    {
      InUniverse(g, start, n);
      WitnessStep(g, start, c, |p| - 1, n);
    }
  }

  /** A closed set of visited cells holding `start` but not `end` shows `end` cannot be reached. */
  lemma Unreachable(g: Grid, start: Util.Coord, end: Util.Coord, visited: set<Util.Coord>)
    requires start in visited && end !in visited
    requires forall a, n :: a in visited && Step(g, a, n) ==> n in visited
    ensures !Reaches(g, start, end)
  {
    if Reaches(g, start, end) {
      var p :| IsPath(g, p) && p[0] == start && p[|p| - 1] == end;
      ClosedPath(g, visited, p, |p| - 1);
    }
  }

  lemma {:induction false} ClosedPath(g: Grid, visited: set<Util.Coord>, p: seq<Util.Coord>, k: nat)
    requires IsPath(g, p) && p[0] in visited && k < |p|
    requires forall a, n :: a in visited && Step(g, a, n) ==> n in visited
    ensures p[k] in visited
  {
    if k > 0 {
      ClosedPath(g, visited, p, k - 1);
      assert StepAt(g, p, k - 1);
    }
  }

  // ------------------------------------------------------- first blocker

  /** The `k`th further byte leaves `end` out of reach. */
  ghost predicate Blocks(g: Grid, start: Util.Coord, end: Util.Coord, bytes: seq<Util.Coord>, k: nat)
    requires k < |bytes|
  {
    !Reaches(Fallen(g, bytes[..k + 1]), start, end)
  }

  /**
   * Drops the further bytes one at a time onto its own copy of the grid
   * and returns the first after which `end` is out of reach; `None` where
   * the source panics because the path was never blocked.
   */
  method FirstBlocker(rows: Grid, start: Util.Coord, end: Util.Coord, bytes: seq<Util.Coord>) returns (r: Option<Util.Coord>)
    ensures r.None? <==> forall k :: 0 <= k < |bytes| ==> !Blocks(rows, start, end, bytes, k)
    ensures r.Some? ==>
      exists k :: 0 <= k < |bytes| && r.value == bytes[k]
        && Blocks(rows, start, end, bytes, k) && forall j :: 0 <= j < k ==> !Blocks(rows, start, end, bytes, j)
  {
    var grid := new Util.Grid(rows);
    for i := 0 to |bytes|
      invariant grid.rows == Fallen(rows, bytes[..i])
      invariant forall j :: 0 <= j < i ==> !Blocks(rows, start, end, bytes, j)
    {
      FallenStep(rows, bytes, i);
      var _ := grid.Set(bytes[i], Corrupted);
      var current := grid.rows;
      var ok := Reachable(current, start, end);
      if !ok {
        assert Blocks(rows, start, end, bytes, i);
        return Some(bytes[i]);
      }
      forall j | 0 <= j < i + 1
        ensures !Blocks(rows, start, end, bytes, j)
      {
        if j == i {
          assert Reaches(current, start, end);
        }
      }
    }
    return None;
  }

  lemma FallenStep(g: Grid, bytes: seq<Util.Coord>, i: nat)
    requires i < |bytes|
    ensures Fallen(g, bytes[..i + 1]) == Drop(Fallen(g, bytes[..i]), bytes[i])
  {
    assert bytes[..i + 1][..i] == bytes[..i];
  }

  /** More fallen bytes never open a way: once `end` is cut off it stays cut off. */
  lemma BlockedStays(g: Grid, start: Util.Coord, end: Util.Coord, bytes: seq<Util.Coord>, k: nat, k': nat)
    requires k <= k' < |bytes| && Blocks(g, start, end, bytes, k)
    ensures Blocks(g, start, end, bytes, k')
  {
    var fewer, more := Fallen(g, bytes[..k + 1]), Fallen(g, bytes[..k' + 1]);
    if Reaches(more, start, end) {
      var p :| IsPath(more, p) && p[0] == start && p[|p| - 1] == end;
      forall c | Open(more, c)
        ensures Open(fewer, c)
      {
        FallenCells(g, bytes[..k' + 1], c);
        FallenCells(g, bytes[..k + 1], c);
      }
      forall i | 0 <= i < |p| - 1
        ensures StepAt(fewer, p, i)
      {
        assert StepAt(more, p, i);
      }
      assert IsPath(fewer, p);
    }
  }
}
