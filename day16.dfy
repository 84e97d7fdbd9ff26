/**
 * Day 16: the reindeer maze. A state is a cell and a facing; stepping
 * ahead costs 1, turning a quarter and stepping costs 1001, and a
 * reindeer never turns back. A label-correcting search stores the
 * cheapest known cost of every state, and a backward pass from the end
 * collects the cells of the cheapest routes.
 */
module Day16 {
  import opened Wrappers
  import opened Arith
  import Util
  import Sets

  datatype Cell = Empty | Wall

  datatype Maze = Maze(grid: seq<seq<Cell>>, start: Util.Coord, end: Util.Coord)

  type State = (Util.Coord, Util.Direction)

  /** A queued state with the cost it was reached at. */
  datatype HeapEntry = HeapEntry(dist: nat, location: Util.Coord, facing: Util.Direction)

  const StraightCost: nat := 1
  const TurnCost: nat := 1001

  /** The cost of setting off in `dir` when facing `facing`; none for turning back. */
  function StepCost(facing: Util.Direction, dir: Util.Direction): (r: Option<nat>)
    ensures r.None? <==> dir == Util.Opposite(facing)
    ensures r.Some? ==> r.value >= 1
    ensures r == Some(StraightCost) <==> dir == facing
  {
    if dir == facing then Some(StraightCost)
    else if dir == Util.Opposite(facing) then None
    else Some(TurnCost)
  }

  predicate Open(m: Maze, c: Util.Coord)
  {
    Util.Get(m.grid, c) == Some(Empty)
  }

  /** One move: from `s`, face `t.1` (never back) and step into the open cell `t.0`. */
  predicate Edge(m: Maze, s: State, t: State)
  {
    t.0 == Util.Move(s.0, t.1) && StepCost(s.1, t.1).Some? && Open(m, t.0)
  }

  function Cost(s: State, t: State): nat
    requires StepCost(s.1, t.1).Some?
  {
    StepCost(s.1, t.1).value
  }

  /** The moves out of `s` that face one of `dirs`, in the order of `dirs`. */
  function Successors(m: Maze, s: State, dirs: seq<Util.Direction>): (r: seq<State>)
    ensures forall t :: t in r ==> Edge(m, s, t) && t.1 in dirs
  {
    if dirs == [] then []
    else
      var t := (Util.Move(s.0, dirs[0]), dirs[0]);
      var rest := Successors(m, s, dirs[1..]);
      if Edge(m, s, t) then [t] + rest else rest
  }

  /** Every move out of `s` facing one of `dirs` is listed. */
  lemma {:induction false} EdgeListed(m: Maze, s: State, t: State, dirs: seq<Util.Direction>)
    requires Edge(m, s, t) && t.1 in dirs
    ensures t in Successors(m, s, dirs)
  {
    if dirs[0] != t.1 {
      EdgeListed(m, s, t, dirs[1..]);
    }
  }

  /** The reindeer starts on the start cell facing right. */
  function Seed(m: Maze): State
  {
    (m.start, Util.Right)
  }

  // ---------------------------------------------------------------- paths

  ghost predicate IsPath(m: Maze, p: seq<State>)
  {
    |p| >= 1 && forall i :: 0 <= i < |p| - 1 ==> MoveAt(m, p, i)
  }

  /** The `i`th move of `p`, from its `i`th state to the next, is a move of the maze. */
  ghost predicate MoveAt(m: Maze, p: seq<State>, i: int)
  {
    0 <= i < |p| - 1 && Edge(m, p[i], p[i + 1])
  }

  /** The sum of the move costs along a path. */
  ghost function PathCost(m: Maze, p: seq<State>): nat
    requires IsPath(m, p)
    decreases |p|
  {
    if |p| == 1 then 0
    else
      PrefixIsPath(m, p, |p| - 1);
      assert MoveAt(m, p, |p| - 2);
      PathCost(m, p[..|p| - 1]) + Cost(p[|p| - 2], p[|p| - 1])
  }

  /** Every nonempty prefix of a path is a path. */
  lemma PrefixIsPath(m: Maze, p: seq<State>, k: nat)
    requires IsPath(m, p) && 1 <= k <= |p|
    ensures IsPath(m, p[..k])
  {
    forall i | 0 <= i < k - 1
      ensures MoveAt(m, p[..k], i)
    {
      assert MoveAt(m, p, i);
    }
  }

  /** Some path from the seed ends in `s` at cost `cost`. */
  ghost predicate Witnessed(m: Maze, s: State, cost: nat)
  {
    exists p :: IsPath(m, p) && p[0] == Seed(m) && p[|p| - 1] == s && PathCost(m, p) == cost
  }

  lemma WitnessSeed(m: Maze)
    ensures Witnessed(m, Seed(m), 0)
  {
    assert IsPath(m, [Seed(m)]);
  }

  /** Extending a path by one move adds the cost of the move. */
  lemma PathSnoc(m: Maze, p: seq<State>, t: State)
    requires IsPath(m, p) && Edge(m, p[|p| - 1], t)
    ensures IsPath(m, p + [t]) && PathCost(m, p + [t]) == PathCost(m, p) + Cost(p[|p| - 1], t)
  {
    var q := p + [t];
    assert q[..|q| - 1] == p;
    forall i | 0 <= i < |q| - 1
      ensures MoveAt(m, q, i)
    {
      if i < |p| - 1 {
        assert MoveAt(m, p, i);
      }
    }
  }

  /** Two paths that meet in a state join into one path. */
  lemma GlueIsPath(m: Maze, p: seq<State>, q: seq<State>)
    requires IsPath(m, p) && IsPath(m, q) && p[|p| - 1] == q[0]
    ensures IsPath(m, p + q[1..])
  {
    var r := p + q[1..];
    forall i | 0 <= i < |r| - 1
      ensures MoveAt(m, r, i)
    {
      if i < |p| - 1 {
        assert r[i] == p[i] && r[i + 1] == p[i + 1];
        assert MoveAt(m, p, i);
      } else {
        var j := i - |p| + 1;
        assert r[i] == q[j] && r[i + 1] == q[j + 1];
        assert MoveAt(m, q, j);
      }
    }
  }

  /** Joining two paths that meet in a state adds their costs. */
  lemma {:induction false} PathGlue(m: Maze, p: seq<State>, q: seq<State>)
    requires IsPath(m, p) && IsPath(m, q) && p[|p| - 1] == q[0]
    ensures IsPath(m, p + q[1..]) && PathCost(m, p + q[1..]) == PathCost(m, p) + PathCost(m, q)
    decreases |q|
  {
    GlueIsPath(m, p, q);
    if |q| == 1 {
      assert p + q[1..] == p;
    } else {
      var front := q[..|q| - 1];
      PrefixIsPath(m, q, |q| - 1);
      PathGlue(m, p, front);
      var r := p + front[1..];
      var last := q[|q| - 1];
      GlueLast(p, q);
      assert r[|r| - 1] == q[|q| - 2];
      PathCostLast(m, q);
      PathSnoc(m, r, last);
    }
  }

  lemma SplitAt<T>(p: seq<T>, k: nat)
    requires k < |p|
    ensures p[..k + 1] + p[k..][1..] == p
  {
  }

  lemma GlueEnds<T>(p: seq<T>, q: seq<T>)
    requires |p| >= 1 && |q| >= 1
    ensures (p + q[1..])[0] == p[0] && (p + q[1..])[|p + q[1..]| - 1] == (if |q| == 1 then p[|p| - 1] else q[|q| - 1])
    ensures (p + q[1..])[|p| - 1] == p[|p| - 1]
  {
  }

  lemma GlueLast<T>(p: seq<T>, q: seq<T>)
    requires |q| >= 2
    ensures p + q[1..] == (p + q[..|q| - 1][1..]) + [q[|q| - 1]]
  {
  }

  /** The cost of a path of two or more states splits off its last move. */
  lemma PathCostLast(m: Maze, p: seq<State>)
    requires IsPath(m, p) && |p| >= 2
    ensures IsPath(m, p[..|p| - 1]) && Edge(m, p[|p| - 2], p[|p| - 1])
    ensures PathCost(m, p) == PathCost(m, p[..|p| - 1]) + Cost(p[|p| - 2], p[|p| - 1])
  {
    PrefixIsPath(m, p, |p| - 1);
    assert MoveAt(m, p, |p| - 2);
  }

  /** The part of a path from index `k` on is a path. */
  lemma SuffixIsPath(m: Maze, p: seq<State>, k: nat)
    requires IsPath(m, p) && k < |p|
    ensures IsPath(m, p[k..])
  {
    forall i | 0 <= i < |p[k..]| - 1
      ensures MoveAt(m, p[k..], i)
    {
      assert MoveAt(m, p, k + i);
    }
  }

  /** Extending a witnessed path by one move. */
  lemma WitnessStep(m: Maze, s: State, c: nat, t: State)
    requires Witnessed(m, s, c) && Edge(m, s, t)
    ensures Witnessed(m, t, c + Cost(s, t))
  {
    var p :| IsPath(m, p) && p[0] == Seed(m) && p[|p| - 1] == s && PathCost(m, p) == c;
    PathSnoc(m, p, t);
    assert (p + [t])[0] == Seed(m);
  }

  // ---------------------------------------------------------------- search

  /** Every move out of `s` reaches a stored state no dearer than through `s`. */
  ghost predicate Relaxed(m: Maze, dists: map<State, nat>, s: State)
    requires s in dists
  {
    forall t :: Edge(m, s, t) ==> t in dists && dists[t] <= dists[s] + Cost(s, t)
  }

  /** The cells a state can be on: the open cells, and the start. */
  ghost function Universe(m: Maze): set<State>
  {
    var cells := set y, x | 0 <= y < |m.grid| && 0 <= x < |m.grid[y]| :: Util.Coord(x, y);
    {Seed(m)} + set c, d | c in cells && d in {Util.Up, Util.Down, Util.Left, Util.Right} :: (c, d)
  }

  lemma InUniverse(m: Maze, s: State)
    requires s == Seed(m) || Open(m, s.0)
    ensures s in Universe(m)
  {
    if s != Seed(m) {
      var cells := set y, x | 0 <= y < |m.grid| && 0 <= x < |m.grid[y]| :: Util.Coord(x, y);
      assert Util.Coord(s.0.x, s.0.y) in cells;
      assert s.1 in {Util.Up, Util.Down, Util.Left, Util.Right} by {
        match s.1
        case Up =>
        case Down =>
        case Left =>
        case Right =>
      }
    }
  }

  /** The facts the search keeps about its stored costs and its queue. */
  ghost predicate SearchInv(m: Maze, dists: map<State, nat>, heap: multiset<HeapEntry>)
  {
    && Seed(m) in dists && dists[Seed(m)] == 0
    && (forall s :: s in dists ==> s == Seed(m) || Open(m, s.0))
    && (forall s :: s in dists ==> Witnessed(m, s, dists[s]))
    && (forall e :: e in heap ==> Witnessed(m, (e.location, e.facing), e.dist))
  }

  /** Every stored state is queued at its stored cost or already relaxed. */
  ghost predicate Pending(m: Maze, dists: map<State, nat>, heap: multiset<HeapEntry>, s: State)
    requires s in dists
  {
    HeapEntry(dists[s], s.0, s.1) in heap || Relaxed(m, dists, s)
  }

  /** Progress of one relaxation: nothing, a new state, or a lower total. */
  ghost predicate Progress(before: map<State, nat>, after: map<State, nat>)
  {
    before.Keys < after.Keys || (before.Keys == after.Keys && Util.MapSum(after) < Util.MapSum(before))
  }

  /** A nonempty queue has an entry of largest cost. */
  lemma {:induction false} MaxEntry(heap: multiset<HeapEntry>) returns (e: HeapEntry)
    requires heap != multiset{}
    ensures e in heap && forall f :: f in heap ==> f.dist <= e.dist
    decreases |heap|
  {
    var x :| x in heap;
    var rest := heap - multiset{x};
    assert heap == rest + multiset{x};
    if rest == multiset{} {
      e := x;
      forall f | f in heap
        ensures f.dist <= e.dist
      {
        assert f in multiset{x};
      }
    } else {
      var best := MaxEntry(rest);
      e := if x.dist <= best.dist then best else x;
      forall f | f in heap
        ensures f.dist <= e.dist
      {
        if f != x {
          assert f in rest;
        }
      }
    }
  }

  /**
   * The search: from (start, right) at cost 0, repeatedly pops a queued
   * entry of largest cost (the queue orders by cost and pops the greatest)
   * and offers each move out of it; a state's stored cost is set when it
   * is first reached and only ever lowered, and every change re-queues the
   * state. When the queue runs dry every stored cost is the cost of a real
   * path and no move out of a stored state can beat a stored cost.
   */
  method Dijkstra(m: Maze) returns (dists: map<State, nat>)
    ensures Seed(m) in dists && dists[Seed(m)] == 0
    ensures forall s :: s in dists ==> s == Seed(m) || Open(m, s.0)
    ensures forall s :: s in dists ==> Witnessed(m, s, dists[s])
    ensures forall s :: s in dists ==> Relaxed(m, dists, s)
  {
    dists := map[Seed(m) := 0];
    var heap := multiset{HeapEntry(0, m.start, Util.Right)};
    WitnessSeed(m);
    ghost var universe := Universe(m);
    InUniverse(m, Seed(m));
    while heap != multiset{}
      invariant SearchInv(m, dists, heap)
      invariant dists.Keys <= universe
      invariant forall s :: s in dists ==> Pending(m, dists, heap, s)
      decreases |universe - dists.Keys|, Util.MapSum(dists), |heap|
    {
      ghost var top := MaxEntry(heap);
      var e :| e in heap && forall f :: f in heap ==> f.dist <= e.dist;
      PopPending(m, dists, heap, e);
      heap := heap - multiset{e};
      ghost var before := dists;
      ghost var queued := heap;
      dists, heap := Relax(m, dists, heap, e);
      StaysInUniverse(m, universe, before, queued, dists, heap);
    }
  }

  /** Taking `e` off the queue leaves every stored state pending, or stored as `e`. */
  lemma PopPending(m: Maze, dists: map<State, nat>, heap: multiset<HeapEntry>, e: HeapEntry)
    requires e in heap && forall s :: s in dists ==> Pending(m, dists, heap, s)
    ensures forall s :: s in dists ==> Pending(m, dists, heap - multiset{e}, s) || HeapEntry(dists[s], s.0, s.1) == e
  {
  }

  /** After a relaxation the distances still cover only states of the maze, and fewer of them are unreached when more are reached. */
  lemma StaysInUniverse(m: Maze, universe: set<State>, before: map<State, nat>, queued: multiset<HeapEntry>,
                        dists: map<State, nat>, heap: multiset<HeapEntry>)
    requires universe == Universe(m) && before.Keys <= universe
    requires SearchInv(m, dists, heap)
    requires (dists == before && heap == queued) || Progress(before, dists)
    ensures dists.Keys <= universe
    ensures || (dists == before && heap == queued)
            || |universe - dists.Keys| < |universe - before.Keys|
            || (|universe - dists.Keys| == |universe - before.Keys| && Util.MapSum(dists) < Util.MapSum(before))
  {
    forall s | s in dists
      ensures s in universe
    {
      InUniverse(m, s);
    }
    if before.Keys < dists.Keys {
      Sets.ProperSubsetCardinality(universe - dists.Keys, universe - before.Keys);
    }
  }

  /** The facts of relaxing `e` after the moves in the first `i` directions have been offered. */
  ghost predicate RelaxInv(m: Maze, dists: map<State, nat>, heap: multiset<HeapEntry>, e: HeapEntry, i: nat,
                           dists': map<State, nat>, heap': multiset<HeapEntry>)
    requires i <= 4
  {
    var here := (e.location, e.facing);
    && SearchInv(m, dists', heap')
    && dists.Keys <= dists'.Keys && heap <= heap'
    && (here in dists ==> here in dists' && dists'[here] == dists[here])
    && (forall s :: s in dists' ==> Pending(m, dists', heap', s) || (HeapEntry(dists'[s], s.0, s.1) == e && s == here))
    && (forall t :: Edge(m, here, t) && t.1 in Util.AllDirections()[..i] ==> t in dists' && dists'[t] <= e.dist + Cost(here, t))
    && ((dists' == dists && heap' == heap) || Progress(dists, dists'))
  }

  /**
   * Offers every move out of the popped entry `e`: a move into an open
   * cell that reaches a state not stored yet, or stored at a higher cost,
   * stores the new cost and queues the state.
   */
  method Relax(m: Maze, dists: map<State, nat>, heap: multiset<HeapEntry>, e: HeapEntry)
    returns (dists': map<State, nat>, heap': multiset<HeapEntry>)
    requires SearchInv(m, dists, heap) && Witnessed(m, (e.location, e.facing), e.dist)
    requires forall s :: s in dists ==> Pending(m, dists, heap, s) || HeapEntry(dists[s], s.0, s.1) == e
    ensures SearchInv(m, dists', heap')
    ensures forall s :: s in dists' ==> Pending(m, dists', heap', s)
    ensures (dists' == dists && heap' == heap) || Progress(dists, dists')
  {
    dists', heap' := dists, heap;
    var dirs := Util.AllDirections();
    var here := (e.location, e.facing);
    RelaxStart(m, dists, heap, e);
    for i := 0 to 4
      invariant RelaxInv(m, dists, heap, e, i, dists', heap')
    {
      ghost var d0, h0 := dists', heap';
      dists', heap' := RelaxOne(m, dists', heap', e, dirs[i]);
      RelaxAdvance(m, dists, heap, e, i, d0, h0, dists', heap');
    }
    RelaxDone(m, dists, heap, e, dists', heap');
  }

  /** Offering the `i`-th move keeps the facts and extends them to that move. */
  lemma RelaxAdvance(m: Maze, dists: map<State, nat>, heap: multiset<HeapEntry>, e: HeapEntry, i: nat,
                     d0: map<State, nat>, h0: multiset<HeapEntry>, d1: map<State, nat>, h1: multiset<HeapEntry>)
    requires i < 4 && RelaxInv(m, dists, heap, e, i, d0, h0) && Witnessed(m, (e.location, e.facing), e.dist)
    requires Offered(m, d0, h0, e, Util.AllDirections()[i], d1, h1)
    ensures RelaxInv(m, dists, heap, e, i + 1, d1, h1)
  {
    var here := (e.location, e.facing);
    var t := (Util.Move(e.location, Util.AllDirections()[i]), Util.AllDirections()[i]);
    if Edge(m, here, t) && (t !in d0 || d0[t] > e.dist + Cost(here, t)) {
      var nd := e.dist + Cost(here, t);
      assert d1 == d0[t := nd] && h1 == h0 + multiset{HeapEntry(nd, t.0, t.1)};
      RelaxImproves(m, dists, heap, e, i, d0, h0, t, nd);
    } else {
      assert d1 == d0 && h1 == h0;
      RelaxSkips(m, dists, heap, e, i, d0, h0);
    }
  }

  /** Before any move is offered the facts hold of the unchanged search. */
  lemma RelaxStart(m: Maze, dists: map<State, nat>, heap: multiset<HeapEntry>, e: HeapEntry)
    requires SearchInv(m, dists, heap)
    requires forall s :: s in dists ==> Pending(m, dists, heap, s) || HeapEntry(dists[s], s.0, s.1) == e
    ensures RelaxInv(m, dists, heap, e, 0, dists, heap)
  {
    forall s | s in dists && !Pending(m, dists, heap, s)
      ensures s == (e.location, e.facing)
    {
      assert HeapEntry(dists[s], s.0, s.1) == e;
    }
  }

  /** After all four directions the popped state is relaxed, so every state is pending. */
  lemma RelaxDone(m: Maze, dists: map<State, nat>, heap: multiset<HeapEntry>, e: HeapEntry,
                  dists': map<State, nat>, heap': multiset<HeapEntry>)
    requires RelaxInv(m, dists, heap, e, 4, dists', heap')
    ensures forall s :: s in dists' ==> Pending(m, dists', heap', s)
  {
    var here := (e.location, e.facing);
    var dirs := Util.AllDirections();
    assert dirs[..4] == dirs;
    forall s | s in dists' && !Pending(m, dists', heap', s)
      ensures false
    {
      assert HeapEntry(dists'[s], s.0, s.1) == e && s == here;
      forall t | Edge(m, here, t)
        ensures t in dists' && dists'[t] <= dists'[here] + Cost(here, t)
      {
        assert t.1 in dirs[..4];
      }
    }
  }

  /** An offered move that does not improve anything leaves the search as it was. */
  lemma RelaxSkips(m: Maze, dists: map<State, nat>, heap: multiset<HeapEntry>, e: HeapEntry, i: nat,
                   d0: map<State, nat>, h0: multiset<HeapEntry>)
    requires i < 4 && RelaxInv(m, dists, heap, e, i, d0, h0)
    requires var here := (e.location, e.facing);
      var t := (Util.Move(e.location, Util.AllDirections()[i]), Util.AllDirections()[i]);
      !(Edge(m, here, t) && (t !in d0 || d0[t] > e.dist + Cost(here, t)))
    ensures RelaxInv(m, dists, heap, e, i + 1, d0, h0)
  {
    var here := (e.location, e.facing);
    var dirs := Util.AllDirections();
    forall t | Edge(m, here, t) && t.1 in dirs[..i + 1]
      ensures t in d0 && d0[t] <= e.dist + Cost(here, t)
    {
      if t.1 != dirs[i] {
        assert t.1 in dirs[..i];
      }
    }
  }

  /** An offered move that improves a state keeps every fact of the relaxation. */
  lemma RelaxImproves(m: Maze, dists: map<State, nat>, heap: multiset<HeapEntry>, e: HeapEntry, i: nat,
                      d0: map<State, nat>, h0: multiset<HeapEntry>, t: State, nd: nat)
    requires i < 4 && RelaxInv(m, dists, heap, e, i, d0, h0) && Witnessed(m, (e.location, e.facing), e.dist)
    requires t == (Util.Move(e.location, Util.AllDirections()[i]), Util.AllDirections()[i])
    requires Edge(m, (e.location, e.facing), t) && nd == e.dist + Cost((e.location, e.facing), t)
    requires t !in d0 || d0[t] > nd
    ensures RelaxInv(m, dists, heap, e, i + 1, d0[t := nd], h0 + multiset{HeapEntry(nd, t.0, t.1)})
  {
    var here := (e.location, e.facing);
    ImproveSearch(m, dists, d0, h0, e, t, nd);
    MoveElsewhere(e.location, t.1);
    KeepsEarlier(dists, heap, d0, h0, here, t, nd);
    ImprovePending(m, d0, h0, e, t, nd);
    ImproveReaches(m, d0, e, i, t, nd);
  }

  /** A move always leaves its cell. */
  lemma MoveElsewhere(c: Util.Coord, d: Util.Direction)
    ensures Util.Move(c, d) != c
  {
  }

  /** Improving a state other than `here` keeps what the relaxation had before and `here`'s distance. */
  lemma KeepsEarlier(dists: map<State, nat>, heap: multiset<HeapEntry>, d0: map<State, nat>, h0: multiset<HeapEntry>,
                     here: State, t: State, nd: nat)
    requires dists.Keys <= d0.Keys && heap <= h0 && t != here
    requires here in dists ==> here in d0 && d0[here] == dists[here]
    ensures var d1, h1 := d0[t := nd], h0 + multiset{HeapEntry(nd, t.0, t.1)};
      dists.Keys <= d1.Keys && heap <= h1 && (here in dists ==> here in d1 && d1[here] == dists[here])
  {
  }

  /** Improving `t` through a move out of a witnessed entry keeps the search facts and makes progress. */
  lemma ImproveSearch(m: Maze, dists: map<State, nat>, d0: map<State, nat>, h0: multiset<HeapEntry>,
                      e: HeapEntry, t: State, nd: nat)
    requires SearchInv(m, d0, h0) && Witnessed(m, (e.location, e.facing), e.dist)
    requires dists.Keys <= d0.Keys && (d0 == dists || Progress(dists, d0))
    requires Edge(m, (e.location, e.facing), t) && nd == e.dist + Cost((e.location, e.facing), t)
    requires t !in d0 || d0[t] > nd
    ensures SearchInv(m, d0[t := nd], h0 + multiset{HeapEntry(nd, t.0, t.1)})
    ensures Progress(dists, d0[t := nd])
  {
    WitnessStep(m, (e.location, e.facing), e.dist, t);
    assert t != Seed(m);
    Improve(m, d0, h0, t, nd);
    ImproveProgress(d0, t, nd);
    ProgressStep(dists, d0, d0[t := nd]);
  }

  /** Improving `t` keeps every other state pending and queues `t`. */
  lemma ImprovePending(m: Maze, d0: map<State, nat>, h0: multiset<HeapEntry>, e: HeapEntry, t: State, nd: nat)
    requires forall s :: s in d0 ==> Pending(m, d0, h0, s) || (HeapEntry(d0[s], s.0, s.1) == e && s == (e.location, e.facing))
    requires t !in d0 || d0[t] > nd
    ensures var d1, h1 := d0[t := nd], h0 + multiset{HeapEntry(nd, t.0, t.1)};
      forall s :: s in d1 ==> Pending(m, d1, h1, s) || (HeapEntry(d1[s], s.0, s.1) == e && s == (e.location, e.facing))
  {
    var d1, h1 := d0[t := nd], h0 + multiset{HeapEntry(nd, t.0, t.1)};
    forall s | s in d1
      ensures Pending(m, d1, h1, s) || (HeapEntry(d1[s], s.0, s.1) == e && s == (e.location, e.facing))
    {
      if s != t && Relaxed(m, d0, s) {
        RelaxedLowered(m, d0, t, nd, s);
      }
    }
  }

  /** After improving `t` in direction `i`, every move in the first `i + 1` directions is covered. */
  lemma ImproveReaches(m: Maze, d0: map<State, nat>, e: HeapEntry, i: nat, t: State, nd: nat)
    requires i < 4
    requires var here := (e.location, e.facing);
      forall u :: Edge(m, here, u) && u.1 in Util.AllDirections()[..i] ==> u in d0 && d0[u] <= e.dist + Cost(here, u)
    requires t == (Util.Move(e.location, Util.AllDirections()[i]), Util.AllDirections()[i])
    requires Edge(m, (e.location, e.facing), t) && nd == e.dist + Cost((e.location, e.facing), t)
    requires t !in d0 || d0[t] > nd
    ensures var here, d1 := (e.location, e.facing), d0[t := nd];
      forall u :: Edge(m, here, u) && u.1 in Util.AllDirections()[..i + 1] ==> u in d1 && d1[u] <= e.dist + Cost(here, u)
  {
    var here, d1 := (e.location, e.facing), d0[t := nd];
    var dirs := Util.AllDirections();
    forall u | Edge(m, here, u) && u.1 in dirs[..i + 1]
      ensures u in d1 && d1[u] <= e.dist + Cost(here, u)
    {
      if u.1 != dirs[i] {
        assert u.1 in dirs[..i];
      }
    }
  }

  /** Lowering another state's cost keeps a relaxed state relaxed. */
  lemma RelaxedLowered(m: Maze, dists: map<State, nat>, t: State, nd: nat, s: State)
    requires s in dists && s != t && Relaxed(m, dists, s)
    requires t !in dists || dists[t] > nd
    ensures Relaxed(m, dists[t := nd], s)
  {
  }

  /**
   * The move from `e` in direction `dir`, when it enters an open cell and
   * improves on the stored cost, stores the new cost and queues the state;
   * otherwise nothing changes.
   */
  ghost predicate Offered(m: Maze, dists: map<State, nat>, heap: multiset<HeapEntry>, e: HeapEntry, dir: Util.Direction,
                          dists': map<State, nat>, heap': multiset<HeapEntry>)
  {
    var t := (Util.Move(e.location, dir), dir);
    if Edge(m, (e.location, e.facing), t) && (t !in dists || dists[t] > e.dist + Cost((e.location, e.facing), t))
    then dists' == dists[t := e.dist + Cost((e.location, e.facing), t)]
      && heap' == heap + multiset{HeapEntry(e.dist + Cost((e.location, e.facing), t), t.0, t.1)}
    else dists' == dists && heap' == heap
  }

  /** The move in direction `dir` out of entry `e`: stored and queued when it improves. */
  method RelaxOne(m: Maze, dists: map<State, nat>, heap: multiset<HeapEntry>, e: HeapEntry, dir: Util.Direction)
    returns (dists': map<State, nat>, heap': multiset<HeapEntry>)
    ensures Offered(m, dists, heap, e, dir, dists', heap')
  {
    dists', heap' := dists, heap;
    var newDist;
    if dir == e.facing {
      newDist := e.dist + StraightCost;
    } else if dir == Util.Opposite(e.facing) {
      return;
    } else {
      newDist := e.dist + TurnCost;
    }
    var neighbor := Util.Move(e.location, dir);
    if Util.Get(m.grid, neighbor) != Some(Empty) {
      return;
    }
    if (neighbor, dir) in dists {
      var oldDist := dists[(neighbor, dir)];
      if oldDist > newDist {
        dists' := dists[(neighbor, dir) := newDist];
        heap' := heap + multiset{HeapEntry(newDist, neighbor, dir)};
      }
    } else {
      dists' := dists[(neighbor, dir) := newDist];
      heap' := heap + multiset{HeapEntry(newDist, neighbor, dir)};
    }
  }

  /** Storing a better witnessed cost for an open state keeps the search facts. */
  lemma Improve(m: Maze, dists: map<State, nat>, heap: multiset<HeapEntry>, t: State, nd: nat)
    requires SearchInv(m, dists, heap) && Witnessed(m, t, nd) && Open(m, t.0) && t != Seed(m)
    ensures SearchInv(m, dists[t := nd], heap + multiset{HeapEntry(nd, t.0, t.1)})
  {
    var heap' := heap + multiset{HeapEntry(nd, t.0, t.1)};
    forall f | f in heap'
      ensures Witnessed(m, (f.location, f.facing), f.dist)
    {
      if f != HeapEntry(nd, t.0, t.1) {
        assert f in heap;
      }
    }
  }

  /** Storing a new state or a lower cost is progress. */
  lemma ImproveProgress(dists: map<State, nat>, t: State, nd: nat)
    requires t !in dists || dists[t] > nd
    ensures Progress(dists, dists[t := nd])
  {
    if t in dists {
      Util.MapSumUpdate(dists, t, nd);
      assert dists[t := nd].Keys == dists.Keys;
    } else {
      assert t in dists[t := nd].Keys - dists.Keys;
    }
  }

  /** Progress adds up over consecutive relaxations. */
  lemma ProgressStep(a: map<State, nat>, b: map<State, nat>, c: map<State, nat>)
    requires a.Keys <= b.Keys <= c.Keys
    requires b == a || Progress(a, b)
    requires c == b || Progress(b, c)
    ensures c == a || Progress(a, c)
  {
  }

  // ---------------------------------------------------------------- optimality

  /** Facts the search establishes about its result, for a maze whose start and end are open. */
  ghost predicate Exact(m: Maze, dists: map<State, nat>)
  {
    && Open(m, m.start) && Open(m, m.end)
    && Seed(m) in dists && dists[Seed(m)] == 0
    && (forall s :: s in dists ==> Open(m, s.0))
    && (forall s :: s in dists ==> Witnessed(m, s, dists[s]))
    && (forall s :: s in dists ==> Relaxed(m, dists, s))
  }

  /**
   * Relaxed costs bound every path: a path from the seed ends in a stored
   * state, and its cost is at least the stored one.
   */
  lemma {:induction false} Optimal(m: Maze, dists: map<State, nat>, p: seq<State>)
    requires Seed(m) in dists && dists[Seed(m)] == 0
    requires forall s :: s in dists ==> Relaxed(m, dists, s)
    requires IsPath(m, p) && p[0] == Seed(m)
    ensures p[|p| - 1] in dists && dists[p[|p| - 1]] <= PathCost(m, p)
    decreases |p|
  {
    if |p| > 1 {
      var q := p[..|p| - 1];
      PrefixIsPath(m, p, |p| - 1);
      Optimal(m, dists, q);
      assert MoveAt(m, p, |p| - 2);
    }
  }

  /** The cheapest stored cost of the end cell over the facings `dirs`; none when none is stored. */
  function MinOver(dists: map<State, nat>, end: Util.Coord, dirs: seq<Util.Direction>): (r: Option<nat>)
    ensures r.None? <==> forall d :: d in dirs ==> (end, d) !in dists
    ensures r.Some? ==> exists d :: d in dirs && (end, d) in dists && dists[(end, d)] == r.value
    ensures r.Some? ==> forall d :: d in dirs && (end, d) in dists ==> r.value <= dists[(end, d)]
  {
    if dirs == [] then None
    else
      var rest := MinOver(dists, end, dirs[1..]);
      if (end, dirs[0]) !in dists then rest
      else if rest.Some? && rest.value < dists[(end, dirs[0])] then rest
      else Some(dists[(end, dirs[0])])
  }

  /** The cheapest cost of reaching the end cell, in any facing. */
  function Shortest(m: Maze, dists: map<State, nat>): Option<nat>
  {
    MinOver(dists, m.end, Util.AllDirections())
  }

  /** `p` is a route: a path from the seed that ends on the end cell. */
  ghost predicate Route(m: Maze, p: seq<State>)
  {
    IsPath(m, p) && p[0] == Seed(m) && p[|p| - 1].0 == m.end
  }

  /**
   * Over the search's result, the shortest cost is the cost of some route
   * and no route is cheaper; there is none exactly when no route exists.
   */
  lemma ShortestIsCheapest(m: Maze, dists: map<State, nat>)
    requires Exact(m, dists)
    ensures Shortest(m, dists).None? <==> forall p :: Route(m, p) ==> false
    ensures Shortest(m, dists).Some? ==> exists p :: Route(m, p) && PathCost(m, p) == Shortest(m, dists).value
    ensures Shortest(m, dists).Some? ==> forall p :: Route(m, p) ==> Shortest(m, dists).value <= PathCost(m, p)
  {
    var r := Shortest(m, dists);
    forall p: seq<State> | Route(m, p)
      ensures r.Some? && r.value <= PathCost(m, p)
    {
      RouteBounds(m, dists, p);
    }
    if r.Some? {
      ShortestReached(m, dists);
    }
  }

  /** Every route ends on a stored state of the end cell at no more than its cost. */
  lemma RouteBounds(m: Maze, dists: map<State, nat>, p: seq<State>)
    requires Seed(m) in dists && dists[Seed(m)] == 0
    requires forall s :: s in dists ==> Relaxed(m, dists, s)
    requires Route(m, p)
    ensures Shortest(m, dists).Some? && Shortest(m, dists).value <= PathCost(m, p)
  {
    Optimal(m, dists, p);
    assert p[|p| - 1] == (m.end, p[|p| - 1].1);
  }

  /** The shortest stored cost at the end cell is the cost of a route. */
  lemma ShortestReached(m: Maze, dists: map<State, nat>)
    requires forall s :: s in dists ==> Witnessed(m, s, dists[s])
    requires Shortest(m, dists).Some?
    ensures exists p :: Route(m, p) && PathCost(m, p) == Shortest(m, dists).value
  {
    var r := Shortest(m, dists);
    var d :| d in Util.AllDirections() && (m.end, d) in dists && dists[(m.end, d)] == r.value;
    assert Witnessed(m, (m.end, d), dists[(m.end, d)]);
    var p :| IsPath(m, p) && p[0] == Seed(m) && p[|p| - 1] == (m.end, d) && PathCost(m, p) == dists[(m.end, d)];
    assert Route(m, p);
  }

  // ---------------------------------------------------------------- backward pass

  /** A stack entry of the backward pass: a cell, a facing and the cost it should be reached at. */
  type Trail = (Util.Coord, Util.Direction, nat)

  /** The state one move before entry `e`, facing `dir`. */
  function Pred(e: Trail, dir: Util.Direction): State
  {
    (Util.Move(e.0, Util.Opposite(e.1)), dir)
  }

  /** The stored cost of `Pred(e, dir)` plus the move into `e` is exactly the cost of `e`. */
  predicate Feeds(dists: map<State, nat>, e: Trail, dir: Util.Direction)
  {
    dir != Util.Opposite(e.1) && Pred(e, dir) in dists
    && dists[Pred(e, dir)] + (if dir == e.1 then StraightCost else TurnCost) == e.2
  }

  function Entry(s: State, c: nat): Trail
  {
    (s.0, s.1, c)
  }

  /** The end cell in each facing of `facings`. */
  function Goals(m: Maze, facings: seq<Util.Direction>): set<State>
  {
    set d | d in facings :: (m.end, d)
  }

  function Cells(p: seq<State>): set<Util.Coord>
  {
    set i | 0 <= i < |p| :: p[i].0
  }

  /** From `s`, reached at cost `c`, some path leads to a goal for a total of `cost`. */
  ghost predicate Leads(m: Maze, s: State, c: nat, goals: set<State>, cost: nat)
  {
    exists q :: IsPath(m, q) && q[0] == s && q[|q| - 1] in goals && c + PathCost(m, q) == cost
  }

  /** `x` is a cell of a path from the seed to a goal that costs `cost`. */
  ghost predicate OnRoute(m: Maze, x: Util.Coord, goals: set<State>, cost: nat)
  {
    exists p :: IsPath(m, p) && p[0] == Seed(m) && p[|p| - 1] in goals && PathCost(m, p) == cost && x in Cells(p)
  }

  /** Every stacked entry leads to a goal, and every collected cell lies on a route of the cost. */
  ghost predicate Sound(m: Maze, stack: seq<Trail>, points: set<Util.Coord>, goals: set<State>, cost: nat)
  {
    && (forall e :: e in stack ==> Open(m, e.0) && Leads(m, (e.0, e.1), e.2, goals, cost))
    && (forall x :: x in points ==> x == m.end || OnRoute(m, x, goals, cost))
  }

  /** Every entry that feeds a processed entry is processed or stacked, and its cell is collected. */
  ghost predicate Closed(dists: map<State, nat>, done: set<Trail>, stack: seq<Trail>, points: set<Util.Coord>)
  {
    forall e, dir {:trigger Feeds(dists, e, dir)} :: e in done && Feeds(dists, e, dir) ==>
      (Entry(Pred(e, dir), dists[Pred(e, dir)]) in done || Entry(Pred(e, dir), dists[Pred(e, dir)]) in stack)
      && Pred(e, dir).0 in points
  }

  /** The pending work of the backward pass: every entry counts five to the power of its cost. */
  function Weight(stack: seq<Trail>): nat
  {
    if stack == [] then 0
    else
      PowPositive(5, stack[|stack| - 1].2);
      Weight(stack[..|stack| - 1]) + Pow(5, stack[|stack| - 1].2)
  }

  lemma WeightPush(stack: seq<Trail>, e: Trail)
    ensures Weight(stack + [e]) == Weight(stack) + Pow(5, e.2)
  {
    assert (stack + [e])[..|stack|] == stack;
  }

  /** Entry `e`'s state is reached from `Pred(e, dir)` by one move of the cost `Feeds` adds. */
  lemma FeedsEdge(m: Maze, dists: map<State, nat>, e: Trail, dir: Util.Direction)
    requires Feeds(dists, e, dir) && Open(m, e.0)
    ensures Edge(m, Pred(e, dir), (e.0, e.1))
    ensures dists[Pred(e, dir)] + Cost(Pred(e, dir), (e.0, e.1)) == e.2
  {
    Util.MoveOpposite(e.0, Util.Opposite(e.1));
    Util.OppositeInvolution(e.1);
    Util.OppositeInvolution(dir);
  }

  /** The predecessor of a leading entry leads too, and its cell lies on a route. */
  lemma FeedsSound(m: Maze, dists: map<State, nat>, e: Trail, dir: Util.Direction, goals: set<State>, cost: nat)
    requires Exact(m, dists) && Open(m, e.0) && Leads(m, (e.0, e.1), e.2, goals, cost) && Feeds(dists, e, dir)
    ensures Open(m, Pred(e, dir).0)
    ensures Leads(m, Pred(e, dir), dists[Pred(e, dir)], goals, cost)
    ensures OnRoute(m, Pred(e, dir).0, goals, cost)
  {
    var s := Pred(e, dir);
    FeedsEdge(m, dists, e, dir);
    LeadsBack(m, s, (e.0, e.1), dists[s], goals, cost);
    RouteThrough(m, s, dists[s], goals, cost);
  }

  /** One move before a state that leads to a goal, a state leads there too. */
  lemma LeadsBack(m: Maze, s: State, t: State, c: nat, goals: set<State>, cost: nat)
    requires Edge(m, s, t) && Leads(m, t, c + Cost(s, t), goals, cost)
    ensures Leads(m, s, c, goals, cost)
  {
    var q :| IsPath(m, q) && q[0] == t && q[|q| - 1] in goals && c + Cost(s, t) + PathCost(m, q) == cost;
    assert IsPath(m, [s]);
    PathSnoc(m, [s], t);
    var st := [s] + [t];
    PathGlue(m, st, q);
    var sq := st + q[1..];
    assert sq[0] == s && sq[|sq| - 1] == q[|q| - 1];
  }

  /** A witnessed state that leads to a goal lies on a route of the total cost. */
  lemma RouteThrough(m: Maze, s: State, c: nat, goals: set<State>, cost: nat)
    requires Witnessed(m, s, c) && Leads(m, s, c, goals, cost)
    ensures OnRoute(m, s.0, goals, cost)
  {
    var w :| IsPath(m, w) && w[0] == Seed(m) && w[|w| - 1] == s && PathCost(m, w) == c;
    var q :| IsPath(m, q) && q[0] == s && q[|q| - 1] in goals && c + PathCost(m, q) == cost;
    PathGlue(m, w, q);
    var full := w + q[1..];
    assert full[0] == Seed(m) && full[|full| - 1] == q[|q| - 1];
    assert full[|w| - 1] == s;
    assert s.0 in Cells(full);
  }

  /**
   * The backward pass: from the end cell in each facing of `facings` at
   * cost `cost`, repeatedly pops an entry and pushes every state one move
   * before it whose stored cost plus that move is exactly the entry's
   * cost, collecting the cells it pushes. When the search's costs are
   * exact, the cells collected are the end and the cells of the routes
   * into a goal at that cost; when `cost` is also the cheapest cost of
   * the end, every cell of such a route is collected.
   */
  method Backtrack(m: Maze, dists: map<State, nat>, cost: nat, facings: seq<Util.Direction>)
    returns (points: set<Util.Coord>)
    ensures m.end in points
    ensures Exact(m, dists) ==> forall x :: x in points ==> x == m.end || OnRoute(m, x, Goals(m, facings), cost)
    ensures Exact(m, dists) && Shortest(m, dists) == Some(cost) ==>
      forall p :: IsPath(m, p) && p[0] == Seed(m) && p[|p| - 1] in Goals(m, facings) && PathCost(m, p) == cost ==> Cells(p) <= points
  {
    ghost var goals := Goals(m, facings);
    points := {m.end};
    var stack: seq<Trail> := [];
    for i := 0 to |facings|
      invariant forall e :: e in stack ==> e.0 == m.end && e.1 in facings && e.2 == cost
      invariant forall j :: 0 <= j < i ==> (m.end, facings[j], cost) in stack
    {
      stack := stack + [(m.end, facings[i], cost)];
    }
    ghost var done: set<Trail> := {};
    ghost var exact := Exact(m, dists);
    if exact {
      forall e | e in stack
        ensures Open(m, e.0) && Leads(m, (e.0, e.1), e.2, goals, cost)
      {
        assert IsPath(m, [(e.0, e.1)]);
      }
    }
    while stack != []
      invariant m.end in points
      invariant exact ==> Exact(m, dists) && Sound(m, stack, points, goals, cost)
      invariant forall f :: f in facings ==> (m.end, f, cost) in done || (m.end, f, cost) in stack
      invariant Closed(dists, done, stack, points)
      decreases Weight(stack)
    {
      var top := stack[|stack| - 1];
      ghost var before := stack;
      stack := stack[..|stack| - 1];
      assert before == stack + [top];
      WeightPush(stack, top);
      ghost var points0 := points;
      stack, points := Expand(m, dists, top, stack, points, goals, cost);
      done := done + {top};
    }
    if exact && Shortest(m, dists) == Some(cost) {
      BacktrackComplete(m, dists, cost, facings, done, points);
    }
  }

  /** A closed backward pass that processed every goal entry collects every cell of every cheapest route. */
  lemma BacktrackComplete(m: Maze, dists: map<State, nat>, cost: nat, facings: seq<Util.Direction>,
                          done: set<Trail>, points: set<Util.Coord>)
    requires Exact(m, dists) && Shortest(m, dists) == Some(cost)
    requires Closed(dists, done, [], points) && m.end in points
    requires forall f :: f in facings ==> (m.end, f, cost) in done
    ensures forall p :: IsPath(m, p) && p[0] == Seed(m) && p[|p| - 1] in Goals(m, facings) && PathCost(m, p) == cost ==> Cells(p) <= points
  {
    forall p: seq<State> | IsPath(m, p) && p[0] == Seed(m) && p[|p| - 1] in Goals(m, facings) && PathCost(m, p) == cost
      ensures Cells(p) <= points
    {
      var g := p[|p| - 1];
      assert g.1 in facings;
      assert g.1 in Util.AllDirections();
      Optimal(m, dists, p);
      CheapestIsTight(m, dists, p);
      GoalCovered(m, dists, done, points, p);
    }
  }

  /** The cost up to the last state is the cost of the whole path. */
  lemma LastCostTo(m: Maze, p: seq<State>)
    requires IsPath(m, p)
    ensures CostTo(m, p, |p| - 1) == PathCost(m, p)
  {
    assert p[..|p|] == p;
  }

  /** A tight path whose last entry was processed has all its cells collected. */
  lemma GoalCovered(m: Maze, dists: map<State, nat>, done: set<Trail>, points: set<Util.Coord>, p: seq<State>)
    requires Closed(dists, done, [], points)
    requires IsPath(m, p) && Tight(m, dists, p)
    requires Entry(p[|p| - 1], PathCost(m, p)) in done && p[|p| - 1].0 in points
    ensures Cells(p) <= points
  {
    LastCostTo(m, p);
    ClosedCovers(m, dists, done, points, p, |p| - 1);
    CellsWithin(p, points);
  }

  /** A path whose every state stands on a collected cell has all its cells collected. */
  lemma CellsWithin(p: seq<State>, points: set<Util.Coord>)
    requires forall j :: 0 <= j < |p| ==> p[j].0 in points
    ensures Cells(p) <= points
  {
    forall x | x in Cells(p)
      ensures x in points
    {
      var i :| 0 <= i < |p| && p[i].0 == x;
    }
  }

  /**
   * The body of the backward pass for the popped entry `top`: offers each
   * facing the reindeer could have had one move before it and pushes the
   * state when its stored cost plus the move is exactly `top`'s cost.
   */
  method Expand(m: Maze, dists: map<State, nat>, top: Trail, stack: seq<Trail>, points: set<Util.Coord>,
                ghost goals: set<State>, ghost cost: nat)
    returns (stack': seq<Trail>, points': set<Util.Coord>)
    ensures forall e :: e in stack ==> e in stack'
    ensures points <= points'
    ensures forall dir :: Feeds(dists, top, dir) ==> Entry(Pred(top, dir), dists[Pred(top, dir)]) in stack' && Pred(top, dir).0 in points'
    ensures Exact(m, dists) && Sound(m, stack + [top], points, goals, cost) ==> Sound(m, stack', points', goals, cost)
    ensures Weight(stack') < Weight(stack) + Pow(5, top.2)
  {
    stack', points' := stack, points;
    var dirs := Util.AllDirections();
    var (loc, facing, c) := top;
    ghost var sound := Exact(m, dists) && Sound(m, stack + [top], points, goals, cost);
    for i := 0 to 4
      invariant ExpandInv(m, dists, top, stack, points, goals, cost, sound, i, stack', points')
    {
      var dir := dirs[i];
      if dir != Util.Opposite(facing) {
        var neighbor := Util.Move(loc, Util.Opposite(facing));
        if (neighbor, dir) in dists {
          var pathCost := dists[(neighbor, dir)];
          var stepCost := if dir == facing then StraightCost else TurnCost;
          if pathCost + stepCost == c {
            ExpandPush(m, dists, top, stack, points, goals, cost, sound, i, stack', points');
            points' := points' + {neighbor};
            stack' := stack' + [(neighbor, dir, pathCost)];
            continue;
          }
        }
      }
      ExpandSkip(m, dists, top, stack, points, goals, cost, sound, i, stack', points');
    }
    PowPositive(5, c);
    forall dir | Feeds(dists, top, dir)
      ensures Entry(Pred(top, dir), dists[Pred(top, dir)]) in stack' && Pred(top, dir).0 in points'
    {
      assert dir in dirs;
      var j :| 0 <= j < 4 && dirs[j] == dir;
    }
  }

  /** What the loop of `Expand` keeps after offering the first `i` facings. */
  ghost predicate ExpandInv(m: Maze, dists: map<State, nat>, top: Trail, stack: seq<Trail>, points: set<Util.Coord>,
                            goals: set<State>, cost: nat, sound: bool, i: nat, stack': seq<Trail>, points': set<Util.Coord>)
  {
    && i <= 4
    && (sound ==> Exact(m, dists) && Sound(m, stack + [top], points, goals, cost))
    && (forall e :: e in stack ==> e in stack')
    && points <= points'
    && (forall j :: 0 <= j < i && Feeds(dists, top, Util.AllDirections()[j]) ==>
          Entry(Pred(top, Util.AllDirections()[j]), dists[Pred(top, Util.AllDirections()[j])]) in stack'
          && Pred(top, Util.AllDirections()[j]).0 in points')
    && (sound ==> Open(m, top.0) && Leads(m, (top.0, top.1), top.2, goals, cost) && Sound(m, stack', points', goals, cost))
    && 5 * Weight(stack') <= 5 * Weight(stack) + i * Pow(5, top.2)
  }

  /** A facing that does not feed `top` leaves the loop's state as it was. */
  lemma ExpandSkip(m: Maze, dists: map<State, nat>, top: Trail, stack: seq<Trail>, points: set<Util.Coord>,
                   goals: set<State>, cost: nat, sound: bool, i: nat, stack': seq<Trail>, points': set<Util.Coord>)
    requires i < 4 && ExpandInv(m, dists, top, stack, points, goals, cost, sound, i, stack', points')
    requires !Feeds(dists, top, Util.AllDirections()[i])
    ensures ExpandInv(m, dists, top, stack, points, goals, cost, sound, i + 1, stack', points')
  {
    PowPositive(5, top.2);
  }

  /** A facing that feeds `top` is pushed with its stored cost and its cell collected. */
  lemma ExpandPush(m: Maze, dists: map<State, nat>, top: Trail, stack: seq<Trail>, points: set<Util.Coord>,
                   goals: set<State>, cost: nat, sound: bool, i: nat, stack': seq<Trail>, points': set<Util.Coord>)
    requires i < 4 && ExpandInv(m, dists, top, stack, points, goals, cost, sound, i, stack', points')
    requires Feeds(dists, top, Util.AllDirections()[i])
    ensures var dir := Util.AllDirections()[i];
      ExpandInv(m, dists, top, stack, points, goals, cost, sound, i + 1,
                stack' + [Entry(Pred(top, dir), dists[Pred(top, dir)])], points' + {Pred(top, dir).0})
  {
    var dir := Util.AllDirections()[i];
    var e := Entry(Pred(top, dir), dists[Pred(top, dir)]);
    if sound {
      PushSound(m, dists, top, dir, stack', points', goals, cost);
    }
    PushWeight(dists, top, dir, stack, stack', i);
  }

  /** Pushing a state that feeds a sound entry keeps the pass sound. */
  lemma PushSound(m: Maze, dists: map<State, nat>, top: Trail, dir: Util.Direction, stack': seq<Trail>,
                  points': set<Util.Coord>, goals: set<State>, cost: nat)
    requires Exact(m, dists) && Open(m, top.0) && Leads(m, (top.0, top.1), top.2, goals, cost)
    requires Sound(m, stack', points', goals, cost) && Feeds(dists, top, dir)
    ensures Sound(m, stack' + [Entry(Pred(top, dir), dists[Pred(top, dir)])], points' + {Pred(top, dir).0}, goals, cost)
  {
    FeedsSound(m, dists, top, dir, goals, cost);
  }

  /** Pushing a state that feeds `top` adds less than a fifth of `top`'s weight. */
  lemma PushWeight(dists: map<State, nat>, top: Trail, dir: Util.Direction, stack: seq<Trail>, stack': seq<Trail>, i: nat)
    requires Feeds(dists, top, dir)
    requires 5 * Weight(stack') <= 5 * Weight(stack) + i * Pow(5, top.2)
    ensures 5 * Weight(stack' + [Entry(Pred(top, dir), dists[Pred(top, dir)])]) <= 5 * Weight(stack) + (i + 1) * Pow(5, top.2)
  {
    var e := Entry(Pred(top, dir), dists[Pred(top, dir)]);
    WeightPush(stack', e);
    assert e.2 + 1 <= top.2;
    PowMonotone(5, e.2 + 1, top.2);
    assert Pow(5, e.2 + 1) == 5 * Pow(5, e.2);
    AddFifth(Weight(stack'), Weight(stack), Pow(5, top.2), Pow(5, e.2), i);
  }

  lemma AddFifth(w: int, w0: int, big: int, small: int, i: int)
    requires 5 * w <= 5 * w0 + i * big && 5 * small <= big
    ensures 5 * (w + small) <= 5 * w0 + (i + 1) * big
  {
    assert (i + 1) * big == i * big + big;
  }

  /** The cost of the first `k` moves of a path. */
  ghost function CostTo(m: Maze, p: seq<State>, k: nat): nat
    requires IsPath(m, p) && k < |p|
  {
    PrefixIsPath(m, p, k + 1);
    PathCost(m, p[..k + 1])
  }

  /** Every state of `p` is stored at the cost of the path up to it. */
  ghost predicate Tight(m: Maze, dists: map<State, nat>, p: seq<State>)
    requires IsPath(m, p)
  {
    forall k {:trigger StoredAt(m, dists, p, k)} :: 0 <= k < |p| ==> StoredAt(m, dists, p, k)
  }

  /** State `k` of `p` is stored at the cost of the path up to it. */
  ghost predicate StoredAt(m: Maze, dists: map<State, nat>, p: seq<State>, k: nat)
    requires IsPath(m, p) && k < |p|
  {
    p[k] in dists && dists[p[k]] == CostTo(m, p, k)
  }

  /** Over exact costs, a path from the seed that is cheapest to its last state is tight. */
  lemma CheapestIsTight(m: Maze, dists: map<State, nat>, p: seq<State>)
    requires Exact(m, dists)
    requires IsPath(m, p) && p[0] == Seed(m)
    requires p[|p| - 1] in dists && PathCost(m, p) <= dists[p[|p| - 1]]
    ensures Tight(m, dists, p)
  {
    forall k | 0 <= k < |p|
      ensures StoredAt(m, dists, p, k)
    {
      PrefixCheapest(m, dists, p, k);
    }
  }

  /**
   * Once the processed entries are closed, the cells of a tight path are
   * collected back from any of its processed entries.
   */
  lemma {:induction false} ClosedCovers(m: Maze, dists: map<State, nat>, done: set<Trail>, points: set<Util.Coord>,
                                        p: seq<State>, k: nat)
    requires Closed(dists, done, [], points)
    requires IsPath(m, p) && k < |p| && Tight(m, dists, p)
    requires Entry(p[k], CostTo(m, p, k)) in done && p[k].0 in points
    ensures forall j :: 0 <= j <= k ==> p[j].0 in points
    decreases k
  {
    if k > 0 {
      StepFeeds(m, dists, p, k);
      ClosedCovers(m, dists, done, points, p, k - 1);
    }
  }

  /** Along a tight path, each state feeds the next at the cost of the path up to it. */
  lemma StepFeeds(m: Maze, dists: map<State, nat>, p: seq<State>, k: nat)
    requires IsPath(m, p) && 0 < k < |p| && Tight(m, dists, p)
    ensures Pred(Entry(p[k], CostTo(m, p, k)), p[k - 1].1) == p[k - 1]
    ensures Feeds(dists, Entry(p[k], CostTo(m, p, k)), p[k - 1].1)
    ensures dists[p[k - 1]] == CostTo(m, p, k - 1)
  {
    assert StoredAt(m, dists, p, k - 1) && StoredAt(m, dists, p, k);
    CostToStep(m, p, k);
    Util.MoveOpposite(p[k - 1].0, p[k].1);
    Util.OppositeInvolution(p[k - 1].1);
  }

  /** The cost up to state `k` is the cost up to state `k - 1` plus the move between them. */
  lemma CostToStep(m: Maze, p: seq<State>, k: nat)
    requires IsPath(m, p) && 0 < k < |p|
    ensures MoveAt(m, p, k - 1) && CostTo(m, p, k) == CostTo(m, p, k - 1) + Cost(p[k - 1], p[k])
  {
    var pre := p[..k + 1];
    PrefixIsPath(m, p, k + 1);
    PathCostLast(m, pre);
    assert pre[..k] == p[..k];
    assert MoveAt(m, p, k - 1);
  }

  /** Every prefix of a path that is cheapest to its last state is cheapest to its own. */
  lemma PrefixCheapest(m: Maze, dists: map<State, nat>, p: seq<State>, k: nat)
    requires Seed(m) in dists && dists[Seed(m)] == 0
    requires forall s :: s in dists ==> Relaxed(m, dists, s)
    requires forall s :: s in dists ==> Witnessed(m, s, dists[s])
    requires IsPath(m, p) && p[0] == Seed(m) && k < |p|
    requires p[|p| - 1] in dists && PathCost(m, p) <= dists[p[|p| - 1]]
    ensures p[k] in dists && dists[p[k]] == CostTo(m, p, k)
  {
    var pre := p[..k + 1];
    PrefixIsPath(m, p, k + 1);
    Optimal(m, dists, pre);
    assert pre[|pre| - 1] == p[k] && pre[0] == Seed(m);
    assert Witnessed(m, p[k], dists[p[k]]);
    Detour(m, dists, p, k);
  }

  /** Swapping a witness path in for a prefix gives a path to the same state: the prefix costs no more than the witness. */
  lemma Detour(m: Maze, dists: map<State, nat>, p: seq<State>, k: nat)
    requires Seed(m) in dists && dists[Seed(m)] == 0
    requires forall s :: s in dists ==> Relaxed(m, dists, s)
    requires IsPath(m, p) && p[0] == Seed(m) && k < |p|
    requires p[|p| - 1] in dists && PathCost(m, p) <= dists[p[|p| - 1]]
    requires p[k] in dists && Witnessed(m, p[k], dists[p[k]])
    ensures CostTo(m, p, k) <= dists[p[k]]
  {
    var w :| IsPath(m, w) && w[0] == Seed(m) && w[|w| - 1] == p[k] && PathCost(m, w) == dists[p[k]];
    var alt := SwapPrefix(m, p, k, w);
    Optimal(m, dists, alt);
  }

  /** The path `p` with its first `k` moves replaced by `w`, which ends where they do. */
  lemma SwapPrefix(m: Maze, p: seq<State>, k: nat, w: seq<State>) returns (alt: seq<State>)
    requires IsPath(m, p) && k < |p|
    requires IsPath(m, w) && w[|w| - 1] == p[k]
    ensures IsPath(m, alt) && alt[0] == w[0] && alt[|alt| - 1] == p[|p| - 1]
    ensures PathCost(m, alt) + CostTo(m, p, k) == PathCost(m, w) + PathCost(m, p)
  {
    var pre, suf := p[..k + 1], p[k..];
    PrefixIsPath(m, p, k + 1);
    SuffixIsPath(m, p, k);
    SplitAt(p, k);
    PathGlue(m, pre, suf);
    PathGlue(m, w, suf);
    alt := w + suf[1..];
    GlueEnds(w, suf);
  }

  // ---------------------------------------------------------------- both parts

  /**
   * Both answers: the cheapest cost of reaching the end in any facing, and
   * the cells collected by the backward pass seeded with the end cell in
   * each of `facings` at that cost. The part-two answer is the number of
   * those cells. There is no answer when the end cannot be reached.
   */
  method Solve(m: Maze, facings: seq<Util.Direction>) returns (r: Option<(nat, set<Util.Coord>)>)
    ensures Open(m, m.start) && Open(m, m.end) ==> (r.None? <==> forall p :: Route(m, p) ==> false)
    ensures Open(m, m.start) && Open(m, m.end) && r.Some? ==>
      (exists p :: Route(m, p) && PathCost(m, p) == r.value.0) && forall p :: Route(m, p) ==> r.value.0 <= PathCost(m, p)
    ensures r.Some? ==> m.end in r.value.1
    ensures Open(m, m.start) && Open(m, m.end) && r.Some? ==>
      forall x :: x in r.value.1 ==> x == m.end || OnRoute(m, x, Goals(m, facings), r.value.0)
    ensures Open(m, m.start) && Open(m, m.end) && r.Some? ==>
      forall p :: IsPath(m, p) && p[0] == Seed(m) && p[|p| - 1] in Goals(m, facings) && PathCost(m, p) == r.value.0 ==> Cells(p) <= r.value.1
  {
    var dists := Dijkstra(m);
    var shortest := Shortest(m, dists);
    if Open(m, m.start) && Open(m, m.end) {
      ShortestIsCheapest(m, dists);
    }
    if shortest.None? {
      return None;
    }
    var points := Backtrack(m, dists, shortest.value, facings);
    r := Some((shortest.value, points));
  }

  /** The backward pass as the program seeds it: the end cell facing right and facing up. */
  method SolveAsWritten(m: Maze) returns (r: Option<(nat, set<Util.Coord>)>)
    ensures Open(m, m.start) && Open(m, m.end) ==> (r.None? <==> forall p :: Route(m, p) ==> false)
    ensures r.Some? ==> m.end in r.value.1
    ensures Open(m, m.start) && Open(m, m.end) && r.Some? ==>
      forall x :: x in r.value.1 ==> x == m.end || OnRoute(m, x, Goals(m, [Util.Right, Util.Up]), r.value.0)
  {
    r := Solve(m, [Util.Right, Util.Up]);
  }

  /** The backward pass seeded with the end cell in every facing the reindeer can arrive in. */
  method SolveAllFacings(m: Maze) returns (r: Option<(nat, set<Util.Coord>)>)
    ensures Open(m, m.start) && Open(m, m.end) ==> (r.None? <==> forall p :: Route(m, p) ==> false)
    ensures Open(m, m.start) && Open(m, m.end) && r.Some? ==>
      (exists p :: Route(m, p) && PathCost(m, p) == r.value.0) && forall p :: Route(m, p) ==> r.value.0 <= PathCost(m, p)
    ensures Open(m, m.start) && Open(m, m.end) && r.Some? ==>
      forall x :: x in r.value.1 <==> x == m.end || OnRoute(m, x, Goals(m, Util.AllDirections()), r.value.0)
  {
    r := Solve(m, Util.AllDirections());
    if Open(m, m.start) && Open(m, m.end) && r.Some? {
      forall x | OnRoute(m, x, Goals(m, Util.AllDirections()), r.value.0)
        ensures x in r.value.1
      {
        var p :| IsPath(m, p) && p[0] == Seed(m) && p[|p| - 1] in Goals(m, Util.AllDirections())
          && PathCost(m, p) == r.value.0 && x in Cells(p);
      }
    }
  }

  // ---------------------------------------------------------------- an end reached facing down

  /**
   *   #####
   *   #...#
   *   #E#S#
   *   #####
   * The only way from S to E goes up, left twice and down, so the reindeer
   * arrives facing down.
   */
  function DownMaze(): Maze
  {
    Maze([[Wall, Wall, Wall, Wall, Wall],
          [Wall, Empty, Empty, Empty, Wall],
          [Wall, Empty, Wall, Empty, Wall],
          [Wall, Wall, Wall, Wall, Wall]],
         Util.Coord(3, 2), Util.Coord(1, 2))
  }

  /** The cheapest cost of every state the reindeer can reach in `DownMaze`. */
  function DownCosts(): map<State, nat>
  {
    map[(Util.Coord(3, 2), Util.Right) := 0,
        (Util.Coord(3, 1), Util.Up) := 1001,
        (Util.Coord(2, 1), Util.Left) := 2002,
        (Util.Coord(1, 1), Util.Left) := 2003,
        (Util.Coord(1, 2), Util.Down) := 3004]
  }

  predicate DownCell(c: Util.Coord)
  {
    c == Util.Coord(3, 2) || c == Util.Coord(3, 1) || c == Util.Coord(2, 1) || c == Util.Coord(1, 1) || c == Util.Coord(1, 2)
  }

  function DownCells(): set<Util.Coord>
  {
    {Util.Coord(3, 2), Util.Coord(3, 1), Util.Coord(2, 1), Util.Coord(1, 1), Util.Coord(1, 2)}
  }

  /** The route up, left, left and down. */
  ghost function DownRoute(): seq<State>
  {
    [(Util.Coord(3, 2), Util.Right), (Util.Coord(3, 1), Util.Up), (Util.Coord(2, 1), Util.Left),
     (Util.Coord(1, 1), Util.Left), (Util.Coord(1, 2), Util.Down)]
  }

  /** The open cells of `DownMaze` are the five cells of the route. */
  lemma DownOpen(c: Util.Coord)
    ensures Open(DownMaze(), c) <==> DownCell(c)
  {
    var g := DownMaze().grid;
    if 0 <= c.y < 4 && 0 <= c.x < 5 {
      assert |g[c.y]| == 5;
      if c.y == 0 || c.y == 3 || c.x == 0 || c.x == 4 {
        assert g[c.y][c.x] == Wall;
      } else if c.y == 2 && c.x == 2 {
        assert g[c.y][c.x] == Wall;
      } else {
        assert g[c.y][c.x] == Empty;
      }
    } else {
      assert Util.Get(g, c).None?;
    }
  }

  lemma DownRouteCost(m: Maze)
    requires m == DownMaze()
    ensures Route(m, DownRoute()) && PathCost(m, DownRoute()) == 3004
    ensures Cells(DownRoute()) == DownCells()
  {
    var p := DownRoute();
    DownOpen(p[1].0);
    DownOpen(p[2].0);
    DownOpen(p[3].0);
    DownOpen(p[4].0);
    var q := [p[0]];
    PathSnoc(m, q, p[1]);
    PathSnoc(m, q + [p[1]], p[2]);
    PathSnoc(m, q + [p[1]] + [p[2]], p[3]);
    PathSnoc(m, q + [p[1]] + [p[2]] + [p[3]], p[4]);
    assert q + [p[1]] + [p[2]] + [p[3]] + [p[4]] == p;
    forall x | x in DownCells()
      ensures x in Cells(p)
    {
      if x == p[0].0 {} else if x == p[1].0 {} else if x == p[2].0 {} else if x == p[3].0 {} else { assert x == p[4].0; }
    }
  }

  /** No move out of a state of `DownCosts` reaches a state outside it, or more cheaply than it is stored. */
  lemma DownCostsRelaxed()
    ensures forall s :: s in DownCosts() ==> Relaxed(DownMaze(), DownCosts(), s)
  {
    var m, d := DownMaze(), DownCosts();
    forall s, t | s in d && Edge(m, s, t)
      ensures t in d && d[t] <= d[s] + Cost(s, t)
    {
      EdgeListed(m, s, t, Util.AllDirections());
      DownSuccessors(s);
    }
  }

  /** The moves out of each state of `DownCosts`. */
  lemma DownSuccessors(s: State)
    requires s in DownCosts()
    ensures forall t :: t in Successors(DownMaze(), s, Util.AllDirections()) ==>
      t in DownCosts() && DownCosts()[t] <= DownCosts()[s] + Cost(s, t)
  {
    if s == (Util.Coord(3, 2), Util.Right) {
      DownFromStart(DownMaze(), s);
    } else if s == (Util.Coord(3, 1), Util.Up) {
      DownFromUp(DownMaze(), s);
    } else if s == (Util.Coord(2, 1), Util.Left) {
      DownFromMiddle(DownMaze(), s);
    } else if s == (Util.Coord(1, 1), Util.Left) {
      DownFromCorner(DownMaze(), s);
    } else {
      DownDeadEnd(DownMaze(), s);
    }
  }

  /** From the start, the only move is a turn to face up. */
  lemma DownFromStart(m: Maze, s: State)
    requires m == DownMaze() && s == (Util.Coord(3, 2), Util.Right)
    ensures Successors(m, s, Util.AllDirections()) == [(Util.Coord(3, 1), Util.Up)]
  {
    DownOpen(Util.Coord(3, 1));
    DownOpen(Util.Coord(3, 3));
    DownOpen(Util.Coord(2, 2));
    DownOpen(Util.Coord(4, 2));
  }

  /** Below the top-right corner, the only move is a turn to face left. */
  lemma DownFromUp(m: Maze, s: State)
    requires m == DownMaze() && s == (Util.Coord(3, 1), Util.Up)
    ensures Successors(m, s, Util.AllDirections()) == [(Util.Coord(2, 1), Util.Left)]
  {
    DownOpen(Util.Coord(3, 0));
    DownOpen(Util.Coord(3, 2));
    DownOpen(Util.Coord(2, 1));
    DownOpen(Util.Coord(4, 1));
  }

  /** In the middle of the top row, the only move is straight on to the left. */
  lemma DownFromMiddle(m: Maze, s: State)
    requires m == DownMaze() && s == (Util.Coord(2, 1), Util.Left)
    ensures Successors(m, s, Util.AllDirections()) == [(Util.Coord(1, 1), Util.Left)]
  {
    DownOpen(Util.Coord(2, 0));
    DownOpen(Util.Coord(2, 2));
    DownOpen(Util.Coord(1, 1));
    DownOpen(Util.Coord(3, 1));
  }

  /** In the top-left corner, the only move is a turn to face down. */
  lemma DownFromCorner(m: Maze, s: State)
    requires m == DownMaze() && s == (Util.Coord(1, 1), Util.Left)
    ensures Successors(m, s, Util.AllDirections()) == [(Util.Coord(1, 2), Util.Down)]
  {
    DownOpen(Util.Coord(1, 0));
    DownOpen(Util.Coord(1, 2));
    DownOpen(Util.Coord(0, 1));
    DownOpen(Util.Coord(2, 1));
  }

  /** On the end cell facing down, there is no move. */
  lemma DownDeadEnd(m: Maze, s: State)
    requires m == DownMaze() && s == (Util.Coord(1, 2), Util.Down)
    ensures Successors(m, s, Util.AllDirections()) == []
  {
    DownOpen(Util.Coord(1, 1));
    DownOpen(Util.Coord(1, 3));
    DownOpen(Util.Coord(0, 2));
    DownOpen(Util.Coord(2, 2));
  }

  /** Every state the reindeer reaches in `DownMaze` is in `DownCosts`, at no less than its stored cost. */
  lemma DownReach(m: Maze, p: seq<State>)
    requires m == DownMaze() && IsPath(m, p) && p[0] == Seed(m)
    ensures p[|p| - 1] in DownCosts() && DownCosts()[p[|p| - 1]] <= PathCost(m, p)
  {
    DownCostsRelaxed();
    Optimal(m, DownCosts(), p);
  }

  /** Every path from the start of `DownMaze` stays on the cells of the route. */
  lemma DownStaysOnRoute(m: Maze, p: seq<State>)
    requires m == DownMaze() && IsPath(m, p) && p[0] == Seed(m)
    ensures Cells(p) <= DownCells()
  {
    DownCostsRelaxed();
    forall x | x in Cells(p)
      ensures x in DownCells()
    {
      var i :| 0 <= i < |p| && p[i].0 == x;
      PrefixIsPath(m, p, i + 1);
      Optimal(m, DownCosts(), p[..i + 1]);
    }
  }

  /** In `DownMaze` no path from the start reaches the end facing right or up. */
  lemma DownMissesSourceGoals(m: Maze, p: seq<State>)
    requires m == DownMaze() && IsPath(m, p) && p[0] == Seed(m)
    ensures p[|p| - 1] !in Goals(m, [Util.Right, Util.Up])
  {
    DownReach(m, p);
  }

  /** In `DownMaze` every route costs at least 3004. */
  lemma DownCheapest(m: Maze, p: seq<State>)
    requires m == DownMaze() && Route(m, p)
    ensures PathCost(m, p) >= 3004
  {
    DownReach(m, p);
  }

  /** No cell other than the end lies on a route to the end facing right or up. */
  lemma DownNothingOnSourceRoutes(m: Maze, x: Util.Coord, cost: nat)
    requires m == DownMaze()
    ensures !OnRoute(m, x, Goals(m, [Util.Right, Util.Up]), cost)
  {
    if OnRoute(m, x, Goals(m, [Util.Right, Util.Up]), cost) {
      var p :| IsPath(m, p) && p[0] == Seed(m) && p[|p| - 1] in Goals(m, [Util.Right, Util.Up])
        && PathCost(m, p) == cost && x in Cells(p);
      DownMissesSourceGoals(m, p);
    }
  }

  /** Every cell on a route of `DownMaze` is a cell of `DownRoute`. */
  lemma DownOnRoute(m: Maze, x: Util.Coord, goals: set<State>, cost: nat)
    requires m == DownMaze() && OnRoute(m, x, goals, cost)
    ensures x in DownCells()
  {
    var p :| IsPath(m, p) && p[0] == Seed(m) && p[|p| - 1] in goals && PathCost(m, p) == cost && x in Cells(p);
    DownStaysOnRoute(m, p);
  }

  lemma DownCellsCount()
    ensures |DownCells()| == 5
  {
  }

  /** Seeded facing right and up, the backward pass collects only the end cell. */
  method DownAsWritten() returns (count: nat)
    ensures count == 1
  {
    var m := DownMaze();
    var r := SolveAsWritten(m);
    DownRouteCost(m);
    assert Route(m, DownRoute());
    var points := r.value.1;
    forall x | x in points
      ensures x == m.end
    {
      DownNothingOnSourceRoutes(m, x, r.value.0);
    }
    assert points == {m.end};
    count := |points|;
  }

  /** Seeded in every facing, the backward pass collects all five cells of the route. */
  method DownAllFacings() returns (count: nat)
    ensures count == 5
  {
    var m := DownMaze();
    var r := SolveAllFacings(m);
    DownRouteCost(m);
    assert Route(m, DownRoute());
    var (cost, points) := r.value;
    ghost var w :| Route(m, w) && PathCost(m, w) == cost;
    DownCheapest(m, w);
    assert cost == 3004;
    ghost var goals := Goals(m, Util.AllDirections());
    assert DownRoute()[4] in goals;
    forall x | x in DownCells()
      ensures x in points
    {
      assert x in Cells(DownRoute());
      assert OnRoute(m, x, goals, cost);
    }
    forall x | x in points
      ensures x in DownCells()
    {
      if x != m.end {
        DownOnRoute(m, x, goals, cost);
      }
    }
    assert points == DownCells();
    DownCellsCount();
    count := |points|;
  }
}
