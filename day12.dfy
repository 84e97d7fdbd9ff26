/**
 * Day 12: garden plots. A region is a maximal orthogonally connected set
 * of plots growing the same plant. Its fence has one piece per plot side
 * that faces outside the region, and a fence line is a maximal straight
 * run of such sides.
 */
module Day12 {
  import opened Wrappers
  import Util
  import Sets
  import Arith

  type Coord = Util.Coord
  type Direction = Util.Direction
  type Garden = seq<seq<char>>

  /** A region: its plots, and those of its plots that touch the outside. */
  datatype Region = Region(area: set<Coord>, edges: set<Coord>)

  /** A fence line: the side it faces and the plots where it starts and ends. */
  datatype Line = Line(direction: Direction, start: Coord, end: Coord)

  // ------------------------------------------------------------ regions

  /** Every plot of `s` has plant `t`. */
  ghost predicate Uniform(grid: Garden, t: char, s: set<Coord>)
  {
    forall c :: c in s ==> Util.Get(grid, c) == Some(t)
  }

  /** Every neighbour with plant `t` of a plot of `s` is in `s`. */
  ghost predicate Closed(grid: Garden, t: char, s: set<Coord>)
  {
    forall c, d :: c in s && Util.Get(grid, Util.Move(c, d)) == Some(t) ==> Util.Move(c, d) in s
  }

  /**
   * `area` is the region of `start`: the smallest set of plots that holds
   * `start`, grows its plant throughout and takes in every neighbour
   * growing the same plant.
   */
  ghost predicate IsRegionOf(grid: Garden, start: Coord, area: set<Coord>)
  {
    Util.InBounds(grid, start) && start in area
    && Uniform(grid, grid[start.y][start.x], area) && Closed(grid, grid[start.y][start.x], area)
    && forall s :: start in s && Closed(grid, grid[start.y][start.x], s) ==> area <= s
  }

  /** `area` is the region of one of its plots. */
  ghost predicate IsRegion(grid: Garden, area: set<Coord>)
  {
    exists s :: IsRegionOf(grid, s, area)
  }

  /** Removing a closed set from a closed set of one plant leaves a closed set. */
  lemma DifferenceClosed(grid: Garden, t: char, a: set<Coord>, s: set<Coord>)
    requires Uniform(grid, t, a) && Closed(grid, t, a) && Closed(grid, t, s)
    ensures Closed(grid, t, a - s)
  {
    forall c, d | c in a - s && Util.Get(grid, Util.Move(c, d)) == Some(t)
      ensures Util.Move(c, d) in a - s
    {
      var n := Util.Move(c, d);
      Util.MoveOpposite(c, d);
      assert Util.Move(n, Util.Opposite(d)) == c;
    }
  }

  /** Every plot of a region has that same region: connection is symmetric. */
  lemma RegionOfMember(grid: Garden, a: Coord, area: set<Coord>, c: Coord)
    requires IsRegionOf(grid, a, area) && c in area
    ensures IsRegionOf(grid, c, area)
  {
    var t := grid[a.y][a.x];
    assert Util.Get(grid, c) == Some(t);
    forall s | c in s && Closed(grid, t, s)
      ensures area <= s
    {
      DifferenceClosed(grid, t, area, s);
      assert a in s;
    }
  }

  /** Two regions that share a plot are the same region. */
  lemma RegionsMeet(grid: Garden, a: Coord, b: Coord, areaA: set<Coord>, areaB: set<Coord>, c: Coord)
    requires IsRegionOf(grid, a, areaA) && IsRegionOf(grid, b, areaB) && c in areaA && c in areaB
    ensures areaA == areaB
  {
    RegionOfMember(grid, a, areaA, c);
    RegionOfMember(grid, b, areaB, c);
  }

  /** The plots of the garden. */
  ghost function Cells(grid: Garden): (r: set<Coord>)
    ensures forall c :: c in r <==> Util.InBounds(grid, c)
  {
    set y, x | 0 <= y < |grid| && 0 <= x < |grid[y]| :: Util.Coord(x, y)
  }

  /** How many entries of `stack` are already in `area`. */
  ghost function InArea(stack: seq<Coord>, area: set<Coord>): nat
  {
    if stack == [] then 0 else InArea(stack[..|stack| - 1], area) + (if stack[|stack| - 1] in area then 1 else 0)
  }

  lemma {:induction false} InAreaAppend(s: seq<Coord>, t: seq<Coord>, area: set<Coord>)
    requires forall i :: 0 <= i < |t| ==> t[i] !in area
    ensures InArea(s + t, area) == InArea(s, area)
    decreases |t|
  {
    if t != [] {
      assert (s + t)[..|s + t| - 1] == s + t[..|t| - 1];
      assert (s + t)[|s + t| - 1] == t[|t| - 1];
      assert t[|t| - 1] !in area;
      InAreaAppend(s, t[..|t| - 1], area);
      assert InArea(s + t, area) == InArea(s + t[..|t| - 1], area);
    } else {
      assert s + t == s;
    }
  }

  /** Every same-plant neighbour of a plot of `area` is in `area` or waiting on `stack`. */
  ghost predicate ClosedBut(grid: Garden, t: char, area: set<Coord>, stack: seq<Coord>)
  {
    forall c, d :: c in area && Util.Get(grid, Util.Move(c, d)) == Some(t) ==> Util.Move(c, d) in area || Util.Move(c, d) in stack
  }

  /** Everything found or waiting lies in every closed set that holds `start`. */
  ghost predicate Below(grid: Garden, t: char, start: Coord, area: set<Coord>, stack: seq<Coord>)
  {
    forall s :: start in s && Closed(grid, t, s) ==> area <= s && forall c :: c in stack ==> c in s
  }

  /**
   * Flood fill from `start`: `None` off the garden; otherwise the region
   * of `start`, with its edge plots.
   */
  method FindContiguousRegion(grid: Garden, start: Coord) returns (r: Option<Region>)
    ensures r.None? <==> !Util.InBounds(grid, start)
    ensures r.Some? ==> IsRegionOf(grid, start, r.value.area) && r.value.edges == FindEdges(r.value.area)
  {
    var got := Util.Get(grid, start);
    if got.None? {
      return None;
    }
    var t := got.value;
    var area: set<Coord> := {};
    var stack := [start];
    ghost var cells := Cells(grid);
    while |stack| > 0
      invariant Uniform(grid, t, area) && forall c :: c in stack ==> Util.Get(grid, c) == Some(t)
      invariant start in area || start in stack
      invariant ClosedBut(grid, t, area, stack)
      invariant Below(grid, t, start, area, stack)
      decreases |cells - area|, InArea(stack, area)
    {
      var coord := stack[|stack| - 1];
      ghost var popped := stack;
      stack := stack[..|stack| - 1];
      ghost var before := area;
      area := area + {coord};
      var pushed := PushSame(grid, t, area, coord, stack);
      FloodStep(grid, t, start, before, popped, coord, stack, pushed);
      FloodProgress(cells, before, popped, coord, stack, pushed);
      stack := pushed;
    }
    var edges := FindEdges(area);
    r := Some(Region(area, edges));
  }

  /**
   * One pop of the flood fill makes progress: either the area grows within
   * the garden, or a plot already in the area leaves the stack and only
   * plots outside the area are pushed.
   */
  lemma FloodProgress(cells: set<Coord>, before: set<Coord>, popped: seq<Coord>, coord: Coord, stack: seq<Coord>, pushed: seq<Coord>)
    requires |popped| > 0 && coord == popped[|popped| - 1] && stack == popped[..|popped| - 1]
    requires coord in cells
    requires |stack| <= |pushed| && pushed[..|stack|] == stack
    requires forall i :: |stack| <= i < |pushed| ==> pushed[i] !in before + {coord}
    ensures |cells - (before + {coord})| < |cells - before|
      || (|cells - (before + {coord})| == |cells - before| && InArea(pushed, before + {coord}) < InArea(popped, before))
  {
    var area := before + {coord};
    if coord !in before {
      assert cells - area < cells - before;
      Sets.ProperSubsetCardinality(cells - area, cells - before);
    } else {
      assert area == before;
      assert popped[..|popped| - 1] == stack;
      assert InArea(popped, before) == InArea(stack, before) + 1;
      var extra := pushed[|stack|..];
      assert pushed == stack + extra;
      InAreaAppend(stack, extra, area);
    }
  }

  /** One pop of the flood fill keeps its invariants. */
  lemma FloodStep(grid: Garden, t: char, start: Coord, before: set<Coord>, popped: seq<Coord>, coord: Coord, stack: seq<Coord>, pushed: seq<Coord>)
    requires |popped| > 0 && coord == popped[|popped| - 1] && stack == popped[..|popped| - 1]
    requires Uniform(grid, t, before) && forall c :: c in popped ==> Util.Get(grid, c) == Some(t)
    requires start in before || start in popped
    requires ClosedBut(grid, t, before, popped)
    requires Below(grid, t, start, before, popped)
    requires |stack| <= |pushed| && pushed[..|stack|] == stack
    requires forall i :: |stack| <= i < |pushed| ==> pushed[i] in Util.Adjacent(coord) && Util.Get(grid, pushed[i]) == Some(t)
    requires forall d :: Util.Get(grid, Util.Move(coord, d)) == Some(t) ==> Util.Move(coord, d) in before + {coord} || Util.Move(coord, d) in pushed
    ensures Uniform(grid, t, before + {coord}) && forall c :: c in pushed ==> Util.Get(grid, c) == Some(t)
    ensures start in before + {coord} || start in pushed
    ensures ClosedBut(grid, t, before + {coord}, pushed)
    ensures Below(grid, t, start, before + {coord}, pushed)
  {
    assert forall c :: c in popped ==> c == coord || c in stack;
    assert forall c :: c in stack ==> c in pushed by {
      assert forall i :: 0 <= i < |stack| ==> pushed[i] == stack[i];
    }
    forall c | c in pushed
      ensures Util.Get(grid, c) == Some(t)
    {
      var i :| 0 <= i < |pushed| && pushed[i] == c;
      if i < |stack| {
        assert c == stack[i];
      }
    }
    forall s | start in s && Closed(grid, t, s)
      ensures before + {coord} <= s && forall c :: c in pushed ==> c in s
    {
      forall c | c in pushed
        ensures c in s
      {
        var i :| 0 <= i < |pushed| && pushed[i] == c;
        if i < |stack| {
          assert c == stack[i];
        } else {
          var d :| Util.Move(coord, d) == c by {
            assert c in Util.Adjacent(coord);
            var j :| 0 <= j < 4 && Util.Adjacent(coord)[j] == c;
          }
        }
      }
    }
  }

  /**
   * The neighbour loop of the flood fill: pushes, in direction order, each
   * neighbour not yet in `area` that grows plant `t`.
   */
  method PushSame(grid: Garden, t: char, area: set<Coord>, coord: Coord, stack: seq<Coord>) returns (r: seq<Coord>)
    ensures |stack| <= |r| && r[..|stack|] == stack
    ensures forall i :: |stack| <= i < |r| ==> r[i] !in area && r[i] in Util.Adjacent(coord) && Util.Get(grid, r[i]) == Some(t)
    ensures forall d :: Util.Get(grid, Util.Move(coord, d)) == Some(t) ==> Util.Move(coord, d) in area || Util.Move(coord, d) in r
  {
    r := stack;
    var dirs := Util.AllDirections();
    for k := 0 to 4
      invariant |stack| <= |r| && r[..|stack|] == stack
      invariant forall i :: |stack| <= i < |r| ==> r[i] !in area && r[i] in Util.Adjacent(coord) && Util.Get(grid, r[i]) == Some(t)
      invariant forall j :: 0 <= j < k && Util.Get(grid, Util.Move(coord, dirs[j])) == Some(t) ==> Util.Move(coord, dirs[j]) in area || Util.Move(coord, dirs[j]) in r
    {
      var next := Util.Move(coord, dirs[k]);
      if next in area {
        continue;
      }
      var g := Util.Get(grid, next);
      if g == Some(t) {
        r := r + [next];
      }
    }
    forall d | Util.Get(grid, Util.Move(coord, d)) == Some(t)
      ensures Util.Move(coord, d) in area || Util.Move(coord, d) in r
    {
      assert d in dirs;
      var j :| 0 <= j < 4 && dirs[j] == d;
    }
  }

  /**
   * All regions, found by visiting the plots in reading order and flood
   * filling from each plot not yet covered. The regions are disjoint and
   * every plot the walk visits lies in one of them.
   */
  method FindContiguousRegions(grid: Garden) returns (regions: seq<Region>)
    ensures forall i :: 0 <= i < |regions| ==> regions[i].edges == FindEdges(regions[i].area)
    ensures forall i :: 0 <= i < |regions| ==> IsRegion(grid, regions[i].area)
    ensures forall i, j :: 0 <= i < j < |regions| ==> regions[i].area !! regions[j].area
    ensures forall k :: 0 <= k < Util.CoordCount(Util.Width(grid), |grid|) && Util.InBounds(grid, Util.NthCoord(k, Util.Width(grid))) ==>
      exists i :: 0 <= i < |regions| && Util.NthCoord(k, Util.Width(grid)) in regions[i].area
  {
    var coords := Util.IterCoords(grid);
    var visited: set<Coord> := {};
    regions := [];
    ghost var starts: seq<Coord> := [];
    for k := 0 to |coords|
      invariant Found(grid, regions, starts, visited)
      invariant forall j :: 0 <= j < k ==> coords[j] in visited
    {
      var coord := coords[k];
      if coord in visited {
        continue;
      }
      var found := FindContiguousRegion(grid, coord);
      if found.None? {
        visited := visited + {coord};
        continue;
      }
      var region := found.value;
      AddRegion(grid, regions, starts, visited, coord, region);
      visited := visited + {coord};
      visited := visited + region.area;
      regions := regions + [region];
      starts := starts + [coord];
    }
    forall k | 0 <= k < Util.CoordCount(Util.Width(grid), |grid|) && Util.InBounds(grid, Util.NthCoord(k, Util.Width(grid)))
      ensures Covered(regions, Util.NthCoord(k, Util.Width(grid)))
    {
      assert coords[k] in visited;
    }
    forall i | 0 <= i < |regions|
      ensures IsRegion(grid, regions[i].area)
    {
      assert IsRegionOf(grid, starts[i], regions[i].area);
    }
  }

  /**
   * The state of the region walk: each region found is the region of its
   * start plot with its edges, lies in `visited`, and is disjoint from the
   * others, and every visited plot lies in one of them.
   */
  ghost predicate Found(grid: Garden, regions: seq<Region>, starts: seq<Coord>, visited: set<Coord>)
  {
    |starts| == |regions|
    && (forall i :: 0 <= i < |regions| ==> regions[i].edges == FindEdges(regions[i].area) && IsRegionOf(grid, starts[i], regions[i].area))
    && (forall i :: 0 <= i < |regions| ==> regions[i].area <= visited)
    && Disjoint(regions)
    && (forall c :: c in visited && Util.InBounds(grid, c) ==> Covered(regions, c))
  }

  /** A region grown from an unvisited plot is disjoint from all found so far. */
  lemma AddRegion(grid: Garden, regions: seq<Region>, starts: seq<Coord>, visited: set<Coord>, coord: Coord, region: Region)
    requires Found(grid, regions, starts, visited) && coord !in visited
    requires IsRegionOf(grid, coord, region.area) && region.edges == FindEdges(region.area)
    ensures Found(grid, regions + [region], starts + [coord], visited + {coord} + region.area)
  {
    var regions', starts', visited' := regions + [region], starts + [coord], visited + {coord} + region.area;
    AddDisjoint(grid, regions, starts, visited, coord, region);
    AddCovers(grid, regions, visited, coord, region);
    forall i | 0 <= i < |regions'|
      ensures regions'[i].edges == FindEdges(regions'[i].area) && IsRegionOf(grid, starts'[i], regions'[i].area)
      ensures regions'[i].area <= visited'
    {
      if i < |regions| {
        assert regions'[i] == regions[i] && starts'[i] == starts[i];
      }
    }
  }

  /** The plots covered before, and those of the new region, are covered once the region is added. */
  lemma AddCovers(grid: Garden, regions: seq<Region>, visited: set<Coord>, coord: Coord, region: Region)
    requires forall c :: c in visited && Util.InBounds(grid, c) ==> Covered(regions, c)
    requires coord in region.area
    ensures forall c :: c in visited + {coord} + region.area && Util.InBounds(grid, c) ==> Covered(regions + [region], c)
  {
    var regions' := regions + [region];
    forall c | c in visited + {coord} + region.area && Util.InBounds(grid, c)
      ensures Covered(regions', c)
    {
      if c in region.area {
        assert c in regions'[|regions|].area;
      } else {
        CoverGrows(regions, region, c);
      }
    }
  }

  lemma CoverGrows(regions: seq<Region>, region: Region, c: Coord)
    requires Covered(regions, c)
    ensures Covered(regions + [region], c)
  {
    var i :| 0 <= i < |regions| && c in regions[i].area;
    assert (regions + [region])[i] == regions[i];
  }

  lemma AddDisjoint(grid: Garden, regions: seq<Region>, starts: seq<Coord>, visited: set<Coord>, coord: Coord, region: Region)
    requires |starts| == |regions| && Disjoint(regions) && coord !in visited
    requires forall i :: 0 <= i < |regions| ==> IsRegionOf(grid, starts[i], regions[i].area) && regions[i].area <= visited
    requires IsRegionOf(grid, coord, region.area)
    ensures Disjoint(regions + [region])
  {
    var regions' := regions + [region];
    forall i, j | 0 <= i < j < |regions'|
      ensures regions'[i].area !! regions'[j].area
    {
      assert regions'[i] == regions[i];
      if j < |regions| {
        assert regions'[j] == regions[j];
      } else {
        NewRegionDisjoint(grid, starts[i], regions[i].area, coord, region.area);
      }
    }
  }

  /** The region of a plot outside a region is disjoint from it. */
  lemma NewRegionDisjoint(grid: Garden, a: Coord, areaA: set<Coord>, b: Coord, areaB: set<Coord>)
    requires IsRegionOf(grid, a, areaA) && IsRegionOf(grid, b, areaB) && b !in areaA
    ensures areaA !! areaB
  {
    var ta, tb := grid[a.y][a.x], grid[b.y][b.x];
    if ta == tb {
      DifferenceClosed(grid, tb, areaB, areaA);
      assert areaB <= areaB - areaA;
    } else {
      forall c | c in areaA
        ensures c !in areaB
      {
        assert Util.Get(grid, c) == Some(ta);
      }
    }
  }

  ghost predicate Disjoint(regions: seq<Region>)
  {
    forall i, j :: 0 <= i < j < |regions| ==> regions[i].area !! regions[j].area
  }

  ghost predicate Covered(regions: seq<Region>, c: Coord)
  {
    exists i :: 0 <= i < |regions| && c in regions[i].area
  }

  /** On a rectangular garden with at least one column the regions cover every plot. */
  lemma RegionsCoverGarden(grid: Garden, regions: seq<Region>, c: Coord)
    requires Util.Rectangular(grid) && Util.Width(grid) >= 1 && Util.InBounds(grid, c)
    requires forall k :: 0 <= k < Util.CoordCount(Util.Width(grid), |grid|) && Util.InBounds(grid, Util.NthCoord(k, Util.Width(grid))) ==>
      exists i :: 0 <= i < |regions| && Util.NthCoord(k, Util.Width(grid)) in regions[i].area
    ensures exists i :: 0 <= i < |regions| && c in regions[i].area
  {
    var w := Util.Width(grid);
    assert |grid[c.y]| == w;
    var k := c.y * w + c.x;
    Arith.DivUnique(k, w, c.y, c.x);
    assert Util.NthCoord(k, w) == c;
    Util.DivBelow(k, w, |grid|);
  }

  // -------------------------------------------------------------- edges

  /** The plots of `area` with at least one neighbour outside it. */
  function FindEdges(area: set<Coord>): (r: set<Coord>)
    ensures r <= area
    ensures forall c :: c in area ==> (c in r <==> exists d :: Util.Move(c, d) !in area)
  {
    Util.DirectionsListed();
    set c | c in area && !(Util.Move(c, Util.Up) in area && Util.Move(c, Util.Down) in area
      && Util.Move(c, Util.Left) in area && Util.Move(c, Util.Right) in area)
  }

  /** A plot of the region that is not an edge has all four neighbours inside. */
  lemma InteriorSurrounded(area: set<Coord>, c: Coord, d: Direction)
    requires c in area - FindEdges(area)
    ensures Util.Move(c, d) in area
  {
  }

  // ------------------------------------------------------------- fences

  /** The fence pieces along the plots `cells`: each plot side facing out of `area`. */
  ghost function Pieces(area: set<Coord>, cells: set<Coord>): set<(Coord, Direction)>
  {
    set c, d | c in cells && d in Util.AllDirections() && Util.Move(c, d) !in area :: (c, d)
  }

  /** How many of `dirs` lead from `c` out of `area`. */
  function OutsideCount(area: set<Coord>, c: Coord, dirs: seq<Direction>): (r: nat)
    ensures r <= |dirs|
  {
    if dirs == [] then 0
    else OutsideCount(area, c, dirs[..|dirs| - 1]) + (if Util.Move(c, dirs[|dirs| - 1]) !in area then 1 else 0)
  }

  /** With distinct directions, the count is the number of fence pieces of `c` among them. */
  lemma {:induction false} OutsideCountPieces(area: set<Coord>, c: Coord, dirs: seq<Direction>)
    requires forall i, j :: 0 <= i < j < |dirs| ==> dirs[i] != dirs[j]
    ensures OutsideCount(area, c, dirs) == |set d | d in dirs && Util.Move(c, d) !in area :: (c, d)|
  {
    if dirs != [] {
      var init := dirs[..|dirs| - 1];
      var last := dirs[|dirs| - 1];
      OutsideCountPieces(area, c, init);
      var before := set d | d in init && Util.Move(c, d) !in area :: (c, d);
      var after := set d | d in dirs && Util.Move(c, d) !in area :: (c, d);
      assert last !in init;
      assert (c, last) !in before;
      if Util.Move(c, last) !in area {
        assert after == before + {(c, last)};
      } else {
        assert after == before;
      }
    }
  }

  /** The fence pieces of one plot: one to four for an edge plot. */
  lemma PiecesOfOne(area: set<Coord>, c: Coord)
    ensures |Pieces(area, {c})| == OutsideCount(area, c, Util.AllDirections())
    ensures c in FindEdges(area) ==> 1 <= |Pieces(area, {c})|
  {
    var dirs := Util.AllDirections();
    OutsideCountPieces(area, c, dirs);
    assert Pieces(area, {c}) == set d | d in dirs && Util.Move(c, d) !in area :: (c, d);
    if c in FindEdges(area) {
      var d :| Util.Move(c, d) !in area;
      assert (c, d) in Pieces(area, {c});
    }
  }

  /** The pieces along disjoint sets of plots add up. */
  lemma PiecesSplit(area: set<Coord>, done: set<Coord>, e: Coord)
    requires e !in done
    ensures Pieces(area, done + {e}) == Pieces(area, done) + Pieces(area, {e})
    ensures |Pieces(area, done + {e})| == |Pieces(area, done)| + |Pieces(area, {e})|
  {
    assert Pieces(area, done) !! Pieces(area, {e});
  }

  /** The fence around a region runs only along its edges: non-edge plots have no pieces. */
  lemma PiecesAlongEdges(area: set<Coord>)
    ensures Pieces(area, FindEdges(area)) == Pieces(area, area)
  {
  }

  /**
   * The number of fence pieces of a region: for each edge plot, the number
   * of its sides that face outside. Each edge plot gives one to four.
   */
  method CountFencePieces(region: Region) returns (n: nat)
    ensures n == |Pieces(region.area, region.edges)|
    ensures region.edges == FindEdges(region.area) ==> |region.edges| <= n <= 4 * |region.edges|
  {
    var rest := region.edges;
    n := 0;
    while rest != {}
      invariant rest <= region.edges
      invariant n == |Pieces(region.area, region.edges - rest)|
      invariant region.edges == FindEdges(region.area) ==> |region.edges - rest| <= n
      invariant n <= 4 * |region.edges - rest|
      decreases |rest|
    {
      var edge :| edge in rest;
      ghost var done := region.edges - rest;
      PiecesOfOne(region.area, edge);
      PiecesSplit(region.area, done, edge);
      n := n + OutsideCount(region.area, edge, Util.AllDirections());
      rest := rest - {edge};
      assert region.edges - rest == done + {edge};
    }
    assert region.edges - rest == region.edges;
  }

  // -------------------------------------------------------------- lines

  /** Plot `c` carries a fence piece facing `d`. */
  predicate OnSide(region: Region, d: Direction, c: Coord)
  {
    c in region.edges && Util.Move(c, d) !in region.area
  }

  /**
   * `k` steps from `c` along `along` is where the run of plots fenced
   * towards `d` ends: every plot on the way is fenced that way, the next is not.
   */
  ghost predicate RunEnd(region: Region, d: Direction, c: Coord, along: Direction, k: nat)
  {
    (forall j :: 1 <= j <= k ==> OnSide(region, d, Util.MoveN(c, along, j)))
    && !OnSide(region, d, Util.MoveN(c, along, k + 1))
  }

  /** A run has exactly one end. */
  lemma RunEndUnique(region: Region, d: Direction, c: Coord, along: Direction, k1: nat, k2: nat)
    requires RunEnd(region, d, c, along, k1) && RunEnd(region, d, c, along, k2)
    ensures k1 == k2
  {
  }

  /** Every run ends: the edges are finite, so the run leaves them. */
  lemma RunEnds(region: Region, d: Direction, c: Coord, along: Direction)
    ensures exists k: nat :: RunEnd(region, d, c, along, k)
  {
    var n := Util.RayLeaves(region.edges, c, along);
    var k := FirstOff(region, d, c, along, n);
  }

  lemma {:induction false} FirstOff(region: Region, d: Direction, c: Coord, along: Direction, n: nat) returns (k: nat)
    requires n >= 1 && !OnSide(region, d, Util.MoveN(c, along, n))
    ensures RunEnd(region, d, c, along, k)
    decreases n
  {
    if forall j :: 1 <= j <= n - 1 ==> OnSide(region, d, Util.MoveN(c, along, j)) {
      k := n - 1;
    } else {
      var j :| 1 <= j <= n - 1 && !OnSide(region, d, Util.MoveN(c, along, j));
      k := FirstOff(region, d, c, along, j);
    }
  }

  /** Where the run from `c` along `along` of plots fenced towards `d` ends. */
  ghost function RunTo(region: Region, d: Direction, c: Coord, along: Direction): Coord
  {
    RunEnds(region, d, c, along);
    var k :| RunEnd(region, d, c, along, k);
    Util.MoveN(c, along, k)
  }

  /** The fence line through the piece of `c` facing `d`. */
  ghost function LineOf(region: Region, piece: (Coord, Direction)): Line
  {
    var (c, d) := piece;
    var perp := Util.Perpendicular(d);
    Line(d, RunTo(region, d, c, perp[0]), RunTo(region, d, c, perp[1]))
  }

  /** The fence lines through the pieces in `pieces`. */
  ghost function Lines(region: Region, pieces: set<(Coord, Direction)>): set<Line>
  {
    set p | p in pieces :: LineOf(region, p)
  }

  /** Walks from `c` along `along` while the plots keep a fence piece facing `d`. */
  method RunFrom(region: Region, d: Direction, c: Coord, along: Direction) returns (e: Coord)
    ensures e == RunTo(region, d, c, along)
  {
    var n := Util.RayLeaves(region.edges, c, along);
    ghost var k;
    e, k := Util.MoveWhile(c, along, coord => coord in region.edges && Util.Move(coord, d) !in region.area);
    assert Util.Move(e, along) == Util.MoveN(c, along, k + 1);
    assert RunEnd(region, d, c, along, k);
    RunEnds(region, d, c, along);
    ghost var k1 :| RunEnd(region, d, c, along, k1) && RunTo(region, d, c, along) == Util.MoveN(c, along, k1);
    RunEndUnique(region, d, c, along, k, k1);
  }

  /**
   * The fence lines through plot `edge`: one for each side of it facing out
   * of the region, stretched perpendicular to that side in both directions
   * for as long as the plots keep a piece facing the same way.
   */
  method GetLinesIncluding(edge: Coord, region: Region) returns (r: seq<Line>)
    ensures forall l :: l in r <==> l in Lines(region, Pieces(region.area, {edge}))
  {
    var dirs := Util.AllDirections();
    r := [];
    for k := 0 to 4
      invariant forall l :: l in r <==> exists j :: 0 <= j < k && Util.Move(edge, dirs[j]) !in region.area && l == LineOf(region, (edge, dirs[j]))
    {
      var direction := dirs[k];
      if Util.Move(edge, direction) in region.area {
        continue;
      }
      var perp := Util.Perpendicular(direction);
      var start := RunFrom(region, direction, edge, perp[0]);
      var end := RunFrom(region, direction, edge, perp[1]);
      r := r + [Line(direction, start, end)];
    }
    forall l
      ensures l in r <==> l in Lines(region, Pieces(region.area, {edge}))
    {
      if l in Lines(region, Pieces(region.area, {edge})) {
        var p :| p in Pieces(region.area, {edge}) && l == LineOf(region, p);
        var j :| 0 <= j < 4 && dirs[j] == p.1;
      }
    }
  }

  /**
   * The number of fence lines of a region: the distinct lines through all
   * its fence pieces.
   */
  method CountFenceLines(region: Region) returns (n: nat)
    ensures n == |Lines(region, Pieces(region.area, region.edges))|
  {
    var rest := region.edges;
    var lines: set<Line> := {};
    while rest != {}
      invariant rest <= region.edges
      invariant lines == Lines(region, Pieces(region.area, region.edges - rest))
      decreases |rest|
    {
      var edge :| edge in rest;
      ghost var done := region.edges - rest;
      var found := GetLinesIncluding(edge, region);
      LinesSplit(region, done, edge, found);
      lines := lines + set l | l in found;
      rest := rest - {edge};
      assert region.edges - rest == done + {edge};
    }
    assert region.edges - rest == region.edges;
    n := |lines|;
  }

  /** The lines through the pieces of `done` and of `e` are those through `done`'s pieces and those `found` lists. */
  lemma LinesSplit(region: Region, done: set<Coord>, e: Coord, found: seq<Line>)
    requires e !in done
    requires forall l :: l in found <==> l in Lines(region, Pieces(region.area, {e}))
    ensures Lines(region, Pieces(region.area, done + {e})) == Lines(region, Pieces(region.area, done)) + set l | l in found
  {
    PiecesSplit(region.area, done, e);
  }

  /** A region never has more fence lines than fence pieces: every line runs through some piece. */
  lemma {:induction false} LinesAtMostPieces(region: Region, pieces: set<(Coord, Direction)>)
    ensures |Lines(region, pieces)| <= |pieces|
  {
    if pieces != {} {
      var p :| p in pieces;
      LinesAtMostPieces(region, pieces - {p});
      assert Lines(region, pieces) == Lines(region, pieces - {p}) + {LineOf(region, p)};
    }
  }
}
