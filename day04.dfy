/**
 * Day 4: a word search over a grid of letters. Part 1 counts every
 * occurrence of "XMAS" in any of the eight directions; part 2 counts the
 * crossings of two diagonal "MAS" words that share their middle letter.
 */
module Day04 {
  import opened Wrappers
  import opened Arith
  import Util

  type Coord = Util.Coord

  /** Componentwise sum: a coordinate moved by an offset. */
  function DirAdd(l: Coord, r: Coord): Coord
  {
    Util.Coord(l.x + r.x, l.y + r.y)
  }

  const LeftDir: Coord := Util.Coord(-1, 0)
  const RightDir: Coord := Util.Coord(1, 0)
  const UpDir: Coord := Util.Coord(0, -1)
  const DownDir: Coord := Util.Coord(0, 1)
  const UpLeft: Coord := DirAdd(UpDir, LeftDir)
  const UpRight: Coord := DirAdd(UpDir, RightDir)
  const DownLeft: Coord := DirAdd(DownDir, LeftDir)
  const DownRight: Coord := DirAdd(DownDir, RightDir)

  const AllDirections: seq<Coord> := [LeftDir, RightDir, UpDir, DownDir, UpLeft, UpRight, DownLeft, DownRight]
  const DiagonalDirections: seq<Coord> := [UpLeft, UpRight, DownLeft, DownRight]

  /** A unit step: each component in -1..1 and not both zero. */
  predicate IsUnitStep(d: Coord)
  {
    -1 <= d.x <= 1 && -1 <= d.y <= 1 && d != Util.Coord(0, 0)
  }

  /** The eight directions are pairwise distinct unit steps; the diagonal ones move along both axes. */
  lemma DirectionsAreUnitSteps()
    ensures |AllDirections| == 8 && |DiagonalDirections| == 4
    ensures forall i, j :: 0 <= i < j < |AllDirections| ==> AllDirections[i] != AllDirections[j]
    ensures forall d :: d in AllDirections ==> IsUnitStep(d)
    ensures forall d :: d in DiagonalDirections ==> d in AllDirections && d.x != 0 && d.y != 0
  {
    assert AllDirections == [Util.Coord(-1, 0), Util.Coord(1, 0), Util.Coord(0, -1), Util.Coord(0, 1),
                             Util.Coord(-1, -1), Util.Coord(1, -1), Util.Coord(-1, 1), Util.Coord(1, 1)];
    assert DiagonalDirections == AllDirections[4..];
  }

  /** Conversely every unit step is listed, and every step along both axes is a diagonal direction. */
  lemma UnitStepsAreListed(d: Coord)
    requires IsUnitStep(d)
    ensures d in AllDirections
    ensures d.x != 0 && d.y != 0 ==> d in DiagonalDirections
  {
    if d.x == -1 {
      if d.y == -1 { assert d == AllDirections[4] == DiagonalDirections[0]; }
      else if d.y == 0 { assert d == AllDirections[0]; }
      else { assert d == AllDirections[6] == DiagonalDirections[2]; }
    } else if d.x == 0 {
      if d.y == -1 { assert d == AllDirections[2]; }
      else { assert d == AllDirections[3]; }
    } else {
      if d.y == -1 { assert d == AllDirections[5] == DiagonalDirections[1]; }
      else if d.y == 0 { assert d == AllDirections[1]; }
      else { assert d == AllDirections[7] == DiagonalDirections[3]; }
    }
  }

  // ------------------------------------------------------------ lookups

  /**
   * Bounds-checked lookup. A negative component converts to an index past
   * every row, so it reads as absent just like one that is too large.
   */
  function GetCoord(src: seq<seq<char>>, c: Coord): (r: Option<char>)
    ensures r.Some? <==> 0 <= c.y < |src| && 0 <= c.x < |src[c.y]|
    ensures r.Some? ==> r.value == src[c.y][c.x]
  {
    if c.y < 0 || c.y >= |src| then None
    else if c.x < 0 || c.x >= |src[c.y]| then None
    else Some(src[c.y][c.x])
  }

  /** This lookup agrees with the shared library's grid lookup. */
  lemma GetCoordIsGridGet(src: seq<seq<char>>, c: Coord)
    ensures GetCoord(src, c) == Util.Get(src, c)
  {
  }

  /** The cell `i` steps from `start` along `direction`. */
  function StepN(start: Coord, direction: Coord, i: int): Coord
  {
    Util.Coord(start.x + i * direction.x, start.y + i * direction.y)
  }

  /** The letters of `target` from position `i` on lie along `direction` from `start`. */
  function MatchFrom(src: seq<seq<char>>, target: string, direction: Coord, start: Coord, i: nat): (b: bool)
    requires i <= |target|
    ensures b <==> forall j :: i <= j < |target| ==> GetCoord(src, StepN(start, direction, j)) == Some(target[j])
    decreases |target| - i
  {
    if i == |target| then true
    else if GetCoord(src, StepN(start, direction, i)) != Some(target[i]) then false
    else MatchFrom(src, target, direction, start, i + 1)
  }

  /** `target` is spelt from `start` along `direction`; a letter off the grid is a mismatch. */
  function MatchDirection(src: seq<seq<char>>, target: string, direction: Coord, start: Coord): (b: bool)
    ensures b <==> forall i :: 0 <= i < |target| ==> GetCoord(src, StepN(start, direction, i)) == Some(target[i])
  {
    MatchFrom(src, target, direction, start, 0)
  }

  /** A match of a non-empty word starts on a cell holding its first letter. */
  lemma MatchStartsWithFirstLetter(src: seq<seq<char>>, target: string, direction: Coord, start: Coord)
    requires |target| >= 1 && MatchDirection(src, target, direction, start)
    ensures GetCoord(src, start) == Some(target[0])
  {
    assert StepN(start, direction, 0) == start;
  }

  /** The directions of `dirs`, in order, along which `target` is spelt from `start`. */
  function MatchingDirections(src: seq<seq<char>>, target: string, dirs: seq<Coord>, start: Coord): (r: seq<Coord>)
    ensures |r| <= |dirs|
    ensures forall d :: d in r <==> d in dirs && MatchDirection(src, target, d, start)
  {
    if dirs == [] then []
    else
      (if MatchDirection(src, target, dirs[0], start) then [dirs[0]] else [])
      + MatchingDirections(src, target, dirs[1..], start)
  }

  // ------------------------------------------------------- grid iterator

  /**
   * The `k`-th coordinate the iterator yields, `x` varying fastest. With
   * width 0 the column resets at every step, so each row yields `(0, y)`.
   */
  function GridCoord(k: nat, w: nat): Coord
  {
    if w >= 1 then Util.NthCoord(k, w) else Util.Coord(0, k)
  }

  /** How many coordinates the iterator yields for width `w` and height `h`. */
  function GridCount(w: nat, h: nat): nat
  {
    if w >= 1 then w * h else h
  }

  lemma GridCoordBelow(k: nat, w: nat, h: nat)
    ensures GridCoord(k, w).y < h <==> k < GridCount(w, h)
  {
    if w >= 1 {
      Util.DivBelow(k, w, h);
    }
  }

  /** Row-major walk over the coordinates of a grid, sized by its first row. */
  class GridIter {
    var width: nat
    var height: nat
    var xCurr: nat
    var yCurr: nat
    /** Number of coordinates yielded so far. */
    ghost var produced: nat

    ghost predicate Valid()
      reads this
    {
      produced <= GridCount(width, height) && Util.Coord(xCurr, yCurr) == GridCoord(produced, width)
    }

    /** The source indexes the first row, so the grid must have one. */
    constructor From<T>(src: seq<seq<T>>)
      requires |src| >= 1
      ensures Valid() && produced == 0 && width == |src[0]| && height == |src|
    {
      width, height := |src[0]|, |src|;
      xCurr, yCurr := 0, 0;
      produced := 0;
    }

    method Next() returns (r: Option<Coord>)
      requires Valid()
      modifies this
      ensures Valid() && width == old(width) && height == old(height)
      ensures r == if old(produced) < GridCount(width, height) then Some(GridCoord(old(produced), width)) else None
      ensures produced == old(produced) + (if r.Some? then 1 else 0)
    {
      GridCoordBelow(produced, width, height);
      if yCurr >= height {
        return None;
      }
      r := Some(Util.Coord(xCurr, yCurr));
      if width >= 1 {
        Util.NthCoordStep(produced, width);
      }
      xCurr := xCurr + 1;
      if xCurr >= width {
        xCurr := 0;
        yCurr := yCurr + 1;
      }
      produced := produced + 1;
    }
  }

  /** Every coordinate the iterator yields for `src`, in order. */
  method GridCoords(src: seq<seq<char>>) returns (cs: seq<Coord>)
    requires |src| >= 1
    ensures |cs| == GridCount(|src[0]|, |src|)
    ensures forall k :: 0 <= k < |cs| ==> cs[k] == GridCoord(k, |src[0]|)
  {
    var w := |src[0]|;
    cs := [];
    var it := new GridIter.From(src);
    var next := it.Next();
    while next.Some?
      invariant it.Valid() && it.width == w && it.height == |src|
      invariant |cs| <= GridCount(w, |src|)
      invariant it.produced == if |cs| < GridCount(w, |src|) then |cs| + 1 else |cs|
      invariant next == if |cs| < GridCount(w, |src|) then Some(GridCoord(|cs|, w)) else None
      invariant forall k :: 0 <= k < |cs| ==> cs[k] == GridCoord(k, w)
      decreases GridCount(w, |src|) - |cs|
    {
      cs := cs + [next.value];
      next := it.Next();
    }
  }

  /** On a rectangular grid with a non-empty first row the iterator visits exactly its cells. */
  lemma GridCoordsCoverCells(src: seq<seq<char>>, c: Coord)
    requires |src| >= 1 && |src[0]| >= 1
    requires forall y :: 0 <= y < |src| ==> |src[y]| == |src[0]|
    ensures Util.InBounds(src, c) <==> exists k :: 0 <= k < GridCount(|src[0]|, |src|) && GridCoord(k, |src[0]|) == c
  {
    var w, h := |src[0]|, |src|;
    if Util.InBounds(src, c) {
      var k := RowMajorIndex(c, w);
      GridCoordBelow(k, w, h);
    }
    forall k | 0 <= k < GridCount(w, h) && GridCoord(k, w) == c
      ensures Util.InBounds(src, c)
    {
      GridCoordBelow(k, w, h);
    }
  }

  /** The position of `c` in the row-major walk of a grid of width `w`. */
  lemma RowMajorIndex(c: Coord, w: nat) returns (k: nat)
    requires w >= 1 && c.y >= 0 && 0 <= c.x < w
    ensures GridCoord(k, w) == c
  {
    MulNonNegative(c.y, w);
    k := c.y * w + c.x;
    DivUnique(k, w, c.y, c.x);
  }

  // ------------------------------------------------------------- part 1

  /** Occurrences of "XMAS" starting on the cell `c`: one per matching direction, none unless `c` holds 'X'. */
  function XmasAt(src: seq<seq<char>>, c: Coord): (r: nat)
    ensures r <= 8
  {
    if GetCoord(src, c) == Some('X') then |MatchingDirections(src, "XMAS", AllDirections, c)| else 0
  }

  /** The 'X' filter discards nothing: every occurrence starts on an 'X'. */
  lemma XmasFilterRedundant(src: seq<seq<char>>, c: Coord)
    ensures XmasAt(src, c) == |MatchingDirections(src, "XMAS", AllDirections, c)|
  {
    if GetCoord(src, c) != Some('X') {
      if MatchingDirections(src, "XMAS", AllDirections, c) != [] {
        var d := MatchingDirections(src, "XMAS", AllDirections, c)[0];
        assert d in MatchingDirections(src, "XMAS", AllDirections, c);
        MatchStartsWithFirstLetter(src, "XMAS", d, c);
      }
    }
  }

  /** Occurrences starting on the first `n` coordinates the iterator yields. */
  function XmasSum(src: seq<seq<char>>, w: nat, n: nat): (r: nat)
    ensures r <= 8 * n
  {
    if n == 0 then 0 else XmasSum(src, w, n - 1) + XmasAt(src, GridCoord(n - 1, w))
  }

  /** Part 1: occurrences over the whole grid, at most eight per visited cell. */
  function CountXmas(src: seq<seq<char>>): (r: nat)
    requires |src| >= 1
    ensures r <= 8 * GridCount(|src[0]|, |src|)
  {
    XmasSum(src, |src[0]|, GridCount(|src[0]|, |src|))
  }

  // ------------------------------------------------------------- part 2

  /** Centres of the diagonal "MAS" words starting on `start`. */
  function NewCentres(src: seq<seq<char>>, start: Coord): seq<Coord>
  {
    var dirs := MatchingDirections(src, "MAS", DiagonalDirections, start);
    seq(|dirs|, i requires 0 <= i < |dirs| => DirAdd(dirs[i], start))
  }

  /** Centres recorded by the diagonal "MAS" words starting on the first `k` coordinates. */
  ghost function CentresBefore(src: seq<seq<char>>, w: nat, k: nat): set<Coord>
  {
    set j, d | 0 <= j < k && d in DiagonalDirections && MatchDirection(src, "MAS", d, GridCoord(j, w)) :: DirAdd(d, GridCoord(j, w))
  }

  /** How many entries of `cs` lie in `s`. */
  function CountIn(cs: seq<Coord>, s: set<Coord>): (r: nat)
    ensures r <= |cs|
  {
    if cs == [] then 0 else (if cs[0] in s then 1 else 0) + CountIn(cs[1..], s)
  }

  /**
   * Crossings found up to the `n`-th coordinate: a new "MAS" counts only
   * when an earlier one has already recorded its centre.
   */
  ghost function CrossSum(src: seq<seq<char>>, w: nat, n: nat): nat
  {
    if n == 0 then 0
    else CrossSum(src, w, n - 1) + CountIn(NewCentres(src, GridCoord(n - 1, w)), CentresBefore(src, w, n - 1))
  }

  lemma CentresStep(src: seq<seq<char>>, w: nat, k: nat)
    ensures CentresBefore(src, w, k + 1) == CentresBefore(src, w, k) + ToSet(NewCentres(src, GridCoord(k, w)))
  {
    var before, after := CentresBefore(src, w, k), CentresBefore(src, w, k + 1);
    var added := ToSet(NewCentres(src, GridCoord(k, w)));
    forall c ensures c in after <==> c in before || c in added {
      if c in added {
        NewCentreRecorded(src, w, k, c);
      }
      if c in before {
        EarlierCentreKept(src, w, k, c);
      }
      if c in after && c !in before {
        LastCentreListed(src, w, k, c);
      }
    }
  }

  /** A centre recorded by the first `k` coordinates is recorded by the first `k + 1`. */
  lemma EarlierCentreKept(src: seq<seq<char>>, w: nat, k: nat, c: Coord)
    requires c in CentresBefore(src, w, k)
    ensures c in CentresBefore(src, w, k + 1)
  {
    var j, d :| 0 <= j < k && d in DiagonalDirections && MatchDirection(src, "MAS", d, GridCoord(j, w)) && c == DirAdd(d, GridCoord(j, w));
  }

  /** A new centre of coordinate `k` is recorded by the first `k + 1` coordinates. */
  lemma NewCentreRecorded(src: seq<seq<char>>, w: nat, k: nat, c: Coord)
    requires c in NewCentres(src, GridCoord(k, w))
    ensures c in CentresBefore(src, w, k + 1)
  {
    var start := GridCoord(k, w);
    var dirs := MatchingDirections(src, "MAS", DiagonalDirections, start);
    var i :| 0 <= i < |dirs| && c == DirAdd(dirs[i], start);
    assert dirs[i] in dirs;
  }

  /** A centre first recorded by coordinate `k` is one of its new centres. */
  lemma LastCentreListed(src: seq<seq<char>>, w: nat, k: nat, c: Coord)
    requires c in CentresBefore(src, w, k + 1) && c !in CentresBefore(src, w, k)
    ensures c in NewCentres(src, GridCoord(k, w))
  {
    var j, d :| 0 <= j < k + 1 && d in DiagonalDirections && MatchDirection(src, "MAS", d, GridCoord(j, w)) && c == DirAdd(d, GridCoord(j, w));
    assert j == k;
    NewCentreListed(src, GridCoord(k, w), d);
  }

  /** A diagonal "MAS" from `start` records its centre among `start`'s new centres. */
  lemma NewCentreListed(src: seq<seq<char>>, start: Coord, d: Coord)
    requires d in DiagonalDirections && MatchDirection(src, "MAS", d, start)
    ensures DirAdd(d, start) in NewCentres(src, start)
  {
    var dirs := MatchingDirections(src, "MAS", DiagonalDirections, start);
    assert d in dirs;
    var i :| 0 <= i < |dirs| && dirs[i] == d;
    assert NewCentres(src, start)[i] == DirAdd(d, start);
  }

  /** The entries of `cs` as a set. */
  function ToSet(cs: seq<Coord>): (r: set<Coord>)
    ensures forall c :: c in r <==> c in cs
  {
    set c | c in cs
  }

  /** Part 2: the number of X-shaped "MAS" crossings, found by recording centres as the grid is walked. */
  method CountXMas(src: seq<seq<char>>) returns (total: nat)
    requires |src| >= 1
    ensures total == CrossSum(src, |src[0]|, GridCount(|src[0]|, |src|))
  {
    var w := |src[0]|;
    var cs := GridCoords(src);
    var centres: set<Coord> := {};
    total := 0;
    for k := 0 to |cs|
      invariant centres == CentresBefore(src, w, k) && total == CrossSum(src, w, k)
    {
      CrossStep(src, w, k, cs[k], centres, total);
      var crosses;
      crosses, centres := VisitCell(src, cs[k], centres);
      total := total + crosses;
    }
  }

  /**
   * The work done for one coordinate: a cell holding 'M' contributes the
   * centres of its diagonal "MAS" words that are already recorded, then
   * records them all.
   */
  method VisitCell(src: seq<seq<char>>, start: Coord, centres: set<Coord>) returns (crosses: nat, centres': set<Coord>)
    ensures crosses == if GetCoord(src, start) == Some('M') then CountIn(NewCentres(src, start), centres) else 0
    ensures centres' == if GetCoord(src, start) == Some('M') then centres + ToSet(NewCentres(src, start)) else centres
  {
    crosses, centres' := 0, centres;
    if GetCoord(src, start) == Some('M') {
      var found := NewCentres(src, start);
      crosses := CountIn(found, centres);
      centres' := centres + ToSet(found);
    }
  }

  /** One step of the walk extends the recorded centres and the crossing count as the loop body does. */
  lemma CrossStep(src: seq<seq<char>>, w: nat, k: nat, start: Coord, centres: set<Coord>, total: nat)
    requires start == GridCoord(k, w)
    requires centres == CentresBefore(src, w, k) && total == CrossSum(src, w, k)
    ensures CentresBefore(src, w, k + 1)
      == if GetCoord(src, start) == Some('M') then centres + ToSet(NewCentres(src, start)) else centres
    ensures CrossSum(src, w, k + 1)
      == if GetCoord(src, start) == Some('M') then total + CountIn(NewCentres(src, start), centres) else total
  {
    CentresStep(src, w, k);
    if GetCoord(src, start) != Some('M') {
      NoCentresOffM(src, start);
    }
  }

  /** A cell not holding 'M' starts no "MAS". */
  lemma NoCentresOffM(src: seq<seq<char>>, start: Coord)
    requires GetCoord(src, start) != Some('M')
    ensures NewCentres(src, start) == []
  {
    var dirs := MatchingDirections(src, "MAS", DiagonalDirections, start);
    if dirs != [] {
      assert dirs[0] in dirs;
      MatchStartsWithFirstLetter(src, "MAS", dirs[0], start);
    }
  }
}
