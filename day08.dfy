/**
 * Day 8: antennae on a map, grouped by frequency (their character). Part 1
 * counts the in-bounds points that lie beyond one antenna of a pair at the
 * pair's own spacing; part 2 counts the in-bounds points reached by walking
 * outwards from each antenna of a pair in steps of the pair's reduced
 * offset.
 */
module Day08 {
  import opened Wrappers
  import opened Arith
  import Util

  type Coord = Util.Coord

  /** The map's dimensions and, per frequency, its antennae in reading order. */
  datatype AntennaMap = AntennaMap(width: int, height: int, antennae: map<char, seq<Coord>>)

  // ------------------------------------------------------------- parsing

  /** Index of the last character of the last non-empty line, 0 when there is none. */
  function LastColumn(lines: seq<seq<char>>): (r: nat)
    ensures lines != [] && |lines[|lines| - 1]| > 0 ==> r == |lines[|lines| - 1]| - 1
  {
    if lines == [] then 0
    else if |lines[|lines| - 1]| > 0 then |lines[|lines| - 1]| - 1
    else LastColumn(lines[..|lines| - 1])
  }

  /** Row-major order: `a` is read before `b`. */
  predicate ReadBefore(a: Coord, b: Coord)
  {
    a.y < b.y || (a.y == b.y && a.x < b.x)
  }

  /** The character at `p` is `c`. */
  predicate Cell(lines: seq<seq<char>>, p: Coord, c: char)
  {
    0 <= p.y < |lines| && 0 <= p.x < |lines[p.y]| && lines[p.y][p.x] == c
  }

  /**
   * `ants` files every non-`.` cell read before `upTo`, in reading order,
   * under its character, and nothing else.
   */
  ghost predicate Filed(lines: seq<seq<char>>, ants: map<char, seq<Coord>>, upTo: Coord)
  {
    (forall c :: c in ants ==> c != '.' && |ants[c]| > 0)
    && (forall c, p :: c != '.' && ReadBefore(p, upTo) && Cell(lines, p, c) ==> c in ants && p in ants[c])
    && (forall c, p :: c in ants && p in ants[c] ==> ReadBefore(p, upTo) && Cell(lines, p, c))
    && (forall c, i, j :: c in ants && 0 <= i < j < |ants[c]| ==> ReadBefore(ants[c][i], ants[c][j]))
  }

  /**
   * Groups the coordinates of every non-`.` character by character, in
   * reading order. The width is one past the last column index seen, which
   * comes from the last non-empty line; the height is one past the last
   * row index, so an empty input still gives 1 by 1.
   */
  method ParseInput(lines: seq<seq<char>>) returns (am: AntennaMap)
    ensures am.height == if lines == [] then 1 else |lines|
    ensures am.width == LastColumn(lines) + 1
    ensures lines != [] && Util.Rectangular(lines) && |lines[0]| > 0 ==> am.width == |lines[0]|
    ensures forall c :: c in am.antennae ==> c != '.' && am.antennae[c] != []
    ensures forall c, p :: c in am.antennae ==> (p in am.antennae[c] <==> Util.Get(lines, p) == Some(c))
    ensures forall c, p :: c != '.' && Util.Get(lines, p) == Some(c) ==> c in am.antennae
    ensures forall c, i, j :: c in am.antennae && 0 <= i < j < |am.antennae[c]| ==> ReadBefore(am.antennae[c][i], am.antennae[c][j])
  {
    var ants: map<char, seq<Coord>> := map[];
    var width := 0;
    var height := 0;
    for y := 0 to |lines|
      invariant height == if y == 0 then 0 else y - 1
      invariant width == LastColumn(lines[..y])
      invariant Filed(lines, ants, Util.Coord(0, y))
    {
      assert lines[..y + 1][..y] == lines[..y];
      var rowWidth;
      ants, rowWidth := ReadRow(lines, y, ants, width);
      RowRead(lines, ants, y);
      width := rowWidth;
      height := y;
    }
    assert lines[..|lines|] == lines;
    forall c, p ensures Util.Get(lines, p) == Some(c) <==> ReadBefore(p, Util.Coord(0, |lines|)) && Cell(lines, p, c) { }
    am := AntennaMap(width + 1, height + 1, ants);
  }

  /** The inner loop of parsing: files the antennae of row `y` and tracks the last column index. */
  method ReadRow(lines: seq<seq<char>>, y: nat, ants0: map<char, seq<Coord>>, width0: nat) returns (ants: map<char, seq<Coord>>, width: nat)
    requires y < |lines| && Filed(lines, ants0, Util.Coord(0, y))
    ensures width == if |lines[y]| == 0 then width0 else |lines[y]| - 1
    ensures Filed(lines, ants, Util.Coord(|lines[y]|, y))
  {
    ants, width := ants0, width0;
    var row := lines[y];
    for x := 0 to |row|
      invariant width == if x == 0 then width0 else x - 1
      invariant Filed(lines, ants, Util.Coord(x, y))
    {
      var ch := row[x];
      ghost var before := ants;
      if ch != '.' {
        var prev := if ch in ants then ants[ch] else [];
        ants := ants[ch := prev + [Util.Coord(x, y)]];
      }
      FileCell(lines, before, ants, x, y);
      width := x;
    }
  }

  /** Filing the cell at `(x, y)` extends what is filed by that one cell. */
  lemma FileCell(lines: seq<seq<char>>, ants: map<char, seq<Coord>>, ants': map<char, seq<Coord>>, x: nat, y: nat)
    requires y < |lines| && x < |lines[y]| && Filed(lines, ants, Util.Coord(x, y))
    requires var ch := lines[y][x];
      ants' == if ch == '.' then ants else ants[ch := (if ch in ants then ants[ch] else []) + [Util.Coord(x, y)]]
    ensures Filed(lines, ants', Util.Coord(x + 1, y))
  {
    var ch := lines[y][x];
    var here := Util.Coord(x, y);
    var next := Util.Coord(x + 1, y);
    forall c, p | c != '.' && ReadBefore(p, next) && Cell(lines, p, c)
      ensures c in ants' && p in ants'[c]
    {
      if p != here {
        assert ReadBefore(p, here) && c in ants && p in ants[c];
      }
    }
    forall c, p | c in ants' && p in ants'[c]
      ensures ReadBefore(p, next) && Cell(lines, p, c)
    {
      if c == ch && ch != '.' {
        assert ants'[c] == (if ch in ants then ants[ch] else []) + [here];
      }
      if !(c == ch && p == here) {
        assert c in ants && p in ants[c];
        assert ReadBefore(p, here);
      }
    }
    forall c, i, j | c in ants' && 0 <= i < j < |ants'[c]|
      ensures ReadBefore(ants'[c][i], ants'[c][j])
    {
      if c == ch && j == |ants'[c]| - 1 && ch != '.' {
        assert ants'[c][i] in ants[c];
      }
    }
  }

  /** Reading row `y` to its end files exactly what lies before the next row. */
  lemma RowRead(lines: seq<seq<char>>, ants: map<char, seq<Coord>>, y: nat)
    requires y < |lines| && Filed(lines, ants, Util.Coord(|lines[y]|, y))
    ensures Filed(lines, ants, Util.Coord(0, y + 1))
  {
    var rowEnd, next := Util.Coord(|lines[y]|, y), Util.Coord(0, y + 1);
    forall c, p | c != '.' && ReadBefore(p, next) && Cell(lines, p, c)
      ensures c in ants && p in ants[c]
    {
      assert ReadBefore(p, rowEnd);
    }
    forall c, p | c in ants && p in ants[c]
      ensures ReadBefore(p, next)
    {
      assert ReadBefore(p, rowEnd);
    }
  }

  // ---------------------------------------------------- part 1: antinodes

  /** The `is_within` test: `p` lies on the map. */
  predicate IsWithin(p: Coord, width: int, height: int)
  {
    0 <= p.x < width && 0 <= p.y < height
  }

  /** The point beyond `a` on the line from `b`, at the distance from `b` to `a`. */
  function Reflect(a: Coord, b: Coord): (r: Coord)
  {
    Util.Coord(2 * a.x - b.x, 2 * a.y - b.y)
  }

  /**
   * The reflected point is in line with both antennae, and twice as far
   * from `b` as from `a`: the puzzle's notion of an antinode.
   */
  lemma ReflectGeometry(a: Coord, b: Coord)
    ensures var r := Reflect(a, b);
      (r.x - a.x) * (b.y - a.y) == (r.y - a.y) * (b.x - a.x)
      && Util.ManhattanDistance(r, b) == 2 * Util.ManhattanDistance(r, a)
      && (a != b ==> r != a && r != b)
  {
    var r := Reflect(a, b);
    assert r.x - a.x == -(b.x - a.x) && r.y - a.y == -(b.y - a.y);
    NegMul(b.x - a.x, b.y - a.y);
  }

  /** Antenna `i` and some later antenna before index `jEnd` reflect to `p`, one way or the other. */
  ghost predicate ReflectsFrom(ants: seq<Coord>, i: int, jEnd: int, p: Coord)
  {
    exists j :: 0 <= i < j < jEnd <= |ants| && (p == Reflect(ants[i], ants[j]) || p == Reflect(ants[j], ants[i]))
  }

  /** Some pair `i < j` of `ants` reflects to `p`, one way or the other. */
  ghost predicate PairReflects(ants: seq<Coord>, p: Coord)
  {
    exists i :: 0 <= i < |ants| && ReflectsFrom(ants, i, |ants|, p)
  }

  /** The pairs the nested loops have visited before reaching `(i, j)` reflect to `p`. */
  ghost predicate ReflectsBefore(ants: seq<Coord>, i: int, j: int, p: Coord)
  {
    (exists i' :: 0 <= i' < i && ReflectsFrom(ants, i', |ants|, p)) || ReflectsFrom(ants, i, j, p)
  }

  /** A part-1 antinode: an in-bounds reflection of two antennae of one frequency. */
  ghost predicate BasicAntinode(am: AntennaMap, p: Coord)
  {
    IsWithin(p, am.width, am.height) && exists c :: c in am.antennae && PairReflects(am.antennae[c], p)
  }

  /** Adds the in-bounds reflections of every pair of `ants` to `acc`. */
  method AddBasicPairs(ants: seq<Coord>, width: int, height: int, acc: set<Coord>) returns (r: set<Coord>)
    ensures forall p :: p in r <==> p in acc || (IsWithin(p, width, height) && PairReflects(ants, p))
  {
    r := acc;
    for i := 0 to |ants|
      invariant forall p :: p in r <==> p in acc || (IsWithin(p, width, height) && exists i' :: 0 <= i' < i && ReflectsFrom(ants, i', |ants|, p))
    {
      for j := i + 1 to |ants|
        invariant forall p :: p in r <==> p in acc || (IsWithin(p, width, height) && ReflectsBefore(ants, i, j, p))
      {
        var a1 := Reflect(ants[i], ants[j]);
        var a2 := Reflect(ants[j], ants[i]);
        if IsWithin(a1, width, height) {
          r := r + {a1};
        }
        if IsWithin(a2, width, height) {
          r := r + {a2};
        }
      }
    }
  }

  /** Part 1: the set of antinodes; its size is the answer. */
  method FindBasicAntinodes(am: AntennaMap) returns (antinodes: set<Coord>)
    ensures forall p :: p in antinodes <==> BasicAntinode(am, p)
  {
    antinodes := {};
    var keys := am.antennae.Keys;
    ghost var done: set<char> := {};
    while keys != {}
      invariant keys + done == am.antennae.Keys && keys !! done
      invariant forall p :: p in antinodes <==> IsWithin(p, am.width, am.height) && exists c :: c in done && PairReflects(am.antennae[c], p)
      decreases |keys|
    {
      var c :| c in keys;
      antinodes := AddBasicPairs(am.antennae[c], am.width, am.height, antinodes);
      keys := keys - {c};
      done := done + {c};
    }
  }

  // ------------------------------------------------ part 2: harmonic lines

  /** Coordinates of one frequency are pairwise different, as parsing guarantees. */
  predicate Distinct(ants: seq<Coord>)
  {
    forall i, j :: 0 <= i < j < |ants| ==> ants[i] != ants[j]
  }

  /** The offset from `b` to `a` divided by the gcd of its absolute components. */
  function Step(a: Coord, b: Coord): (s: Coord)
    requires a != b
    ensures s != Util.Coord(0, 0)
    ensures exists g :: g > 0 && a.x - b.x == g * s.x && a.y - b.y == g * s.y
  {
    var dx := a.x - b.x;
    var dy := a.y - b.y;
    var g := Util.Gcd(Abs(dx), Abs(dy));
    GcdNonNegative(Abs(dx), Abs(dy));
    DividesAbs(g, dx);
    DividesAbs(g, dy);
    DivTExact(dx, g);
    DivTExact(dy, g);
    Util.Coord(DivT(dx, g), DivT(dy, g))
  }

  lemma GcdNonNegative(a: int, b: int)
    requires a >= 0 && b >= 0
    ensures Util.Gcd(a, b) >= 0
    decreases b
  {
    if b != 0 {
      GcdNonNegative(b, RemT(a, b));
    }
  }

  /** Divisibility ignores the sign of the dividend. */
  lemma DividesAbs(d: int, x: int)
    requires Divides(d, Abs(x))
    ensures Divides(d, x)
  {
    if d != 0 && x < 0 {
      var e := Abs(d);
      ExactDiv(-x, e);
      var q := -x / e;
      NegMul(e, q);
      DivUnique(x, e, -q, 0);
    }
  }

  /** `k` steps of `s` from `a`. */
  function Shift(a: Coord, s: Coord, k: int): (r: Coord)
  {
    Util.Coord(a.x + k * s.x, a.y + k * s.y)
  }

  /** Between two in-bounds points of a ray, every point of the ray is in bounds: the map is convex. */
  lemma RayConvex(a: Coord, s: Coord, k: nat, m: nat, width: int, height: int)
    requires IsWithin(a, width, height) && IsWithin(Shift(a, s, k), width, height) && m <= k
    ensures IsWithin(Shift(a, s, m), width, height)
  {
    Between(a.x, s.x, k, m);
    Between(a.y, s.y, k, m);
  }

  lemma Between(x: int, s: int, k: nat, m: nat)
    requires m <= k
    ensures s >= 0 ==> x <= x + m * s <= x + k * s
    ensures s < 0 ==> x + k * s <= x + m * s <= x
  {
    if s >= 0 {
      assert m * s <= k * s;
    } else {
      assert m * -s <= k * -s;
    }
  }

  /** Distance left to the map's edge along the step's leading component. */
  function EdgeDistance(p: Coord, s: Coord, width: int, height: int): int
  {
    if s.x > 0 then width - p.x
    else if s.x < 0 then p.x + 1
    else if s.y > 0 then height - p.y
    else p.y + 1
  }

  /**
   * The harmonic walk: from `start`, insert and step by `s` while in
   * bounds. It stops at the first point off the map, which by convexity
   * is the end of the ray's stretch on the map.
   */
  method WalkRay(start: Coord, s: Coord, width: int, height: int, acc: set<Coord>) returns (r: set<Coord>)
    requires s != Util.Coord(0, 0)
    ensures !IsWithin(start, width, height) ==> r == acc
    ensures IsWithin(start, width, height) ==> forall p :: p in r <==> p in acc || (IsWithin(p, width, height) && exists k: nat :: p == Shift(start, s, k))
  {
    r := acc;
    var curr := start;
    ghost var n: nat := 0;
    while IsWithin(curr, width, height)
      invariant curr == Shift(start, s, n)
      invariant forall m :: 0 <= m < n ==> IsWithin(Shift(start, s, m), width, height)
      invariant forall p :: p in r <==> p in acc || exists m :: 0 <= m < n && p == Shift(start, s, m)
      decreases EdgeDistance(curr, s, width, height)
    {
      r := r + {curr};
      curr := Util.Coord(curr.x + s.x, curr.y + s.y);
      n := n + 1;
    }
    if IsWithin(start, width, height) {
      forall p | IsWithin(p, width, height) && (exists k: nat :: p == Shift(start, s, k))
        ensures p in r
      {
        var k: nat :| p == Shift(start, s, k);
        if k >= n {
          RayConvex(start, s, k, n, width, height);
        }
      }
    }
  }

  /** Antenna `i`, on the map, reaches `p` in whole steps away from some other antenna before index `jEnd`. */
  ghost predicate OutwardFrom(ants: seq<Coord>, i: int, jEnd: int, p: Coord, width: int, height: int)
  {
    exists j, k: nat :: 0 <= j < jEnd <= |ants| && 0 <= i < |ants| && ants[i] != ants[j] && IsWithin(ants[i], width, height)
      && p == Shift(ants[i], Step(ants[i], ants[j]), k)
  }

  /** Some antenna of `ants`, on the map, reaches `p` in whole steps away from another antenna. */
  ghost predicate OnOutwardRay(ants: seq<Coord>, p: Coord, width: int, height: int)
  {
    exists i :: 0 <= i < |ants| && OutwardFrom(ants, i, |ants|, p, width, height)
  }

  /** The walks the nested loops have made before reaching `(i, j)` reach `p`. */
  ghost predicate OutwardBefore(ants: seq<Coord>, i: int, j: int, p: Coord, width: int, height: int)
  {
    (exists i' :: 0 <= i' < i && OutwardFrom(ants, i', |ants|, p, width, height)) || OutwardFrom(ants, i, j, p, width, height)
  }

  /** A part-2 antinode as the source computes it. */
  ghost predicate HarmonicAntinode(am: AntennaMap, p: Coord)
  {
    IsWithin(p, am.width, am.height) && exists c :: c in am.antennae && OnOutwardRay(am.antennae[c], p, am.width, am.height)
  }

  /** Walks outwards from every antenna of `ants` away from every other one. */
  method AddHarmonicPairs(ants: seq<Coord>, width: int, height: int, acc: set<Coord>) returns (r: set<Coord>)
    requires Distinct(ants)
    ensures forall p :: p in r <==> p in acc || (IsWithin(p, width, height) && OnOutwardRay(ants, p, width, height))
  {
    r := acc;
    for i := 0 to |ants|
      invariant forall p :: p in r <==> p in acc || (IsWithin(p, width, height) && exists i' :: 0 <= i' < i && OutwardFrom(ants, i', |ants|, p, width, height))
    {
      for j := 0 to |ants|
        invariant forall p :: p in r <==> p in acc || (IsWithin(p, width, height) && OutwardBefore(ants, i, j, p, width, height))
      {
        if i == j {
          continue;
        }
        r := WalkRay(ants[i], Step(ants[i], ants[j]), width, height, r);
      }
    }
  }

  /** Part 2 as written: the set of harmonic antinodes; its size is the answer. */
  method FindHarmonicAntinodes(am: AntennaMap) returns (antinodes: set<Coord>)
    requires forall c :: c in am.antennae ==> Distinct(am.antennae[c])
    ensures forall p :: p in antinodes <==> HarmonicAntinode(am, p)
  {
    antinodes := {};
    var keys := am.antennae.Keys;
    ghost var done: set<char> := {};
    while keys != {}
      invariant keys + done == am.antennae.Keys && keys !! done
      invariant forall p :: p in antinodes <==> IsWithin(p, am.width, am.height) && exists c :: c in done && OnOutwardRay(am.antennae[c], p, am.width, am.height)
      decreases |keys|
    {
      var c :| c in keys;
      antinodes := AddHarmonicPairs(am.antennae[c], am.width, am.height, antinodes);
      keys := keys - {c};
      done := done + {c};
    }
  }

  /** Every on-map antenna with a same-frequency partner is itself a harmonic antinode. */
  lemma AntennaIsAntinode(am: AntennaMap, c: char, i: nat, j: nat)
    requires c in am.antennae && i < |am.antennae[c]| && j < |am.antennae[c]|
    requires am.antennae[c][i] != am.antennae[c][j] && IsWithin(am.antennae[c][i], am.width, am.height)
    ensures HarmonicAntinode(am, am.antennae[c][i])
  {
    var ants := am.antennae[c];
    assert ants[i] == Shift(ants[i], Step(ants[i], ants[j]), 0);
    assert OutwardFrom(ants, i, |ants|, ants[i], am.width, am.height);
  }

  /** Every part-1 antinode is a part-2 antinode: the reflection is one step beyond the antenna, scaled by the gcd. */
  lemma BasicIsHarmonic(am: AntennaMap, p: Coord)
    requires forall c :: c in am.antennae ==> Distinct(am.antennae[c])
    requires forall c, q :: c in am.antennae && q in am.antennae[c] ==> IsWithin(q, am.width, am.height)
    requires BasicAntinode(am, p)
    ensures HarmonicAntinode(am, p)
  {
    var c :| c in am.antennae && PairReflects(am.antennae[c], p);
    var ants := am.antennae[c];
    var i :| 0 <= i < |ants| && ReflectsFrom(ants, i, |ants|, p);
    var j :| 0 <= i < j < |ants| && (p == Reflect(ants[i], ants[j]) || p == Reflect(ants[j], ants[i]));
    assert ants[i] in ants && ants[j] in ants;
    if p == Reflect(ants[i], ants[j]) {
      var k := ReflectIsShift(ants[i], ants[j]);
      assert OutwardFrom(ants, i, |ants|, p, am.width, am.height);
    } else {
      var k := ReflectIsShift(ants[j], ants[i]);
      assert OutwardFrom(ants, j, |ants|, p, am.width, am.height);
    }
  }

  /** The reflection of `a` over `b`'s offset is `g` steps from `a`, for the gcd `g`. */
  lemma ReflectIsShift(a: Coord, b: Coord) returns (k: nat)
    requires a != b
    ensures Reflect(a, b) == Shift(a, Step(a, b), k)
  {
    var s := Step(a, b);
    var g :| g > 0 && a.x - b.x == g * s.x && a.y - b.y == g * s.y;
    k := g;
  }

  // -------------------------------------------- part 2 as evidently intended

  /** Antenna `i`, on the map, reaches `p` in whole steps, in either direction, along its line to some other antenna before index `jEnd`. */
  ghost predicate LineFrom(ants: seq<Coord>, i: int, jEnd: int, p: Coord, width: int, height: int)
  {
    exists j, k: int :: 0 <= j < jEnd <= |ants| && 0 <= i < |ants| && ants[i] != ants[j] && IsWithin(ants[i], width, height)
      && p == Shift(ants[i], Step(ants[i], ants[j]), k)
  }

  /** Some on-map antenna reaches `p` in whole steps along its line to another antenna. */
  ghost predicate OnLine(ants: seq<Coord>, p: Coord, width: int, height: int)
  {
    exists i :: 0 <= i < |ants| && LineFrom(ants, i, |ants|, p, width, height)
  }

  ghost predicate LineBefore(ants: seq<Coord>, i: int, j: int, p: Coord, width: int, height: int)
  {
    (exists i' :: 0 <= i' < i && LineFrom(ants, i', |ants|, p, width, height)) || LineFrom(ants, i, j, p, width, height)
  }

  /** Every in-bounds point in line with two same-frequency antennae, at the line's lattice spacing. */
  ghost predicate LineAntinode(am: AntennaMap, p: Coord)
  {
    IsWithin(p, am.width, am.height) && exists c :: c in am.antennae && OnLine(am.antennae[c], p, am.width, am.height)
  }

  /** The walk in both directions from every antenna. */
  method AddLinePairs(ants: seq<Coord>, width: int, height: int, acc: set<Coord>) returns (r: set<Coord>)
    requires Distinct(ants)
    ensures forall p :: p in r <==> p in acc || (IsWithin(p, width, height) && OnLine(ants, p, width, height))
  {
    r := acc;
    for i := 0 to |ants|
      invariant forall p :: p in r <==> p in acc || (IsWithin(p, width, height) && exists i' :: 0 <= i' < i && LineFrom(ants, i', |ants|, p, width, height))
    {
      for j := 0 to |ants|
        invariant forall p :: p in r <==> p in acc || (IsWithin(p, width, height) && LineBefore(ants, i, j, p, width, height))
      {
        if i == j {
          continue;
        }
        var s := Step(ants[i], ants[j]);
        var back := Util.Coord(-s.x, -s.y);
        ghost var before := r;
        r := WalkRay(ants[i], s, width, height, r);
        r := WalkRay(ants[i], back, width, height, r);
        BothWays(ants[i], s, back);
      }
    }
  }

  /** Steps backwards are negative steps forwards, so the two walks cover every whole multiple. */
  lemma BothWays(a: Coord, s: Coord, back: Coord)
    requires back == Util.Coord(-s.x, -s.y)
    ensures forall k: nat :: Shift(a, back, k) == Shift(a, s, -(k as int))
    ensures forall k: int :: k < 0 ==> Shift(a, s, k) == Shift(a, back, -k)
  {
    forall k: int ensures Shift(a, back, k) == Shift(a, s, -k) {
      NegMul(k, s.x);
      NegMul(k, s.y);
    }
  }

  /** Part 2 as evidently intended: the walk also heads towards the partner. */
  method FindLineAntinodes(am: AntennaMap) returns (antinodes: set<Coord>)
    requires forall c :: c in am.antennae ==> Distinct(am.antennae[c])
    ensures forall p :: p in antinodes <==> LineAntinode(am, p)
    ensures forall p :: p in antinodes <==> CollinearAntinode(am, p)
  {
    antinodes := {};
    var keys := am.antennae.Keys;
    ghost var done: set<char> := {};
    while keys != {}
      invariant keys + done == am.antennae.Keys && keys !! done
      invariant forall p :: p in antinodes <==> IsWithin(p, am.width, am.height) && exists c :: c in done && OnLine(am.antennae[c], p, am.width, am.height)
      decreases |keys|
    {
      var c :| c in keys;
      antinodes := AddLinePairs(am.antennae[c], am.width, am.height, antinodes);
      keys := keys - {c};
      done := done + {c};
    }
    forall p
      ensures LineAntinode(am, p) <==> CollinearAntinode(am, p)
    {
      LineIffCollinear(am, p);
    }
  }

  /** Every intended antinode is in line with the pair it comes from. */
  lemma LineAntinodeCollinear(a: Coord, b: Coord, k: int)
    requires a != b
    ensures var p := Shift(a, Step(a, b), k);
      (p.x - a.x) * (b.y - a.y) == (p.y - a.y) * (b.x - a.x)
  {
    var s := Step(a, b);
    var g :| g > 0 && a.x - b.x == g * s.x && a.y - b.y == g * s.y;
    var p := Shift(a, s, k);
    assert p.x - a.x == k * s.x && p.y - a.y == k * s.y;
    assert b.y - a.y == -(g * s.y) && b.x - a.x == -(g * s.x);
    CrossTerms(k, g, s.x, s.y);
    NegMul(k * s.x, g * s.y);
    NegMul(k * s.y, g * s.x);
  }

  lemma CrossTerms(k: int, g: int, x: int, y: int)
    ensures (k * x) * (g * y) == (k * y) * (g * x)
  {
    calc {
      (k * x) * (g * y);
      { MulAssoc(k * x, g, y); }
      ((k * x) * g) * y;
      { assert (k * x) * g == (k * g) * x; }
      ((k * g) * x) * y;
      { MulAssoc(k * g, x, y); }
      (k * g) * (x * y);
      { MulAssoc(k * g, y, x); }
      ((k * g) * y) * x;
      { assert (k * g) * y == (k * y) * g; }
      ((k * y) * g) * x;
      { MulAssoc(k * y, g, x); }
      (k * y) * (g * x);
    }
  }

  /** The reduced step's components are coprime: some integer combination of them is 1. */
  lemma StepCoprime(a: Coord, b: Coord) returns (u: int, v: int)
    requires a != b
    ensures u * Step(a, b).x + v * Step(a, b).y == 1
  {
    var dx, dy := a.x - b.x, a.y - b.y;
    var g := Util.Gcd(Abs(dx), Abs(dy));
    GcdNonNegative(Abs(dx), Abs(dy));
    DividesAbs(g, dx);
    DividesAbs(g, dy);
    DivTExact(dx, g);
    DivTExact(dy, g);
    var s := Step(a, b);
    assert s == Util.Coord(DivT(dx, g), DivT(dy, g));
    var u0, v0 := Util.GcdBezout(Abs(dx), Abs(dy));
    u := SignedFactor(u0, dx);
    v := SignedFactor(v0, dy);
    UnitCombination(g, dx, dy, s.x, s.y, u, v);
  }

  /** A multiple of `|x|` is a multiple of `x`. */
  lemma SignedFactor(u0: int, x: int) returns (u: int)
    ensures u0 * Abs(x) == u * x
  {
    u := if x < 0 then -u0 else u0;
  }

  /** Dividing a combination equal to `g` by the common factor `g` leaves a combination equal to 1. */
  lemma UnitCombination(g: int, dx: int, dy: int, sx: int, sy: int, u: int, v: int)
    requires g > 0 && dx == g * sx && dy == g * sy && g == u * dx + v * dy
    ensures u * sx + v * sy == 1
  {
    assert g * (u * sx + v * sy) == g * 1 by {
      MulAssoc(u, g, sx);
      MulAssoc(v, g, sy);
    }
    MulCancel(g, u * sx + v * sy, 1);
  }

  /** A positive factor cancels from both sides. */
  lemma MulCancel(g: int, x: int, y: int)
    requires g > 0 && g * x == g * y
    ensures x == y
  {
    if x < y {
      MulMonotone(g, x + 1, y);
    } else if y < x {
      MulMonotone(g, y + 1, x);
    }
  }

  /** With a unit combination of the step, the cross-product equation fixes the number of steps. */
  lemma BezoutScale(x: int, y: int, u: int, v: int, sx: int, sy: int)
    requires u * sx + v * sy == 1 && x * sy == y * sx
    ensures (x * u + y * v) * sx == x && (x * u + y * v) * sy == y
  {
    assert (x * u + y * v) * sx == x * (u * sx) + v * (y * sx);
    assert x * (u * sx) + v * (x * sy) == x * (u * sx + v * sy);
    assert (x * u + y * v) * sy == u * (x * sy) + y * (v * sy);
    assert u * (y * sx) + y * (v * sy) == y * (u * sx + v * sy);
  }

  /** A positive factor common to both cross products cancels. */
  lemma CrossCancel(x: int, y: int, g: int, sx: int, sy: int)
    requires g > 0 && x * -(g * sy) == y * -(g * sx)
    ensures x * sy == y * sx
  {
    assert g * (x * sy) == g * (y * sx) by {
      NegMul(x, g * sy);
      NegMul(y, g * sx);
      MulAssoc(x, g, sy);
      MulAssoc(y, g, sx);
    }
    MulCancel(g, x * sy, y * sx);
  }

  /** `p` lies on the straight line through `a` and `b`. */
  predicate Collinear(a: Coord, b: Coord, p: Coord)
  {
    (p.x - a.x) * (b.y - a.y) == (p.y - a.y) * (b.x - a.x)
  }

  /** Every grid point in line with two different points is a whole number of reduced steps from the first. */
  lemma CollinearOnLine(a: Coord, b: Coord, p: Coord) returns (k: int)
    requires a != b && Collinear(a, b, p)
    ensures p == Shift(a, Step(a, b), k)
  {
    var s := Step(a, b);
    var g :| g > 0 && a.x - b.x == g * s.x && a.y - b.y == g * s.y;
    var u, v := StepCoprime(a, b);
    var x, y := p.x - a.x, p.y - a.y;
    assert b.y - a.y == -(g * s.y) && b.x - a.x == -(g * s.x);
    CrossCancel(x, y, g, s.x, s.y);
    BezoutScale(x, y, u, v, s.x, s.y);
    k := x * u + y * v;
  }

  /** In-bounds points in line with two different on-map antennae of one frequency, with no reference to steps. */
  ghost predicate CollinearAntinode(am: AntennaMap, p: Coord)
  {
    IsWithin(p, am.width, am.height) &&
    exists c, i, j :: c in am.antennae && 0 <= i < |am.antennae[c]| && 0 <= j < |am.antennae[c]| &&
      am.antennae[c][i] != am.antennae[c][j] && IsWithin(am.antennae[c][i], am.width, am.height) &&
      Collinear(am.antennae[c][i], am.antennae[c][j], p)
  }

  /** The stepped lines hold exactly the in-bounds points in line with a same-frequency pair. */
  lemma LineIffCollinear(am: AntennaMap, p: Coord)
    ensures LineAntinode(am, p) <==> CollinearAntinode(am, p)
  {
    if LineAntinode(am, p) {
      var c :| c in am.antennae && OnLine(am.antennae[c], p, am.width, am.height);
      var ants := am.antennae[c];
      var i :| 0 <= i < |ants| && LineFrom(ants, i, |ants|, p, am.width, am.height);
      var j, k: int :| 0 <= j < |ants| && ants[i] != ants[j] && IsWithin(ants[i], am.width, am.height)
        && p == Shift(ants[i], Step(ants[i], ants[j]), k);
      LineAntinodeCollinear(ants[i], ants[j], k);
      assert Collinear(ants[i], ants[j], p);
    }
    if CollinearAntinode(am, p) {
      var c, i, j :| c in am.antennae && 0 <= i < |am.antennae[c]| && 0 <= j < |am.antennae[c]| &&
        am.antennae[c][i] != am.antennae[c][j] && IsWithin(am.antennae[c][i], am.width, am.height) &&
        Collinear(am.antennae[c][i], am.antennae[c][j], p);
      var ants := am.antennae[c];
      var k := CollinearOnLine(ants[i], ants[j], p);
      assert LineFrom(ants, i, |ants|, p, am.width, am.height);
    }
  }

  /** The partner antenna lies on the intended line, `-g` steps away. */
  lemma PartnerOnLine(a: Coord, b: Coord)
    requires a != b
    ensures exists k: int :: b == Shift(a, Step(a, b), k)
  {
    var s := Step(a, b);
    var g :| g > 0 && a.x - b.x == g * s.x && a.y - b.y == g * s.y;
    assert b == Shift(a, s, -g);
  }

  /** The as-written walk finds a subset of the intended antinodes. */
  lemma HarmonicIsLine(am: AntennaMap, p: Coord)
    requires HarmonicAntinode(am, p)
    ensures LineAntinode(am, p)
  {
    var c :| c in am.antennae && OnOutwardRay(am.antennae[c], p, am.width, am.height);
    var ants := am.antennae[c];
    var i :| 0 <= i < |ants| && OutwardFrom(ants, i, |ants|, p, am.width, am.height);
    var j, k: nat :| 0 <= j < |ants| && ants[i] != ants[j] && IsWithin(ants[i], am.width, am.height)
      && p == Shift(ants[i], Step(ants[i], ants[j]), k);
    assert LineFrom(ants, i, |ants|, p, am.width, am.height);
  }

  /** The steps of the example pair: the offset 3 reduces to 1. */
  lemma ExampleSteps()
    ensures Step(Util.Coord(0, 0), Util.Coord(3, 0)) == Util.Coord(-1, 0)
    ensures Step(Util.Coord(3, 0), Util.Coord(0, 0)) == Util.Coord(1, 0)
  {
    assert Util.Gcd(3, 0) == 3;
  }

  /** In the example, no walk outwards from either antenna reaches (1, 0). */
  lemma ExampleNotOutward(ants: seq<Coord>)
    requires |ants| == 2 && ants[0] == Util.Coord(0, 0) && ants[1] == Util.Coord(3, 0)
    ensures forall i :: 0 <= i < 2 ==> !OutwardFrom(ants, i, 2, Util.Coord(1, 0), 4, 1)
  {
    ExampleSteps();
    forall i, j, k: nat | 0 <= i < 2 && 0 <= j < 2 && ants[i] != ants[j]
      ensures Util.Coord(1, 0) != Shift(ants[i], Step(ants[i], ants[j]), k)
    {
      if i == 0 {
        assert j == 1;
      } else {
        assert j == 0;
      }
    }
  }

  /** In the example, (1, 0) is one step from (0, 0) towards (3, 0). */
  lemma ExampleOnLine(ants: seq<Coord>)
    requires |ants| == 2 && ants[0] == Util.Coord(0, 0) && ants[1] == Util.Coord(3, 0)
    ensures LineFrom(ants, 0, 2, Util.Coord(1, 0), 4, 1)
  {
    ExampleSteps();
    assert Util.Coord(1, 0) == Shift(ants[0], Step(ants[0], ants[1]), -1);
  }

  /**
   * The outward walks miss the points strictly between two antennae whose
   * offset has a gcd above 1: with antennae at (0, 0) and (3, 0) on a
   * 4 by 1 map, (1, 0) is in line with both yet never reached.
   */
  lemma OutwardWalkMissesBetween()
    ensures var am := AntennaMap(4, 1, map['a' := [Util.Coord(0, 0), Util.Coord(3, 0)]]);
      !HarmonicAntinode(am, Util.Coord(1, 0)) && LineAntinode(am, Util.Coord(1, 0))
  {
    var ants := [Util.Coord(0, 0), Util.Coord(3, 0)];
    var am := AntennaMap(4, 1, map['a' := ants]);
    ExampleNotOutward(ants);
    ExampleOnLine(ants);
    assert !OnOutwardRay(am.antennae['a'], Util.Coord(1, 0), 4, 1);
    assert OnLine(am.antennae['a'], Util.Coord(1, 0), 4, 1);
  }
}
