/**
 * The shared utility library of the puzzle solvers: grid coordinates and
 * the four compass directions, a bounds-checked grid, its row-major
 * coordinate iterator, a multiset counter, exact ratios, a mixed-radix
 * combination iterator and Heap's permutation algorithm.
 */
module Util {
  import opened Wrappers
  import opened Arith

  datatype Direction = Up | Down | Left | Right

  /** A grid position: `x` is the column, `y` the row, and `y` grows downwards. */
  datatype Coord = Coord(x: int, y: int)

  predicate IsVertical(d: Direction)
  {
    d == Up || d == Down
  }

  function ManhattanDistance(a: Coord, b: Coord): (r: nat)
    ensures (r == 0) == (a == b)
  {
    Abs(a.x - b.x) + Abs(a.y - b.y)
  }

  /** One step in direction `d`. */
  function Move(c: Coord, d: Direction): Coord
  {
    match d
    case Up => Coord(c.x, c.y - 1)
    case Down => Coord(c.x, c.y + 1)
    case Left => Coord(c.x - 1, c.y)
    case Right => Coord(c.x + 1, c.y)
  }

  /** A step lands on a neighbour: in the same column exactly when vertical, and further along exactly when down or right. */
  lemma MoveAdjacent(c: Coord, d: Direction)
    ensures ManhattanDistance(c, Move(c, d)) == 1
    ensures IsVertical(d) == (Move(c, d).x == c.x)
    ensures (d == Down || d == Right) == (Move(c, d).x + Move(c, d).y > c.x + c.y)
  {
  }

  /** The four orthogonal neighbours, in the order right, left, up, down. */
  function Adjacent(c: Coord): (r: seq<Coord>)
    ensures |r| == 4
    ensures forall n :: n in r <==> ManhattanDistance(c, n) == 1
  {
    [Move(c, Right), Move(c, Left), Move(c, Up), Move(c, Down)]
  }

  function AllDirections(): (r: seq<Direction>)
    ensures |r| == 4 && forall d: Direction :: d in r
    ensures forall i, j :: 0 <= i < j < |r| ==> r[i] != r[j]
  {
    DirectionsListed();
    [Up, Down, Left, Right]
  }

  lemma DirectionsListed()
    ensures forall d: Direction :: d in [Up, Down, Left, Right]
  {
    forall d: Direction ensures d in [Up, Down, Left, Right] {
      match d
      case Up => assert [Up, Down, Left, Right][0] == d;
      case Down => assert [Up, Down, Left, Right][1] == d;
      case Left => assert [Up, Down, Left, Right][2] == d;
      case Right => assert [Up, Down, Left, Right][3] == d;
    }
  }

  function Opposite(d: Direction): (r: Direction)
    ensures r != d && IsVertical(r) == IsVertical(d)
  {
    match d
    case Down => Up
    case Up => Down
    case Left => Right
    case Right => Left
  }

  lemma OppositeInvolution(d: Direction)
    ensures Opposite(Opposite(d)) == d
  {
  }

  lemma MoveOpposite(c: Coord, d: Direction)
    ensures Move(Move(c, d), Opposite(d)) == c
  {
  }

  function Perpendicular(d: Direction): (r: seq<Direction>)
    ensures |r| == 2 && r[0] != r[1]
    ensures forall e :: e in r <==> IsVertical(e) != IsVertical(d)
    ensures d !in r && Opposite(d) !in r
  {
    if IsVertical(d) then [Left, Right] else [Up, Down]
  }

  /** The arrow characters `<`, `>`, `^` and `v`; anything else is rejected. */
  function FromChar(ch: char): (r: Option<Direction>)
    ensures r.Some? <==> ch in {'<', '>', '^', 'v'}
    ensures r == Some(Up) <==> ch == '^'
    ensures r == Some(Down) <==> ch == 'v'
    ensures r == Some(Left) <==> ch == '<'
    ensures r == Some(Right) <==> ch == '>'
  {
    match ch
    case '<' => Some(Left)
    case '>' => Some(Right)
    case '^' => Some(Up)
    case 'v' => Some(Down)
    case _ => None
  }

  /** `k` steps from `c` in direction `d`. */
  function MoveN(c: Coord, d: Direction, k: nat): (r: Coord)
  {
    if k == 0 then c else Move(MoveN(c, d, k - 1), d)
  }

  /** The column change of one step in direction `d`. */
  function DX(d: Direction): int
  {
    match d
    case Left => -1
    case Right => 1
    case _ => 0
  }

  /** The row change of one step in direction `d`. */
  function DY(d: Direction): int
  {
    match d
    case Up => -1
    case Down => 1
    case _ => 0
  }

  /** `k` steps along `d` shift the position by `k` unit offsets. */
  lemma {:induction false} MoveNShift(c: Coord, d: Direction, k: nat)
    ensures MoveN(c, d, k) == Coord(c.x + k * DX(d), c.y + k * DY(d))
  {
    if k > 0 {
      MoveNShift(c, d, k - 1);
      assert (k - 1) * DX(d) + DX(d) == k * DX(d);
      assert (k - 1) * DY(d) + DY(d) == k * DY(d);
    }
  }

  /** A ray from `c` leaves every finite set: some step past `c` lands outside it. */
  lemma {:induction false} RayLeaves(s: set<Coord>, c: Coord, d: Direction) returns (n: nat)
    ensures n >= 1 && MoveN(c, d, n) !in s
    decreases |s|
  {
    var c1 := Move(c, d);
    if c1 !in s {
      return 1;
    }
    var m := RayLeaves(s - {c1}, c1, d);
    MoveNShift(c1, d, m);
    MoveNShift(c, d, m + 1);
    assert MoveN(c1, d, m) != c1 by {
      assert m * DX(d) != 0 || m * DY(d) != 0;
    }
    n := m + 1;
  }

  /**
   * Steps from `c` along `d` for as long as the next cell satisfies `p`.
   * The source loops forever when `p` holds all the way along the ray,
   * so a caller must know that some cell on it fails `p`.
   */
  method MoveWhile(c: Coord, d: Direction, p: Coord -> bool) returns (r: Coord, ghost k: nat)
    requires exists n: nat :: n >= 1 && !p(MoveN(c, d, n))
    ensures r == MoveN(c, d, k)
    ensures forall j :: 1 <= j <= k ==> p(MoveN(c, d, j))
    ensures !p(Move(r, d))
  {
    ghost var bound :| bound >= 1 && !p(MoveN(c, d, bound));
    r, k := c, 0;
    while p(Move(r, d))
      invariant r == MoveN(c, d, k)
      invariant forall j :: 1 <= j <= k ==> p(MoveN(c, d, j))
      invariant k < bound
      decreases bound - k
    {
      r, k := Move(r, d), k + 1;
    }
  }

  // ---------------------------------------------------------------- grids

  /** `c` names a cell of `g`: the row exists and is long enough. */
  predicate InBounds<T>(g: seq<seq<T>>, c: Coord)
  {
    0 <= c.y < |g| && 0 <= c.x < |g[c.y]|
  }

  /** Bounds-checked lookup: `None` for a negative coordinate or one past its row. */
  function Get<T>(g: seq<seq<T>>, c: Coord): (r: Option<T>)
    ensures r.Some? <==> InBounds(g, c)
    ensures r.Some? ==> r.value == g[c.y][c.x]
  {
    if c.x < 0 || c.y < 0 then None
    else if c.y >= |g| || c.x >= |g[c.y]| then None
    else Some(g[c.y][c.x])
  }

  /** The grid with the cell at `c` replaced by `v`. */
  function Updated<T>(g: seq<seq<T>>, c: Coord, v: T): (r: seq<seq<T>>)
    requires InBounds(g, c)
    ensures |r| == |g| && forall y :: 0 <= y < |g| ==> |r[y]| == |g[y]|
  {
    g[c.y := g[c.y][c.x := v]]
  }

  /** After a write, the written cell reads back the new value and every other cell is as before. */
  lemma GetUpdated<T>(g: seq<seq<T>>, c: Coord, v: T, c': Coord)
    requires InBounds(g, c)
    ensures Get(Updated(g, c, v), c') == if c' == c then Some(v) else Get(g, c')
  {
  }

  /** A grid of `height` rows of `width` copies of `default`. */
  function WithDimensions<T>(width: nat, height: nat, default: T): (r: seq<seq<T>>)
    ensures forall c :: InBounds(r, c) <==> 0 <= c.x < width && 0 <= c.y < height
    ensures forall c :: InBounds(r, c) ==> Get(r, c) == Some(default)
  {
    seq(height, _ => seq(width, _ => default))
  }

  /** A grid whose cells the source writes in place. */
  class Grid<T> {
    var rows: seq<seq<T>>

    constructor (rows0: seq<seq<T>>)
      ensures rows == rows0
    {
      rows := rows0;
    }

    /** Writes `v` at `c` when `c` is in bounds; reports whether it did. */
    method Set(c: Coord, v: T) returns (ok: bool)
      modifies this
      ensures ok == InBounds(old(rows), c)
      ensures rows == if ok then Updated(old(rows), c, v) else old(rows)
    {
      if c.x < 0 || c.y < 0 {
        return false;
      }
      if c.y >= |rows| || c.x >= |rows[c.y]| {
        return false;
      }
      rows := rows[c.y := rows[c.y][c.x := v]];
      ok := true;
    }
  }

  /** Width the coordinate iterator takes from a grid: its first row's length. */
  function Width<T>(g: seq<seq<T>>): nat
  {
    if |g| > 0 then |g[0]| else 0
  }

  /** The `k`-th coordinate (from 0) the iterator yields for a grid of width `w`. */
  function NthCoord(k: nat, w: nat): Coord
  {
    if w >= 1 then Coord(k % w, k / w) else Coord(0, k + 1)
  }

  /**
   * How many coordinates the iterator yields: `w * h`, except that a grid
   * whose first row is empty yields one coordinate per row after the first.
   */
  function CoordCount(w: nat, h: nat): nat
  {
    if w >= 1 then w * h else if h >= 1 then h - 1 else 0
  }

  lemma NthCoordStep(k: nat, w: nat)
    requires w >= 1
    ensures k % w + 1 >= w ==> NthCoord(k + 1, w) == Coord(0, k / w + 1)
    ensures k % w + 1 < w ==> NthCoord(k + 1, w) == Coord(k % w + 1, k / w)
  {
    if k % w + 1 >= w {
      DivUnique(k + 1, w, k / w + 1, 0);
    } else {
      DivUnique(k + 1, w, k / w, k % w + 1);
    }
  }

  lemma DivBelow(k: nat, w: nat, h: nat)
    requires w >= 1
    ensures k / w < h <==> k < w * h
  {
    var q := k / w;
    if q < h {
      MulMonotone(w, q + 1, h);
    } else {
      MulMonotone(w, h, q);
    }
  }

  /** Row-major walk over a grid's coordinates, `x` varying fastest. */
  class CoordIter {
    var xCurr: int
    var yCurr: int
    var width: nat
    var height: nat
    /** Number of calls to `Next` so far. */
    ghost var produced: nat

    ghost predicate Valid()
      reads this
    {
      if produced == 0 then xCurr == -1 && yCurr == 0
      else Coord(xCurr, yCurr) == NthCoord(produced - 1, width)
    }

    constructor (w: nat, h: nat)
      ensures Valid() && produced == 0 && width == w && height == h
    {
      xCurr, yCurr, width, height := -1, 0, w, h;
      produced := 0;
    }

    method Next() returns (r: Option<Coord>)
      requires Valid()
      modifies this
      ensures Valid() && produced == old(produced) + 1
      ensures width == old(width) && height == old(height)
      ensures r == if old(produced) < CoordCount(width, height) then Some(NthCoord(old(produced), width)) else None
    {
      if produced > 0 && width >= 1 {
        NthCoordStep(produced - 1, width);
      }
      xCurr := xCurr + 1;
      if xCurr >= width {
        xCurr := 0;
        yCurr := yCurr + 1;
      }
      produced := produced + 1;
      if width >= 1 {
        DivBelow(produced - 1, width, height);
      }
      if yCurr >= height {
        r := None;
      } else {
        r := Some(Coord(xCurr, yCurr));
      }
    }
  }

  /** Every coordinate `iter_coords` yields for `g`, in order. */
  method IterCoords<T>(g: seq<seq<T>>) returns (cs: seq<Coord>)
    ensures |cs| == CoordCount(Width(g), |g|)
    ensures forall k :: 0 <= k < |cs| ==> cs[k] == NthCoord(k, Width(g))
  {
    var it := new CoordIter(Width(g), |g|);
    cs := [];
    var next := it.Next();
    while next.Some?
      invariant it.Valid() && it.width == Width(g) && it.height == |g|
      invariant it.produced == |cs| + 1 && |cs| <= CoordCount(Width(g), |g|)
      invariant next == if |cs| < CoordCount(Width(g), |g|) then Some(NthCoord(|cs|, Width(g))) else None
      invariant forall k :: 0 <= k < |cs| ==> cs[k] == NthCoord(k, Width(g))
      decreases CoordCount(Width(g), |g|) - |cs|
    {
      cs := cs + [next.value];
      next := it.Next();
    }
  }

  /**
   * The (coordinate, cell) pairs `iter` yields: it follows the coordinate
   * iterator and stops at the first coordinate the grid cannot serve.
   */
  method Items<T>(g: seq<seq<T>>) returns (items: seq<(Coord, T)>)
    ensures |items| <= CoordCount(Width(g), |g|)
    ensures forall k :: 0 <= k < |items| ==>
      InBounds(g, NthCoord(k, Width(g))) && items[k] == (NthCoord(k, Width(g)), g[NthCoord(k, Width(g)).y][NthCoord(k, Width(g)).x])
    ensures |items| < CoordCount(Width(g), |g|) ==> !InBounds(g, NthCoord(|items|, Width(g)))
  {
    var it := new CoordIter(Width(g), |g|);
    items := [];
    var done := false;
    while !done
      invariant it.Valid() && it.width == Width(g) && it.height == |g|
      invariant it.produced == |items| + (if done then 1 else 0)
      invariant |items| <= CoordCount(Width(g), |g|)
      invariant forall k :: 0 <= k < |items| ==>
        InBounds(g, NthCoord(k, Width(g))) && items[k] == (NthCoord(k, Width(g)), g[NthCoord(k, Width(g)).y][NthCoord(k, Width(g)).x])
      invariant done && |items| < CoordCount(Width(g), |g|) ==> !InBounds(g, NthCoord(|items|, Width(g)))
      decreases CoordCount(Width(g), |g|) - |items|, if done then 0 else 1
    {
      var next := it.Next();
      if next.None? {
        done := true;
      } else {
        var cell := Get(g, next.value);
        if cell.None? {
          done := true;
        } else {
          items := items + [(next.value, cell.value)];
        }
      }
    }
  }

  /** All rows of `g` have the first row's length. */
  predicate Rectangular<T>(g: seq<seq<T>>)
  {
    forall y :: 0 <= y < |g| ==> |g[y]| == Width(g)
  }

  /** On a rectangular grid of width `w >= 1` every coordinate the iterator yields is in bounds, so `iter` visits all `w * h` cells. */
  lemma RectangularServesAll<T>(g: seq<seq<T>>, k: nat)
    requires Rectangular(g) && Width(g) >= 1 && k < Width(g) * |g|
    ensures InBounds(g, NthCoord(k, Width(g)))
  {
    DivBelow(k, Width(g), |g|);
  }

  // ------------------------------------------------------------- counter

  /** Sum of the values of a map. */
  ghost function MapSum<K>(m: map<K, nat>): nat
  {
    if m == map[] then 0
    else
      var k :| k in m;
      m[k] + MapSum(m - {k})
  }

  lemma {:induction false} MapSumRemove<K>(m: map<K, nat>, k: K)
    requires k in m
    ensures MapSum(m) == m[k] + MapSum(m - {k})
    decreases |m|
  {
    var k' :| k' in m && MapSum(m) == m[k'] + MapSum(m - {k'});
    if k' != k {
      MapSumRemove(m - {k'}, k);
      MapSumRemove(m - {k}, k');
      assert m - {k'} - {k} == m - {k} - {k'};
    }
  }

  /** Setting one entry changes the sum by the difference of the old and new value. */
  lemma MapSumUpdate<K>(m: map<K, nat>, k: K, v: nat)
    ensures MapSum(m[k := v]) == MapSum(m) - (if k in m then m[k] else 0) + v
  {
    MapSumRemove(m[k := v], k);
    assert m[k := v] - {k} == m - {k};
    if k in m {
      MapSumRemove(m, k);
    } else {
      assert m - {k} == m;
    }
  }

  /** A multiset counter: how often each item has been seen. */
  class Counter<T(==)> {
    var counts: map<T, nat>

    constructor ()
      ensures counts == map[]
    {
      counts := map[];
    }

    /** How often `item` was counted; 0 for an item never seen. */
    function Get(item: T): (r: nat)
      reads this
      ensures item !in counts ==> r == 0
      ensures item in counts ==> r == counts[item]
    {
      if item in counts then counts[item] else 0
    }

    method Count(item: T)
      modifies this
      ensures counts == old(counts)[item := old(Get(item)) + 1]
      ensures MapSum(counts) == old(MapSum(counts)) + 1
    {
      MapSumUpdate(counts, item, Get(item) + 1);
      counts := counts[item := Get(item) + 1];
    }

    method CountN(item: T, n: nat)
      modifies this
      ensures counts == old(counts)[item := old(Get(item)) + n]
      ensures MapSum(counts) == old(MapSum(counts)) + n
    {
      MapSumUpdate(counts, item, Get(item) + n);
      counts := counts[item := Get(item) + n];
    }

    method CountAll(items: seq<T>)
      modifies this
      ensures forall x :: Get(x) == (if x in old(counts) then old(counts)[x] else 0) + multiset(items)[x]
      ensures MapSum(counts) == old(MapSum(counts)) + |items|
    {
      var i := 0;
      while i < |items|
        invariant 0 <= i <= |items|
        invariant forall x :: Get(x) == (if x in old(counts) then old(counts)[x] else 0) + multiset(items[..i])[x]
        invariant MapSum(counts) == old(MapSum(counts)) + i
      {
        assert items[..i + 1] == items[..i] + [items[i]];
        Count(items[i]);
        i := i + 1;
      }
      assert items[..i] == items;
    }

    /** The sum of all counts. */
    method Total() returns (t: nat)
      ensures t == MapSum(counts)
    {
      var rest := counts;
      t := 0;
      while rest != map[]
        invariant t + MapSum(rest) == MapSum(counts)
        decreases |rest|
      {
        var k :| k in rest;
        MapSumRemove(rest, k);
        t := t + rest[k];
        rest := rest - {k};
      }
    }
  }

  // ----------------------------------------------------------------- gcd

  /**
   * Euclid's algorithm with Rust's truncating remainder. The result divides
   * both arguments and is 0 only for gcd(0, 0); its sign depends on the
   * signs of the arguments.
   */
  function Gcd(a: int, b: int): (r: int)
    ensures Divides(r, a) && Divides(r, b)
    ensures (r == 0) == (a == 0 && b == 0)
    decreases Abs(b)
  {
    if b == 0 then a
    else
      var r := Gcd(b, RemT(a, b));
      EuclidStep(a, b, r);
      r
  }

  /** Every common divisor of `a` and `b` divides `Gcd(a, b)`. */
  lemma {:induction false} GcdGreatest(a: int, b: int, d: int)
    requires Divides(d, a) && Divides(d, b)
    ensures Divides(d, Gcd(a, b))
    decreases Abs(b)
  {
    if b != 0 {
      EuclidStep(a, b, d);
      GcdGreatest(b, RemT(a, b), d);
    }
  }

  /** Bezout's identity: `Gcd(a, b)` is an integer combination of `a` and `b`. */
  lemma {:induction false} GcdBezout(a: int, b: int) returns (u: int, v: int)
    ensures Gcd(a, b) == u * a + v * b
    decreases Abs(b)
  {
    if b == 0 {
      u, v := 1, 0;
    } else {
      var q, r := DivT(a, b), RemT(a, b);
      var u1, v1 := GcdBezout(b, r);
      assert Gcd(a, b) == Gcd(b, r);
      BezoutStep(a, b, q, r, u1, v1);
      u, v := v1, u1 - v1 * q;
    }
  }

  /** One step of Euclid's algorithm carries a combination of `b` and `a - b * q` back to `a` and `b`. */
  lemma BezoutStep(a: int, b: int, q: int, r: int, u1: int, v1: int)
    requires a == b * q + r
    ensures u1 * b + v1 * r == v1 * a + (u1 - v1 * q) * b
  {
    assert v1 * r == v1 * a - v1 * (b * q);
    assert (u1 - v1 * q) * b == u1 * b - (v1 * q) * b;
    MulAssoc(v1, b, q);
    MulAssoc(v1, q, b);
  }

  // --------------------------------------------------------------- ratio

  /** An exact fraction; the denominator may be 0 or negative. */
  datatype Ratio = Ratio(numerator: int, denominator: int)

  /** `x` and `y` denote the same rational number (for non-zero denominators). */
  ghost predicate SameValue(x: Ratio, y: Ratio)
  {
    x.numerator * y.denominator == y.numerator * x.denominator
  }

  /**
   * Lowest terms: a zero denominator is left alone, a zero numerator gives
   * 0/1, and otherwise both parts are divided by their gcd.
   */
  function Reduce(x: Ratio): (r: Ratio)
    ensures x.denominator == 0 ==> r == x
    ensures x.denominator != 0 && x.numerator == 0 ==> r == Ratio(0, 1)
    ensures x.denominator != 0 ==> r.denominator != 0 && SameValue(r, x)
  {
    if x.denominator == 0 then x
    else if x.numerator == 0 then Ratio(0, 1)
    else
      var g := Gcd(x.numerator, x.denominator);
      var n, d := DivT(x.numerator, g), DivT(x.denominator, g);
      DivTExact(x.numerator, g);
      DivTExact(x.denominator, g);
      ReduceSameValue(x.numerator, x.denominator, g, n, d);
      Ratio(n, d)
  }

  lemma ReduceSameValue(a: int, b: int, g: int, n: int, d: int)
    requires a == g * n && b == g * d
    ensures n * b == a * d
  {
    calc {
      n * b;
      n * (g * d);
      { MulAssoc(n, g, d); }
      (n * g) * d;
      a * d;
    }
  }

  function IsNegative(x: Ratio): (r: bool)
    ensures x.numerator != 0 && x.denominator != 0 ==> (r <==> x.numerator * x.denominator < 0)
  {
    (x.numerator < 0) != (x.denominator < 0)
  }

  /**
   * `x` is an integer multiple of `y`, judged part by part: both numerators
   * and both denominators divide exactly and the first quotient is a
   * multiple of the second. The source divides by zero, and panics, when
   * a divisor it reaches is zero: `y`'s numerator, `y`'s denominator once
   * the numerators divide, or the denominator quotient once both divide.
   */
  function IsMultipleOf(x: Ratio, y: Ratio): (r: bool)
    requires y.numerator != 0
    requires RemT(x.numerator, y.numerator) == 0 ==> y.denominator != 0
    requires RemT(x.numerator, y.numerator) == 0 && RemT(x.denominator, y.denominator) == 0 ==> DivT(x.denominator, y.denominator) != 0
    ensures r ==> (RemT(x.numerator, y.numerator) == 0 && RemT(x.denominator, y.denominator) == 0 &&
                   x.denominator != 0 &&
                   SameValue(x, Mul(Ratio(DivT(DivT(x.numerator, y.numerator), DivT(x.denominator, y.denominator)), 1), y)))
  {
    if RemT(x.numerator, y.numerator) != 0 || RemT(x.denominator, y.denominator) != 0 then false
    else
      var k1 := DivT(x.numerator, y.numerator);
      var k2 := DivT(x.denominator, y.denominator);
      var ok := RemT(k1, k2) == 0;
      if ok then
        MultipleValue(x.numerator, x.denominator, y.numerator, y.denominator, k1, k2, DivT(k1, k2));
        MulPositiveOrNegative(y.denominator, k2);
        ok
      else ok
  }

  lemma MultipleValue(a: int, b: int, c: int, d: int, k1: int, k2: int, m: int)
    requires c != 0 && d != 0 && k2 != 0
    requires a == c * k1 && b == d * k2
    requires k1 == k2 * m
    ensures a * d == (m * c) * b
  {
    calc {
      a * d;
      (c * (k2 * m)) * d;
      { MulAssoc(c, k2, m); }
      ((c * k2) * m) * d;
      { MulAssoc(c * k2, m, d); }
      (c * k2) * (m * d);
      { MulAssoc(c, k2, m * d); }
      c * (k2 * (m * d));
      { MulAssoc(k2, m, d); }
      c * ((k2 * m) * d);
      c * ((m * k2) * d);
      { MulAssoc(m, k2, d); }
      c * (m * (k2 * d));
      c * (m * (d * k2));
      { MulAssoc(c, m, d * k2); }
      (c * m) * (d * k2);
      (m * c) * b;
    }
  }

  /** Rust's `%` test: the numerator is an exact multiple of the denominator. */
  function IsInteger(x: Ratio): (r: bool)
    requires x.denominator != 0
    ensures r <==> x.numerator == x.denominator * AsInteger(x)
  {
    RemT(x.numerator, x.denominator) == 0
  }

  /** Truncating integer part. */
  function AsInteger(x: Ratio): (r: int)
    requires x.denominator != 0
    ensures Abs(x.numerator - x.denominator * r) < Abs(x.denominator)
  {
    DivT(x.numerator, x.denominator)
  }

  function Add(x: Ratio, y: Ratio): (r: Ratio)
    ensures x.denominator != 0 && y.denominator != 0 ==>
      r.denominator != 0 && r.numerator * (x.denominator * y.denominator) == (x.numerator * y.denominator + x.denominator * y.numerator) * r.denominator
  {
    Reduce(Ratio(x.numerator * y.denominator + x.denominator * y.numerator, x.denominator * y.denominator))
  }

  function Neg(x: Ratio): (r: Ratio)
    ensures x.numerator != 0 ==> IsNegative(r) != IsNegative(x)
    ensures SameValue(Add(x, r), Ratio(0, 1)) || x.denominator == 0
  {
    var r := Ratio(-1 * x.numerator, x.denominator);
    NegCancels(x.numerator, x.denominator);
    r
  }

  lemma NegCancels(a: int, b: int)
    ensures a * b + b * (-1 * a) == 0
  {
  }

  function Sub(x: Ratio, y: Ratio): (r: Ratio)
    ensures x.denominator != 0 && y.denominator != 0 ==>
      r.denominator != 0 && r.numerator * (x.denominator * y.denominator) == (x.numerator * y.denominator - x.denominator * y.numerator) * r.denominator
  {
    var r := Add(x, Neg(y));
    NegMulRight(x.denominator, y.numerator);
    r
  }

  lemma NegMulRight(b: int, c: int)
    ensures b * (-1 * c) == -(b * c)
  {
  }

  /** Product of numerators over product of denominators, not reduced. */
  function Mul(x: Ratio, y: Ratio): (r: Ratio)
    ensures x.denominator != 0 && y.denominator != 0 ==> r.denominator != 0
  {
    Ratio(x.numerator * y.numerator, x.denominator * y.denominator)
  }

  function Div(x: Ratio, y: Ratio): (r: Ratio)
    ensures x.denominator != 0 && y.numerator != 0 ==> r.denominator != 0
  {
    Ratio(x.numerator * y.denominator, x.denominator * y.numerator)
  }

  function FromInt(v: int): (r: Ratio)
    ensures r.denominator != 0 && IsInteger(r) && AsInteger(r) == v
  {
    Ratio(v, 1)
  }

  /** Equality compares the reduced forms. */
  function Eq(x: Ratio, y: Ratio): (r: bool)
    ensures r && x.denominator != 0 && y.denominator != 0 ==> SameValue(x, y)
  {
    var rx, ry := Reduce(x), Reduce(y);
    if rx == ry && x.denominator != 0 && y.denominator != 0 then
      EqualReducedSameValue(x, y, rx);
      true
    else rx == ry
  }

  lemma EqualReducedSameValue(x: Ratio, y: Ratio, z: Ratio)
    requires z.denominator != 0 && SameValue(z, x) && SameValue(z, y)
    ensures SameValue(x, y)
  {
    var p, q := z.numerator, z.denominator;
    // p * xd == xn * q and p * yd == yn * q, so q * (xn * yd) == q * (yn * xd).
    calc {
      q * (x.numerator * y.denominator);
      { MulAssoc(q, x.numerator, y.denominator); }
      (x.numerator * q) * y.denominator;
      (p * x.denominator) * y.denominator;
      { MulAssoc(p, x.denominator, y.denominator); }
      p * (y.denominator * x.denominator);
      { MulAssoc(p, y.denominator, x.denominator); }
      (p * y.denominator) * x.denominator;
      (y.numerator * q) * x.denominator;
      { MulAssoc(q, y.numerator, x.denominator); }
      q * (y.numerator * x.denominator);
    }
    MulCancel(q, x.numerator * y.denominator, y.numerator * x.denominator);
  }

  lemma MulCancel(q: int, a: int, b: int)
    requires q != 0 && q * a == q * b
    ensures a == b
  {
    if a < b {
      if q > 0 { MulMonotone(q, a + 1, b); } else { MulMonotone(-q, a + 1, b); }
    } else if a > b {
      if q > 0 { MulMonotone(q, b + 1, a); } else { MulMonotone(-q, b + 1, a); }
    }
  }

  /** Adding then subtracting the same ratio gives back the original value. */
  lemma AddSubRoundTrip(x: Ratio, y: Ratio)
    requires x.denominator != 0 && y.denominator != 0
    ensures SameValue(Sub(Add(x, y), y), x)
  {
    var s := Add(x, y);
    var t := Sub(s, y);
    var a, b, c, d := x.numerator, x.denominator, y.numerator, y.denominator;
    // s = (a*d + b*c) / (b*d) and t = (sn*d - sd*c) / (sd*d), both up to scaling.
    assert s.numerator * (b * d) == (a * d + b * c) * s.denominator;
    assert t.numerator * (s.denominator * d) == (s.numerator * d - s.denominator * c) * t.denominator;
    RoundTripAlgebra(a, b, c, d, s.numerator, s.denominator, t.numerator, t.denominator);
  }

  lemma RoundTripAlgebra(a: int, b: int, c: int, d: int, sn: int, sd: int, tn: int, td: int)
    requires b != 0 && d != 0 && sd != 0 && td != 0
    requires sn * (b * d) == (a * d + b * c) * sd
    requires tn * (sd * d) == (sn * d - sd * c) * td
    ensures tn * b == a * td
  {
    // Multiply the second equation by b: tn*sd*d*b == (sn*b*d - sd*c*b)*td == (a*d*sd)*td.
    assert (sn * d - sd * c) * b == a * d * sd by {
      assert sn * (b * d) == (a * d + b * c) * sd;
      assert (sn * d) * b == sn * (b * d);
      assert (sd * c) * b == (b * c) * sd;
    }
    assert (tn * b) * (sd * d) == (a * td) * (sd * d) by {
      assert (tn * b) * (sd * d) == (tn * (sd * d)) * b;
      assert (tn * (sd * d)) * b == ((sn * d - sd * c) * td) * b;
      assert ((sn * d - sd * c) * td) * b == ((sn * d - sd * c) * b) * td;
      assert ((sn * d - sd * c) * b) * td == (a * d * sd) * td;
      assert (a * d * sd) * td == (a * td) * (sd * d);
    }
    MulPositiveOrNegative(sd, d);
    MulCancel(sd * d, tn * b, a * td);
  }

  lemma MulPositiveOrNegative(a: int, b: int)
    requires a != 0 && b != 0
    ensures a * b != 0
  {
    if a > 0 && b > 0 { MulPositive(a, b); }
    else if a > 0 { MulPositive(a, -b); }
    else if b > 0 { MulPositive(-a, b); }
    else { MulPositive(-a, -b); }
  }

  /** Multiplying then dividing by the same non-zero ratio gives back the original value. */
  lemma MulDivRoundTrip(x: Ratio, y: Ratio)
    requires x.denominator != 0 && y.numerator != 0 && y.denominator != 0
    ensures SameValue(Div(Mul(x, y), y), x)
  {
    var a, b, c, d := x.numerator, x.denominator, y.numerator, y.denominator;
    calc {
      ((a * c) * d) * b;
      { MulAssoc(a * c, d, b); }
      (a * c) * (d * b);
      { MulAssoc(a, c, d * b); }
      a * (c * (d * b));
      { MulAssoc(c, d, b); MulAssoc(b, d, c); }
      a * ((b * d) * c);
    }
  }

  // ------------------------------------------------------ combo iterator

  /** Digit `ix` of `k` written in base `m`, least significant first. */
  function Digit(k: nat, m: nat, ix: nat): (r: nat)
    requires m > 0
    ensures r < m
  {
    PowPositive(m, ix);
    (k / Pow(m, ix)) % m
  }

  lemma PowZero(len: nat)
    requires len > 0
    ensures Pow(0, len) == 0
  {
  }

  /**
   * Enumerates the `m^len` vectors of length `len` over `m` options: the
   * `k`-th vector writes `k` in base `m`, so its first position varies
   * fastest. `T(0)` stands for the source's `Default` bound.
   */
  class ComboIter<T(0)> {
    const options: seq<T>
    const len: nat
    var curr: nat

    constructor (options0: seq<T>, len0: nat)
      ensures options == options0 && len == len0 && curr == 0
    {
      options, len, curr := options0, len0, 0;
    }

    method Next() returns (r: Option<seq<T>>)
      modifies this
      ensures old(curr) >= Pow(|options|, len) ==> r == None && curr == old(curr)
      ensures old(curr) < Pow(|options|, len) ==> curr == old(curr) + 1 && r.Some? && IsCombo(r.value, options, len, old(curr))
    {
      if curr >= Pow(|options|, len) {
        return None;
      }
      var combo := ComboOf(options, len, curr);
      curr := curr + 1;
      r := Some(combo);
    }
  }

  /** Writes `c` in base `|options|`, one option per digit; the body of `ComboIter::next`. */
  method ComboOf<T(0)>(options: seq<T>, len: nat, c: nat) returns (combo: seq<T>)
    requires c < Pow(|options|, len)
    ensures IsCombo(combo, options, len, c)
  {
    var m := |options|;
    if len > 0 && m == 0 {
      PowZero(len);
    }
    var buf := new T[len];
    var cur, ix := c, 0;
    while ix < len
      invariant 0 <= ix <= len
      invariant ix < len ==> m > 0
      invariant m > 0 ==> Pow(m, ix) > 0 && cur == c / Pow(m, ix)
      invariant forall j :: 0 <= j < ix ==> buf[j] == options[Digit(c, m, j)]
    {
      buf[ix] := options[cur % m];
      ShiftDigit(c, m, ix);
      cur := cur / m;
      ix := ix + 1;
    }
    combo := buf[..];
  }

  lemma ShiftDigit(c: nat, m: nat, ix: nat)
    requires m > 0
    ensures Pow(m, ix) > 0 && Pow(m, ix + 1) > 0
    ensures (c / Pow(m, ix)) / m == c / Pow(m, ix + 1)
  {
    PowPositive(m, ix);
    PowPositive(m, ix + 1);
    DivDiv(c, Pow(m, ix), m);
    assert Pow(m, ix + 1) == Pow(m, ix) * m;
  }

  /** `v` is the `k`-th combination of length `len` over `options`. */
  ghost predicate IsCombo<T>(v: seq<T>, options: seq<T>, len: nat, k: nat)
  {
    |v| == len && forall ix :: 0 <= ix < len ==> 0 < |options| && v[ix] == options[Digit(k, |options|, ix)]
  }

  /** Digit `ix` of `k / m` is digit `ix + 1` of `k`. */
  lemma DigitShift(k: nat, m: nat, ix: nat)
    requires m > 0
    ensures Digit(k / m, m, ix) == Digit(k, m, ix + 1)
  {
    PowPositive(m, ix);
    DivDiv(k, m, Pow(m, ix));
    assert Pow(m, ix + 1) == m * Pow(m, ix);
  }

  /** Numbers below `m^len` with the same `len` digits in base `m` are equal. */
  lemma {:induction false} DigitsDetermine(k1: nat, k2: nat, m: nat, len: nat)
    requires m > 0 && k1 < Pow(m, len) && k2 < Pow(m, len)
    requires forall ix :: 0 <= ix < len ==> Digit(k1, m, ix) == Digit(k2, m, ix)
    ensures k1 == k2
    decreases len
  {
    if len > 0 {
      var p := Pow(m, len - 1);
      forall ix | 0 <= ix < len - 1
        ensures Digit(k1 / m, m, ix) == Digit(k2 / m, m, ix)
      {
        DigitShift(k1, m, ix);
        DigitShift(k2, m, ix);
      }
      QuotientBound(k1, m, p);
      QuotientBound(k2, m, p);
      DigitsDetermine(k1 / m, k2 / m, m, len - 1);
      LowDigit(k1, m);
      LowDigit(k2, m);
      SameQuotientRemainder(k1, k2, m);
    }
  }

  lemma LowDigit(k: nat, m: nat)
    requires m > 0
    ensures Digit(k, m, 0) == k % m
  {
    assert Pow(m, 0) == 1;
  }

  lemma QuotientBound(k: nat, m: nat, p: nat)
    requires m > 0 && k < m * p
    ensures k / m < p
  {
    if k / m >= p {
      MulMonotone(m, p, k / m);
    }
  }

  lemma SameQuotientRemainder(k1: nat, k2: nat, m: nat)
    requires m > 0 && k1 / m == k2 / m && k1 % m == k2 % m
    ensures k1 == k2
  {
  }

  /** Over pairwise-different options, combinations of different indices differ. */
  lemma CombosDistinct<T>(options: seq<T>, len: nat, k1: nat, k2: nat, v1: seq<T>, v2: seq<T>)
    requires forall i, j :: 0 <= i < j < |options| ==> options[i] != options[j]
    requires k1 < Pow(|options|, len) && k2 < Pow(|options|, len) && k1 != k2
    requires IsCombo(v1, options, len, k1) && IsCombo(v2, options, len, k2)
    ensures v1 != v2
  {
    var m := |options|;
    if len == 0 {
      assert false;
    }
    if forall ix :: 0 <= ix < len ==> Digit(k1, m, ix) == Digit(k2, m, ix) {
      DigitsDetermine(k1, k2, m, len);
      assert false;
    }
    var ix :| 0 <= ix < len && Digit(k1, m, ix) != Digit(k2, m, ix);
    assert v1[ix] != v2[ix];
  }

  /** Drains a fresh combination iterator. */
  method AllCombos<T(0)>(options: seq<T>, len: nat) returns (combos: seq<seq<T>>)
    ensures |combos| == Pow(|options|, len)
    ensures forall k :: 0 <= k < |combos| ==> IsCombo(combos[k], options, len, k)
    ensures (forall i, j :: 0 <= i < j < |options| ==> options[i] != options[j]) ==>
      forall k1, k2 :: 0 <= k1 < k2 < |combos| ==> combos[k1] != combos[k2]
  {
    PowNonNegative(|options|, len);
    var it := new ComboIter(options, len);
    combos := [];
    var next := it.Next();
    while next.Some?
      invariant it.options == options && it.len == len
      invariant next.Some? ==> |combos| + 1 == it.curr <= Pow(|options|, len) && IsCombo(next.value, options, len, |combos|)
      invariant next.None? ==> |combos| == Pow(|options|, len)
      invariant forall k :: 0 <= k < |combos| ==> IsCombo(combos[k], options, len, k)
      decreases Pow(|options|, len) - |combos|
    {
      combos := combos + [next.value];
      next := it.Next();
    }
    if forall i, j :: 0 <= i < j < |options| ==> options[i] != options[j] {
      forall k1, k2 | 0 <= k1 < k2 < |combos|
        ensures combos[k1] != combos[k2]
      {
        CombosDistinct(options, len, k1, k2, combos[k1], combos[k2]);
      }
    }
  }

  // -------------------------------------------------------- permutations

  /** `p` rearranges `orig` and agrees with it from position `n` on. */
  ghost predicate PermutesPrefix<T>(p: seq<T>, orig: seq<T>, n: nat)
  {
    |p| == |orig| && multiset(p) == multiset(orig) && forall j :: n <= j < |p| ==> p[j] == orig[j]
  }

  lemma PermutesPrefixTrans<T>(p: seq<T>, q: seq<T>, orig: seq<T>, n: nat)
    requires PermutesPrefix(p, q, n) && PermutesPrefix(q, orig, n)
    ensures PermutesPrefix(p, orig, n)
  {
  }

  lemma PermutesPrefixWiden<T>(p: seq<T>, q: seq<T>, k: nat, n: nat)
    requires PermutesPrefix(p, q, k) && k <= n
    ensures PermutesPrefix(p, q, n)
  {
  }

  lemma SwapPermutesPrefix<T>(s: seq<T>, x: nat, y: nat, n: nat)
    requires x < y < n <= |s|
    ensures PermutesPrefix(s[x := s[y]][y := s[x]], s, n)
  {
    var t := s[x := s[y]][y := s[x]];
    assert t == s[..x] + [s[y]] + s[x + 1..y] + [s[x]] + s[y + 1..];
    assert s == s[..x] + [s[x]] + s[x + 1..y] + [s[y]] + s[y + 1..];
  }

  /**
   * Heap's algorithm on a value: the rearrangements it lists, in order, and
   * the order it leaves the slice in. Only the first `n` positions move.
   */
  function Heap<T>(s: seq<T>, n: nat): (r: (seq<seq<T>>, seq<T>))
    requires n <= 1 || n <= |s|
    ensures |r.1| == |s|
    decreases n, 1
  {
    if n <= 1 then ([s], s)
    else
      var first := Heap(s, n - 1);
      HeapRounds(first.1, n, 0, first.0)
  }

  /** Rounds `i` to `n - 2` of Heap's algorithm, appended to `acc`. */
  function HeapRounds<T>(s: seq<T>, n: nat, i: nat, acc: seq<seq<T>>): (r: (seq<seq<T>>, seq<T>))
    requires 2 <= n <= |s| && i <= n - 1
    ensures |r.1| == |s|
    decreases n, 0, n - 1 - i
  {
    if i == n - 1 then (acc, s)
    else
      var x := if n % 2 == 0 then i else 0;
      var more := Heap(s[x := s[n - 1]][n - 1 := s[x]], n - 1);
      HeapRounds(more.1, n, i + 1, acc + more.0)
  }

  /** `k` rounds of `f` each, added up one round at a time. */
  function Rounds(k: nat, f: nat): nat
  {
    if k == 0 then 0 else f + Rounds(k - 1, f)
  }

  lemma {:induction false} RoundsProduct(k: nat, f: nat)
    ensures Rounds(k, f) == k * f
  {
    if k > 0 {
      RoundsProduct(k - 1, f);
      Distrib(f, k - 1, 1);
    }
  }

  /** Heap's algorithm lists `n!` rearrangements. */
  lemma {:induction false} HeapCount<T>(s: seq<T>, n: nat)
    requires n <= 1 || n <= |s|
    ensures |Heap(s, n).0| == Fact(n)
    decreases n, 1
  {
    if n > 1 {
      var first := Heap(s, n - 1);
      HeapCount(s, n - 1);
      RoundsCount(first.1, n, 0, first.0);
      RoundsProduct(n, Fact(n - 1));
    }
  }

  lemma {:induction false} RoundsCount<T>(s: seq<T>, n: nat, i: nat, acc: seq<seq<T>>)
    requires 2 <= n <= |s| && i <= n - 1
    ensures |HeapRounds(s, n, i, acc).0| + Fact(n - 1) == |acc| + Rounds(n - i, Fact(n - 1))
    decreases n, 0, n - 1 - i
  {
    if i < n - 1 {
      var x := if n % 2 == 0 then i else 0;
      var mid := s[x := s[n - 1]][n - 1 := s[x]];
      var more := Heap(mid, n - 1);
      assert HeapRounds(s, n, i, acc) == HeapRounds(more.1, n, i + 1, acc + more.0);
      HeapCount(mid, n - 1);
      RoundsCount(more.1, n, i + 1, acc + more.0);
    }
  }

  /** Every listed order, and the final order of the slice, rearranges only the first `n` positions. */
  lemma {:induction false} HeapPermutes<T>(s: seq<T>, n: nat)
    requires n <= 1 || n <= |s|
    ensures PermutesPrefix(Heap(s, n).1, s, n)
    ensures forall p :: p in Heap(s, n).0 ==> PermutesPrefix(p, s, n)
    decreases n, 1
  {
    if n > 1 {
      var first := Heap(s, n - 1);
      HeapPermutes(s, n - 1);
      forall p | p in first.0 ensures PermutesPrefix(p, s, n) {
        PermutesPrefixWiden(p, s, n - 1, n);
      }
      PermutesPrefixWiden(first.1, s, n - 1, n);
      RoundsPermute(first.1, n, 0, first.0, s);
    }
  }

  lemma {:induction false} RoundsPermute<T>(s: seq<T>, n: nat, i: nat, acc: seq<seq<T>>, orig: seq<T>)
    requires 2 <= n <= |s| && i <= n - 1
    requires PermutesPrefix(s, orig, n)
    requires forall p :: p in acc ==> PermutesPrefix(p, orig, n)
    ensures PermutesPrefix(HeapRounds(s, n, i, acc).1, orig, n)
    ensures forall p :: p in HeapRounds(s, n, i, acc).0 ==> PermutesPrefix(p, orig, n)
    decreases n, 0, n - 1 - i
  {
    if i < n - 1 {
      var x := if n % 2 == 0 then i else 0;
      var mid := s[x := s[n - 1]][n - 1 := s[x]];
      var more := Heap(mid, n - 1);
      HeapPermutes(mid, n - 1);
      RoundPermutes(s, mid, more.1, more.0, orig, n, x);
      RoundsPermute(more.1, n, i + 1, acc + more.0, orig);
    }
  }

  /** The swap of a round, followed by rearrangements of the first `n - 1`, rearranges only the first `n`. */
  lemma RoundPermutes<T>(before: seq<T>, mid: seq<T>, after: seq<T>, more: seq<seq<T>>, orig: seq<T>, n: nat, x: nat)
    requires 2 <= n <= |before| && x < n - 1 && PermutesPrefix(before, orig, n)
    requires mid == before[x := before[n - 1]][n - 1 := before[x]]
    requires PermutesPrefix(after, mid, n - 1)
    requires forall p :: p in more ==> PermutesPrefix(p, mid, n - 1)
    ensures PermutesPrefix(after, orig, n)
    ensures forall p :: p in more ==> PermutesPrefix(p, orig, n)
  {
    SwapPermutesPrefix(before, x, n - 1, n);
    PermutesPrefixTrans(mid, before, orig, n);
    forall p | p in more ensures PermutesPrefix(p, orig, n) {
      PermutesPrefixWiden(p, mid, n - 1, n);
      PermutesPrefixTrans(p, mid, orig, n);
    }
    PermutesPrefixWiden(after, mid, n - 1, n);
    PermutesPrefixTrans(after, mid, orig, n);
  }

  /**
   * Heap's algorithm in place: returns the rearrangements `Heap` lists and
   * leaves the slice in the order `Heap` ends with; over pairwise-different
   * elements no order is listed twice. The source swaps out of bounds when
   * `n` exceeds the length.
   */
  method Permutations<T>(a: array<T>, n: nat) returns (perms: seq<seq<T>>)
    requires n <= 1 || n <= a.Length
    modifies a
    ensures (perms, a[..]) == Heap(old(a[..]), n)
    ensures NoRepeats(old(a[..])) ==> NoRepeats(perms)
    decreases n, 1
  {
    ghost var orig := a[..];
    if NoRepeats(orig) {
      HeapNoRepeats(orig, n);
    }
    if n <= 1 {
      return [a[..]];
    }
    perms := Permutations(a, n - 1);
    var i := 0;
    while i < n - 1
      invariant 0 <= i <= n - 1 && a.Length == |orig|
      invariant HeapRounds(a[..], n, i, perms) == Heap(orig, n)
    {
      var more := HeapRound(a, n, if n % 2 == 0 then i else 0);
      perms := perms + more;
      i := i + 1;
    }
  }

  /** One round of Heap's algorithm: swap position `x` with `n - 1`, then permute the first `n - 1`. */
  method HeapRound<T>(a: array<T>, n: nat, x: nat) returns (more: seq<seq<T>>)
    requires 2 <= n <= a.Length && x < n - 1
    modifies a
    ensures (more, a[..]) == Heap(old(a[..])[x := old(a[n - 1])][n - 1 := old(a[x])], n - 1)
    decreases n, 0
  {
    ghost var before := a[..];
    a[x], a[n - 1] := a[n - 1], a[x];
    assert a[..] == before[x := before[n - 1]][n - 1 := before[x]];
    more := Permutations(a, n - 1);
  }

  // -------------------------------------------------------- no permutation listed twice

  /** No element occurs twice. */
  ghost predicate NoRepeats<T>(s: seq<T>)
  {
    forall i, j :: 0 <= i < j < |s| ==> s[i] != s[j]
  }

  /** Without repeats, every element occurs at most once. */
  lemma {:induction false} NoRepeatsCountsOne<T>(q: seq<T>, x: T)
    requires NoRepeats(q)
    ensures multiset(q)[x] <= 1
  {
    if q != [] {
      var k := |q| - 1;
      assert q == q[..k] + [q[k]];
      assert q[k] !in q[..k];
      NoRepeatsCountsOne(q[..k], x);
    }
  }

  /** An element at two positions occurs at least twice. */
  lemma RepeatCountsTwo<T>(p: seq<T>, i: nat, j: nat)
    requires i < j < |p| && p[i] == p[j]
    ensures multiset(p)[p[i]] >= 2
  {
    assert p == p[..i] + [p[i]] + p[i + 1..j] + [p[j]] + p[j + 1..];
  }

  /** A rearrangement of a sequence without repeats has none either. */
  lemma NoRepeatsRearranged<T>(p: seq<T>, q: seq<T>)
    requires multiset(p) == multiset(q) && NoRepeats(q)
    ensures NoRepeats(p)
  {
    forall i, j | 0 <= i < j < |p| ensures p[i] != p[j] {
      if p[i] == p[j] {
        RepeatCountsTwo(p, i, j);
        NoRepeatsCountsOne(q, p[i]);
      }
    }
  }

  /** The order Heap's algorithm leaves the slice in. */
  ghost function HeapEnd<T>(s: seq<T>, n: nat): seq<T>
    requires n <= 1 || n <= |s|
  {
    if n <= 1 then s
    else if n % 2 == 1 || n == 2 then s[0 := s[n - 1]][n - 1 := s[0]]
    else [s[n - 3], s[n - 2]] + s[1..n - 3] + [s[n - 1], s[0]] + s[n..]
  }

  /** The elements rounds `i` to `n - 2` bring to the last position. */
  ghost function RoundLasts<T>(s: seq<T>, n: nat, i: nat): seq<T>
    requires 2 <= n <= |s| && i <= n - 1
    decreases n - 1 - i
  {
    if i == n - 1 then []
    else
      var x := if n % 2 == 0 then i else 0;
      var mid := s[x := s[n - 1]][n - 1 := s[x]];
      [s[x]] + RoundLasts(Heap(mid, n - 1).1, n, i + 1)
  }

  /** Heap's algorithm leaves the slice in the order `HeapEnd` gives. */
  lemma {:induction false} HeapEnds<T>(s: seq<T>, n: nat)
    requires n <= 1 || n <= |s|
    ensures Heap(s, n).1 == HeapEnd(s, n)
    decreases n, 1
  {
    if n == 2 {
      var mid := s[0 := s[1]][1 := s[0]];
      assert Heap(s, 2) == HeapRounds(s, 2, 0, [s]);
      assert HeapRounds(s, 2, 0, [s]) == HeapRounds(mid, 2, 1, [s] + [mid]);
    } else if n > 2 && n % 2 == 0 {
      HeapEnds(s, n - 1);
      EvenStart(s, n);
    } else if n > 2 {
      HeapEnds(s, n - 1);
      OddRoundsEnd(Heap(s, n - 1).1, Heap(s, n - 1).1, s, n, 0, Heap(s, n - 1).0);
    }
  }

  // ---- even sizes

  /** The order after round `k - 1` of an even-sized run over `s`, for 2 <= k <= n - 2. */
  ghost predicate EvenState<T>(u: seq<T>, s: seq<T>, n: nat, k: nat)
    requires 4 <= n <= |s| && 2 <= k <= n - 2
  {
    |u| == |s| &&
    u[0] == (if k % 2 == 0 then s[n - 1] else s[0]) &&
    u[1] == s[n - 2] &&
    (forall j :: 2 <= j < k ==> u[j] == s[j - 1]) &&
    (forall j :: k <= j < n - 2 ==> u[j] == s[j]) &&
    u[n - 2] == (if k % 2 == 0 then s[0] else s[n - 1]) &&
    u[n - 1] == s[k - 1] &&
    (forall j :: n <= j < |s| ==> u[j] == s[j])
  }

  /** One round of Heap's algorithm, unfolded once. */
  lemma RoundUnfold<T>(u: seq<T>, n: nat, k: nat, acc: seq<seq<T>>)
    requires 2 <= n <= |u| && k < n - 1
    ensures var x := if n % 2 == 0 then k else 0;
      var more := Heap(u[x := u[n - 1]][n - 1 := u[x]], n - 1);
      HeapRounds(u, n, k, acc) == HeapRounds(more.1, n, k + 1, acc + more.0) &&
      RoundLasts(u, n, k) == [u[x]] + RoundLasts(more.1, n, k + 1)
  {
  }

  /** The end order of an odd-sized run, or of a run of two, swaps the first and last positions. */
  lemma OddEnd<T>(s: seq<T>, m: nat)
    requires 2 <= m <= |s| && (m % 2 == 1 || m == 2)
    ensures HeapEnd(s, m) == s[0 := s[m - 1]][m - 1 := s[0]]
  {
  }

  /** A middle round of an even-sized run keeps the shape `EvenState` describes. */
  lemma EvenStep<T>(u: seq<T>, s: seq<T>, n: nat, k: nat, w: seq<T>)
    requires 4 <= n <= |s| && n % 2 == 0 && 2 <= k < n - 2
    requires EvenState(u, s, n, k)
    requires w == u[k := u[n - 1]][n - 1 := u[k]][0 := u[n - 2]][n - 2 := u[0]]
    ensures EvenState(w, s, n, k + 1) && u[k] == s[k]
  {
  }

  /** The last round of an even-sized run ends in `HeapEnd`. */
  lemma EvenLast<T>(u: seq<T>, s: seq<T>, n: nat, w: seq<T>)
    requires 4 <= n <= |s| && n % 2 == 0
    requires EvenState(u, s, n, n - 2)
    requires w == u[n - 2 := u[n - 1]][n - 1 := u[n - 2]][0 := u[n - 1]][n - 2 := u[0]]
    ensures w == HeapEnd(s, n) && u[n - 2] == s[0]
  {
    var e := HeapEnd(s, n);
    assert |w| == |e|;
    forall j | 0 <= j < |w| ensures w[j] == e[j] {
    }
  }

  /** The first two rounds of an even-sized run reach `EvenState` for `k = 2`. */
  lemma EvenFirst<T>(s: seq<T>, n: nat, t0: seq<T>, u1: seq<T>, u2: seq<T>)
    requires 4 <= n <= |s| && n % 2 == 0
    requires t0 == s[0 := s[n - 2]][n - 2 := s[0]]
    requires u1 == t0[0 := t0[n - 1]][n - 1 := t0[0]][0 := t0[n - 2]][n - 2 := t0[n - 1]]
    requires u2 == u1[1 := u1[n - 1]][n - 1 := u1[1]][0 := u1[n - 2]][n - 2 := u1[1 := u1[n - 1]][n - 1 := u1[1]][0]]
    ensures EvenState(u2, s, n, 2) && t0[0] == s[n - 2] && u1[1] == s[1]
  {
  }

  /** An even-sized run ends in `HeapEnd`; the elements its rounds bring last, in order. */
  lemma EvenStart<T>(s: seq<T>, n: nat)
    requires 4 <= n <= |s| && n % 2 == 0
    requires Heap(s, n - 1).1 == HeapEnd(s, n - 1)
    ensures Heap(s, n).1 == HeapEnd(s, n)
    ensures RoundLasts(Heap(s, n - 1).1, n, 0) == [s[n - 2], s[1]] + s[2..n - 2] + [s[0]]
    decreases n, 0, n
  {
    var first := Heap(s, n - 1);
    var t0 := first.1;
    OddEnd(s, n - 1);
    var mid0 := t0[0 := t0[n - 1]][n - 1 := t0[0]];
    var more0 := Heap(mid0, n - 1);
    HeapEnds(mid0, n - 1);
    OddEnd(mid0, n - 1);
    var u1 := more0.1;
    var mid1 := u1[1 := u1[n - 1]][n - 1 := u1[1]];
    var more1 := Heap(mid1, n - 1);
    HeapEnds(mid1, n - 1);
    OddEnd(mid1, n - 1);
    var u2 := more1.1;
    RoundUnfold(t0, n, 0, first.0);
    RoundUnfold(u1, n, 1, first.0 + more0.0);
    EvenFirst(s, n, t0, u1, u2);
    EvenRoundsEnd(u2, s, n, 2, first.0 + more0.0 + more1.0);
  }

  /** Round `k` of an even-sized run, for 2 <= k <= n - 2: the order it leaves and the element it brings last. */
  lemma EvenRound<T>(u: seq<T>, s: seq<T>, n: nat, k: nat, acc: seq<seq<T>>) returns (w: seq<T>, more: seq<seq<T>>)
    requires 4 <= n <= |s| && n % 2 == 0 && 2 <= k <= n - 2
    requires EvenState(u, s, n, k)
    ensures |w| == |u|
    ensures HeapRounds(u, n, k, acc) == HeapRounds(w, n, k + 1, acc + more)
    ensures RoundLasts(u, n, k) == [u[k]] + RoundLasts(w, n, k + 1)
    ensures k < n - 2 ==> EvenState(w, s, n, k + 1) && u[k] == s[k]
    ensures k == n - 2 ==> w == HeapEnd(s, n) && u[k] == s[0]
    decreases n, 0, n - 1 - k, 1
  {
    var mid := u[k := u[n - 1]][n - 1 := u[k]];
    HeapEnds(mid, n - 1);
    OddEnd(mid, n - 1);
    w, more := Heap(mid, n - 1).1, Heap(mid, n - 1).0;
    RoundUnfold(u, n, k, acc);
    if k == n - 2 {
      EvenLast(u, s, n, w);
    } else {
      EvenStep(u, s, n, k, w);
    }
  }

  /** Rounds `k` onwards of an even-sized run: where they end and what they bring last. */
  lemma {:induction false} EvenRoundsEnd<T>(u: seq<T>, s: seq<T>, n: nat, k: nat, acc: seq<seq<T>>)
    requires 4 <= n <= |s| && n % 2 == 0 && 2 <= k <= n - 2
    requires EvenState(u, s, n, k)
    ensures HeapRounds(u, n, k, acc).1 == HeapEnd(s, n)
    ensures RoundLasts(u, n, k) == s[k..n - 2] + [s[0]]
    decreases n, 0, n - 1 - k, 2
  {
    var w, more := EvenRound(u, s, n, k, acc);
    if k == n - 2 {
      assert HeapRounds(w, n, k + 1, acc + more).1 == w;
      assert RoundLasts(w, n, k + 1) == [];
    } else {
      EvenRoundsEnd(w, s, n, k + 1, acc + more);
      assert s[k..n - 2] == [s[k]] + s[k + 1..n - 2];
    }
  }

  // ---- odd sizes

  /**
   * The cycle of positions an odd-sized round moves elements along: each
   * round, position `Cyc(n, j)` receives what was at `Cyc(n, j + 1)`.
   */
  function Cyc(n: nat, j: nat): nat
    requires 3 <= n && j < n
  {
    if j == 0 then n - 1
    else if j == 1 then 0
    else if j == n - 1 then n - 2
    else if j == n - 2 then n - 3
    else n - 2 - j
  }

  /** The place of position `p` on the cycle. */
  function CycIndex(n: nat, p: nat): (j: nat)
    requires 3 <= n && p < n
    ensures j < n && Cyc(n, j) == p
  {
    if p == n - 1 then 0
    else if p == 0 then 1
    else if p == n - 2 then n - 1
    else if p == n - 3 then n - 2
    else n - 2 - p
  }

  /** Different places on the cycle are different positions. */
  lemma CycInjective(n: nat, a: nat, b: nat)
    requires 3 <= n && a < n && b < n && Cyc(n, a) == Cyc(n, b)
    ensures a == b
  {
  }

  /** `a + b` modulo `n`, for `a, b < n`. */
  function AddMod(n: nat, a: nat, b: nat): nat
    requires a < n && b < n
  {
    if a + b < n then a + b else a + b - n
  }

  /** The order after `k` rounds of an odd-sized run that started from `t`. */
  ghost predicate OddState<T>(u: seq<T>, t: seq<T>, n: nat, k: nat)
    requires 3 <= n <= |t| && k < n
  {
    |u| == |t| &&
    (forall j :: 0 <= j < n ==> u[Cyc(n, j)] == t[Cyc(n, AddMod(n, j, k))]) &&
    (forall j :: n <= j < |u| ==> u[j] == t[j])
  }

  /** Where the end order of an even-sized run puts each element. */
  lemma EvenEndAt<T>(s: seq<T>, m: nat)
    requires 4 <= m <= |s| && m % 2 == 0
    ensures |HeapEnd(s, m)| == |s|
    ensures HeapEnd(s, m)[0] == s[m - 3] && HeapEnd(s, m)[1] == s[m - 2]
    ensures forall q :: 2 <= q < m - 2 ==> HeapEnd(s, m)[q] == s[q - 1]
    ensures HeapEnd(s, m)[m - 2] == s[m - 1] && HeapEnd(s, m)[m - 1] == s[0]
    ensures forall q :: m <= q < |s| ==> HeapEnd(s, m)[q] == s[q]
  {
  }

  /** One odd-sized round moves every element one step along the cycle. */
  lemma OddStep<T>(u: seq<T>, n: nat)
    requires 3 <= n <= |u| && n % 2 == 1
    ensures |HeapEnd(u[0 := u[n - 1]][n - 1 := u[0]], n - 1)| == |u|
    ensures forall j :: 0 <= j < n ==>
      HeapEnd(u[0 := u[n - 1]][n - 1 := u[0]], n - 1)[Cyc(n, j)] == u[Cyc(n, AddMod(n, j, 1))]
    ensures forall j :: n <= j < |u| ==> HeapEnd(u[0 := u[n - 1]][n - 1 := u[0]], n - 1)[j] == u[j]
  {
    var v := u[0 := u[n - 1]][n - 1 := u[0]];
    if n > 3 {
      EvenEndAt(v, n - 1);
    }
  }

  /** The elements of `t` at cycle places `a` to `n - 1`. */
  ghost function CycleRun<T>(t: seq<T>, n: nat, a: nat): seq<T>
    requires 3 <= n <= |t| && a <= n
    decreases n - a
  {
    if a == n then [] else [t[Cyc(n, a)]] + CycleRun(t, n, a + 1)
  }

  /** The `i`-th element of `CycleRun(t, n, a)` sits at cycle place `a + i`. */
  lemma {:induction false} CycleRunAt<T>(t: seq<T>, n: nat, a: nat)
    requires 3 <= n <= |t| && a <= n
    ensures |CycleRun(t, n, a)| == n - a
    ensures forall i :: 0 <= i < n - a ==> CycleRun(t, n, a)[i] == t[Cyc(n, a + i)]
    decreases n - a
  {
    if a < n {
      CycleRunAt(t, n, a + 1);
    }
  }

  /** A round that moves every element one step along the cycle advances `OddState` by one round. */
  lemma OddAdvance<T>(u: seq<T>, w: seq<T>, t: seq<T>, n: nat, k: nat)
    requires 3 <= n <= |t| && k < n - 1 && OddState(u, t, n, k)
    requires |w| == |u|
    requires forall j :: 0 <= j < n ==> w[Cyc(n, j)] == u[Cyc(n, AddMod(n, j, 1))]
    requires forall j :: n <= j < |u| ==> w[j] == u[j]
    ensures OddState(w, t, n, k + 1)
  {
    forall j | 0 <= j < n ensures w[Cyc(n, j)] == t[Cyc(n, AddMod(n, j, k + 1))] {
      assert u[Cyc(n, AddMod(n, j, 1))] == t[Cyc(n, AddMod(n, AddMod(n, j, 1), k))];
    }
  }

  /** After `n - 1` rounds an odd-sized run ends in `HeapEnd`. */
  lemma OddLast<T>(u: seq<T>, t: seq<T>, s: seq<T>, n: nat)
    requires 3 <= n <= |s| && n % 2 == 1
    requires t == HeapEnd(s, n - 1) && OddState(u, t, n, n - 1)
    ensures u == HeapEnd(s, n)
  {
    var e := HeapEnd(s, n);
    if n > 3 {
      EvenEndAt(s, n - 1);
    }
    forall p | 0 <= p < |u| ensures u[p] == e[p] {
      if p < n {
        var j := CycIndex(n, p);
        assert u[Cyc(n, j)] == t[Cyc(n, AddMod(n, j, n - 1))];
      }
    }
  }

  /** Round `k` of an odd-sized run: the order it leaves and the element it brings last. */
  lemma OddRound<T>(u: seq<T>, t: seq<T>, n: nat, k: nat, acc: seq<seq<T>>) returns (w: seq<T>, more: seq<seq<T>>)
    requires 3 <= n <= |t| && n % 2 == 1 && k < n - 1
    requires OddState(u, t, n, k)
    ensures |w| == |u|
    ensures HeapRounds(u, n, k, acc) == HeapRounds(w, n, k + 1, acc + more)
    ensures RoundLasts(u, n, k) == [t[Cyc(n, k + 1)]] + RoundLasts(w, n, k + 1)
    ensures OddState(w, t, n, k + 1)
    decreases n, 0, n - 1 - k, 1
  {
    var mid := u[0 := u[n - 1]][n - 1 := u[0]];
    HeapEnds(mid, n - 1);
    w, more := Heap(mid, n - 1).1, Heap(mid, n - 1).0;
    OddStep(u, n);
    RoundUnfold(u, n, k, acc);
    OddAdvance(u, w, t, n, k);
    assert u[0] == u[Cyc(n, 1)];
  }

  /** Rounds `k` onwards of an odd-sized run: where they end and what they bring last. */
  lemma {:induction false} OddRoundsEnd<T>(u: seq<T>, t: seq<T>, s: seq<T>, n: nat, k: nat, acc: seq<seq<T>>)
    requires 3 <= n <= |s| && n % 2 == 1 && k < n
    requires t == HeapEnd(s, n - 1) && OddState(u, t, n, k)
    ensures HeapRounds(u, n, k, acc).1 == HeapEnd(s, n)
    ensures RoundLasts(u, n, k) == CycleRun(t, n, k + 1)
    decreases n, 0, n - 1 - k, 2
  {
    if k == n - 1 {
      OddLast(u, t, s, n);
    } else {
      var w, more := OddRound(u, t, n, k, acc);
      OddRoundsEnd(w, t, s, n, k + 1, acc + more);
    }
  }

  // ---- no order listed twice

  /** Where the element the `a`-th block of an even-sized run brings last comes from. */
  function EvenLastIndex(n: nat, a: nat): nat
    requires 4 <= n && a < n
  {
    if a == 0 then n - 1 else if a == 1 then n - 2 else if a == n - 1 then 0 else a - 1
  }

  /** The blocks of a run bring pairwise-different elements to the last position. */
  lemma LastsNoRepeats<T>(s: seq<T>, n: nat)
    requires 2 <= n <= |s| && NoRepeats(s)
    ensures NoRepeats([s[n - 1]] + RoundLasts(Heap(s, n - 1).1, n, 0))
  {
    HeapEnds(s, n - 1);
    if n == 2 {
      RoundUnfold(s, 2, 0, [s]);
    } else if n % 2 == 0 {
      EvenLastsNoRepeats(s, n);
    } else {
      OddLastsNoRepeats(s, n);
    }
  }

  /** `LastsNoRepeats` for even sizes from four on. */
  lemma EvenLastsNoRepeats<T>(s: seq<T>, n: nat)
    requires 4 <= n <= |s| && n % 2 == 0 && NoRepeats(s)
    requires Heap(s, n - 1).1 == HeapEnd(s, n - 1)
    ensures NoRepeats([s[n - 1]] + RoundLasts(Heap(s, n - 1).1, n, 0))
  {
    EvenStart(s, n);
    EvenLastsPick(s, n);
  }

  /** The elements an even-sized run brings last are `s` at pairwise-different positions. */
  lemma EvenLastsPick<T>(s: seq<T>, n: nat)
    requires 4 <= n <= |s| && NoRepeats(s)
    ensures NoRepeats([s[n - 1]] + ([s[n - 2], s[1]] + s[2..n - 2] + [s[0]]))
  {
    var l := [s[n - 1]] + ([s[n - 2], s[1]] + s[2..n - 2] + [s[0]]);
    assert forall a :: 0 <= a < n ==> l[a] == s[EvenLastIndex(n, a)];
    forall a, b | 0 <= a < b < |l| ensures l[a] != l[b] {
      assert l[a] == s[EvenLastIndex(n, a)] && l[b] == s[EvenLastIndex(n, b)];
    }
  }

  /** `LastsNoRepeats` for odd sizes. */
  lemma OddLastsNoRepeats<T>(s: seq<T>, n: nat)
    requires 3 <= n <= |s| && n % 2 == 1 && NoRepeats(s)
    requires Heap(s, n - 1).1 == HeapEnd(s, n - 1)
    ensures NoRepeats([s[n - 1]] + RoundLasts(Heap(s, n - 1).1, n, 0))
  {
    var t0 := Heap(s, n - 1).1;
    OddRoundsEnd(t0, t0, s, n, 0, Heap(s, n - 1).0);
    HeapPermutes(s, n - 1);
    NoRepeatsRearranged(t0, s);
    CycleRunNoRepeats(t0, n);
  }

  /** Over pairwise-different elements, a full run along the cycle has no repeats. */
  lemma CycleRunNoRepeats<T>(t: seq<T>, n: nat)
    requires 3 <= n <= |t| && NoRepeats(t)
    ensures NoRepeats(CycleRun(t, n, 0)) && CycleRun(t, n, 0) == [t[n - 1]] + CycleRun(t, n, 1)
  {
    CycleRunAt(t, n, 0);
    var l := CycleRun(t, n, 0);
    forall a, b | 0 <= a < b < |l| ensures l[a] != l[b] {
      if Cyc(n, a) == Cyc(n, b) {
        CycInjective(n, a, b);
      }
    }
  }

  /** An element followed in a repeat-free listing is not among those before it. */
  lemma NotSeen<T>(seen: seq<T>, e: T, rest: seq<T>)
    requires NoRepeats(seen + [e] + rest)
    ensures e !in seen && NoRepeats(seen + [e]) 
  {
    var l := seen + [e] + rest;
    forall a | 0 <= a < |seen| ensures seen[a] != e {
      assert l[a] == seen[a] && l[|seen|] == e;
    }
    assert forall a :: 0 <= a <= |seen| ==> (seen + [e])[a] == l[a];
  }

  /** Appending a block whose orders all end in a new element keeps the listing free of repeats. */
  lemma AppendBlock<T>(acc: seq<seq<T>>, block: seq<seq<T>>, k: nat, seen: seq<T>, e: T)
    requires NoRepeats(acc) && NoRepeats(block) && e !in seen
    requires forall p :: p in acc ==> k < |p| && p[k] in seen
    requires forall p :: p in block ==> k < |p| && p[k] == e
    ensures NoRepeats(acc + block)
    ensures forall p :: p in acc + block ==> k < |p| && p[k] in seen + [e]
  {
    var l := acc + block;
    forall a, b | 0 <= a < b < |l| ensures l[a] != l[b] {
      if a < |acc| && b >= |acc| {
        assert l[a] in acc && l[b] in block;
      }
    }
  }

  /** The block round `i` lists: no repeats, every order ending in the element the round brings last. */
  lemma RoundBlock<T>(u: seq<T>, n: nat, i: nat, acc: seq<seq<T>>) returns (w: seq<T>, more: seq<seq<T>>, e: T)
    requires 2 <= n <= |u| && i < n - 1 && NoRepeats(u)
    ensures |w| == |u|
    ensures HeapRounds(u, n, i, acc) == HeapRounds(w, n, i + 1, acc + more)
    ensures RoundLasts(u, n, i) == [e] + RoundLasts(w, n, i + 1)
    ensures |w| == |u| && NoRepeats(w) && NoRepeats(more)
    ensures forall p :: p in more ==> n - 1 < |p| && p[n - 1] == e
    decreases n, 0, n - 1 - i, 0
  {
    var x := if n % 2 == 0 then i else 0;
    var mid := u[x := u[n - 1]][n - 1 := u[x]];
    w, more, e := Heap(mid, n - 1).1, Heap(mid, n - 1).0, u[x];
    RoundUnfold(u, n, i, acc);
    SwapPermutesPrefix(u, x, n - 1, n);
    NoRepeatsRearranged(mid, u);
    HeapNoRepeats(mid, n - 1);
    HeapPermutes(mid, n - 1);
    NoRepeatsRearranged(w, mid);
  }

  /** Rounds `i` onwards add no order twice when each brings a new element last. */
  lemma {:induction false} RoundsNoRepeats<T>(u: seq<T>, n: nat, i: nat, acc: seq<seq<T>>, seen: seq<T>)
    requires 2 <= n <= |u| && i <= n - 1 && NoRepeats(u)
    requires NoRepeats(acc) && (forall p :: p in acc ==> n - 1 < |p| && p[n - 1] in seen)
    requires NoRepeats(seen + RoundLasts(u, n, i))
    ensures NoRepeats(HeapRounds(u, n, i, acc).0)
    decreases n, 0, n - 1 - i, 1
  {
    if i < n - 1 {
      var w, more, e := RoundBlock(u, n, i, acc);
      var rest := RoundLasts(w, n, i + 1);
      assert seen + RoundLasts(u, n, i) == seen + [e] + rest;
      NotSeen(seen, e, rest);
      AppendBlock(acc, more, n - 1, seen, e);
      assert seen + [e] + rest == (seen + [e]) + rest;
      RoundsNoRepeats(w, n, i + 1, acc + more, seen + [e]);
    }
  }

  /** Over pairwise-different elements, Heap's algorithm never lists the same order twice. */
  lemma {:induction false} HeapNoRepeats<T>(s: seq<T>, n: nat)
    requires (n <= 1 || n <= |s|) && NoRepeats(s)
    ensures NoRepeats(Heap(s, n).0)
    decreases n, 1
  {
    if n > 1 {
      var first := Heap(s, n - 1);
      HeapNoRepeats(s, n - 1);
      HeapPermutes(s, n - 1);
      LastsNoRepeats(s, n);
      NoRepeatsRearranged(first.1, s);
      RoundsNoRepeats(first.1, n, 0, first.0, [s[n - 1]]);
    }
  }
}
