/**
 * Day 14: robots on a 101 by 103 floor that wraps around at the edges.
 * The floor is a map from tile to the robots standing on it; a step moves
 * every robot by its velocity. The safety factor is the product of the
 * robot counts in the four quadrants, leaving out the middle row and
 * column.
 */
module Day14 {
  import opened Wrappers
  import opened Arith

  type Pos = (int, int)

  /** A robot keeps the position it was read with; the map key is where it stands now. */
  datatype Robot = Robot(position: Pos, velocity: (int, int))

  type TileMap = map<Pos, seq<Robot>>

  const Width: int := 101
  const Height: int := 103

  // ------------------------------------------------------------- contents

  /** The robots of one tile, each paired with the tile. */
  function Tile(pos: Pos, robots: seq<Robot>): (r: multiset<(Pos, Robot)>)
    ensures |r| == |robots|
  {
    if robots == [] then multiset{}
    else Tile(pos, robots[..|robots| - 1]) + multiset{(pos, robots[|robots| - 1])}
  }

  /** Every robot on the floor, paired with the tile it stands on. */
  ghost function Placements(m: TileMap): multiset<(Pos, Robot)>
  {
    if m == map[] then multiset{}
    else
      var k :| k in m;
      Tile(k, m[k]) + Placements(m - {k})
  }

  lemma {:induction false} PlacementsRemove(m: TileMap, k: Pos)
    requires k in m
    ensures Placements(m) == Tile(k, m[k]) + Placements(m - {k})
    decreases |m|
  {
    var k' :| k' in m && Placements(m) == Tile(k', m[k']) + Placements(m - {k'});
    if k' != k {
      var rest := m - {k'} - {k};
      assert rest == m - {k} - {k'};
      PlacementsRemove(m - {k'}, k);
      PlacementsRemove(m - {k}, k');
      var a, b, c := Tile(k', m[k']), Tile(k, m[k]), Placements(rest);
      assert Placements(m) == a + (b + c);
      assert Placements(m - {k}) == a + c;
      Swap(a, b, c);
    }
  }

  /** Setting one tile changes the placements by that tile's robots. */
  lemma PlacementsUpdate(m: TileMap, k: Pos, robots: seq<Robot>)
    ensures Placements(m[k := robots]) + (if k in m then Tile(k, m[k]) else multiset{})
      == Placements(m) + Tile(k, robots)
  {
    PlacementsRemove(m[k := robots], k);
    assert m[k := robots] - {k} == m - {k};
    var rest := Placements(m - {k});
    var added := Tile(k, robots);
    assert Placements(m[k := robots]) == added + rest;
    if k in m {
      PlacementsRemove(m, k);
      var gone := Tile(k, m[k]);
      assert Placements(m) == gone + rest;
      Rearrange(added, rest, gone);
    } else {
      assert m - {k} == m;
      Rearrange(added, rest, multiset{});
    }
  }

  lemma Swap<T>(a: multiset<T>, b: multiset<T>, c: multiset<T>)
    ensures a + (b + c) == b + (a + c)
  {
  }

  lemma Rearrange<T>(a: multiset<T>, b: multiset<T>, c: multiset<T>)
    ensures (a + b) + c == (c + b) + a
  {
  }

  // ------------------------------------------------------------- init map

  /** Each robot placed on the tile it was read with. */
  function Initial(robots: seq<Robot>): (r: multiset<(Pos, Robot)>)
    ensures |r| == |robots|
  {
    if robots == [] then multiset{}
    else Initial(robots[..|robots| - 1]) + multiset{(robots[|robots| - 1].position, robots[|robots| - 1])}
  }

  /** The robots on tile `k`, none when the tile is not in the map. */
  function Here(m: TileMap, k: Pos): seq<Robot>
  {
    if k in m then m[k] else []
  }

  /** Adding a robot at the end of a tile's list adds one placement. */
  lemma PlacementsAppend(m: TileMap, k: Pos, r: Robot)
    ensures Placements(m[k := Here(m, k) + [r]]) == Placements(m) + multiset{(k, r)}
  {
    var here := Here(m, k);
    PlacementsUpdate(m, k, here + [r]);
    assert (here + [r])[..|here|] == here;
    var x := multiset{(k, r)};
    var t := Tile(k, here);
    assert Tile(k, here + [r]) == t + x;
    assert (if k in m then Tile(k, m[k]) else multiset{}) == t;
    Cancel(Placements(m[k := here + [r]]), Placements(m), x, t);
  }

  /** Adding a tile not in the map adds its placements. */
  lemma PlacementsAdd(m: TileMap, k: Pos, robots: seq<Robot>)
    requires k !in m
    ensures Placements(m[k := robots]) == Placements(m) + Tile(k, robots)
  {
    PlacementsRemove(m[k := robots], k);
    assert m[k := robots] - {k} == m;
  }

  lemma Cancel<T>(a: multiset<T>, b: multiset<T>, x: multiset<T>, t: multiset<T>)
    requires a + t == b + (t + x)
    ensures a == b + x
  {
    forall e
      ensures a[e] == (b + x)[e]
    {
      assert (a + t)[e] == (b + (t + x))[e];
    }
  }

  /** Growing the visited part of a map by one key. */
  lemma VisitOne<K, V>(m: map<K, V>, keys: set<K>, k: K)
    requires keys <= m.Keys && k in keys
    ensures k !in m - keys
    ensures m - (keys - {k}) == (m - keys)[k := m[k]]
  {
  }

  /** Groups the robots by their starting tile: every robot is stored once, on its own tile. */
  method InitMap(robots: seq<Robot>) returns (m: TileMap)
    ensures Placements(m) == Initial(robots)
    ensures |Placements(m)| == |robots|
  {
    m := map[];
    for i := 0 to |robots|
      invariant Placements(m) == Initial(robots[..i])
    {
      var robot := robots[i];
      PlacementsAppend(m, robot.position, robot);
      m := m[robot.position := Here(m, robot.position) + [robot]];
      assert robots[..i + 1][..i] == robots[..i];
    }
    assert robots[..|robots|] == robots;
  }

  // ----------------------------------------------------------------- step

  /** One coordinate after one step: at most one wrap-around either way. */
  function WrapAxis(p: int, v: int, size: int): (r: int)
    ensures 0 <= p < size && -size < v < size ==> 0 <= r < size && r == (p + v) % size
  {
    var q := p + v;
    if q < 0 then q + size else if q >= size then q - size else q
  }

  /** The tile a robot standing on `pos` moves to. */
  function Next(pos: Pos, v: (int, int)): Pos
  {
    (WrapAxis(pos.0, v.0, Width), WrapAxis(pos.1, v.1, Height))
  }

  /** A placement after one step: the robot is unchanged, its tile moves. */
  function Moved(pr: (Pos, Robot)): (Pos, Robot)
  {
    (Next(pr.0, pr.1.velocity), pr.1)
  }

  /** Every placement moved one step. */
  ghost function MoveAll(ms: multiset<(Pos, Robot)>): multiset<(Pos, Robot)>
    decreases |ms|
  {
    if ms == multiset{} then multiset{}
    else
      var x :| x in ms;
      multiset{Moved(x)} + MoveAll(ms - multiset{x})
  }

  lemma {:induction false} MoveAllRemove(ms: multiset<(Pos, Robot)>, x: (Pos, Robot))
    requires x in ms
    ensures MoveAll(ms) == multiset{Moved(x)} + MoveAll(ms - multiset{x})
    decreases |ms|
  {
    var x' :| x' in ms && MoveAll(ms) == multiset{Moved(x')} + MoveAll(ms - multiset{x'});
    if x' != x {
      var rest := ms - multiset{x'} - multiset{x};
      assert rest == ms - multiset{x} - multiset{x'};
      MoveAllRemove(ms - multiset{x'}, x);
      MoveAllRemove(ms - multiset{x}, x');
      var a, b, c := multiset{Moved(x')}, multiset{Moved(x)}, MoveAll(rest);
      assert MoveAll(ms) == a + (b + c);
      assert MoveAll(ms - multiset{x}) == a + c;
      Swap(a, b, c);
    }
  }

  lemma {:induction false} MoveAllUnion(a: multiset<(Pos, Robot)>, b: multiset<(Pos, Robot)>)
    ensures MoveAll(a + b) == MoveAll(a) + MoveAll(b)
    decreases |b|
  {
    if b != multiset{} {
      var y :| y in b;
      var b' := b - multiset{y};
      MoveAllRemove(a + b, y);
      MoveAllRemove(b, y);
      assert a + b - multiset{y} == a + b';
      MoveAllUnion(a, b');
      var my, ma, mb := multiset{Moved(y)}, MoveAll(a), MoveAll(b');
      assert MoveAll(a + b) == my + (ma + mb);
      assert MoveAll(b) == my + mb;
      Swap(my, ma, mb);
    } else {
      assert a + b == a;
      assert MoveAll(b) == multiset{};
    }
  }

  /** A step neither adds nor loses robots. */
  lemma {:induction false} MoveAllSize(ms: multiset<(Pos, Robot)>)
    ensures |MoveAll(ms)| == |ms|
    decreases |ms|
  {
    if ms != multiset{} {
      var x :| x in ms;
      MoveAllRemove(ms, x);
      MoveAllSize(ms - multiset{x});
    }
  }

  /**
   * Every robot after a step is a robot from before, unchanged (its
   * velocity with it), standing where its old tile and velocity take it.
   */
  lemma {:induction false} MoveAllOrigin(ms: multiset<(Pos, Robot)>, pr: (Pos, Robot))
    requires pr in MoveAll(ms)
    ensures exists p :: (p, pr.1) in ms && pr.0 == Next(p, pr.1.velocity)
    decreases |ms|
  {
    var x :| x in ms;
    MoveAllRemove(ms, x);
    if pr != Moved(x) {
      MoveAllOrigin(ms - multiset{x}, pr);
      var p :| (p, pr.1) in ms - multiset{x} && pr.0 == Next(p, pr.1.velocity);
      assert (p, pr.1) in ms;
    }
  }

  /** All placements lie on the floor. */
  ghost predicate OnFloor(ms: multiset<(Pos, Robot)>)
  {
    forall pr :: pr in ms ==> 0 <= pr.0.0 < Width && 0 <= pr.0.1 < Height
  }

  /** Velocities short enough that one wrap-around suffices. */
  ghost predicate SlowEnough(ms: multiset<(Pos, Robot)>)
  {
    forall pr :: pr in ms ==> -Width < pr.1.velocity.0 < Width && -Height < pr.1.velocity.1 < Height
  }

  /** Robots on the floor that are slow enough stay on the floor. */
  lemma {:induction false} MoveAllOnFloor(ms: multiset<(Pos, Robot)>)
    requires OnFloor(ms) && SlowEnough(ms)
    ensures OnFloor(MoveAll(ms))
    decreases |ms|
  {
    if ms != multiset{} {
      var x :| x in ms;
      MoveAllRemove(ms, x);
      MoveAllOnFloor(ms - multiset{x});
    }
  }

  /**
   * One step: every robot of every tile moves by its velocity, wrapping
   * around once at each edge, and is added to the tile it lands on.
   */
  method Step(m: TileMap) returns (next: TileMap)
    ensures Placements(next) == MoveAll(Placements(m))
  {
    next := map[];
    var keys := m.Keys;
    while keys != {}
      invariant keys <= m.Keys
      invariant Placements(next) == MoveAll(Placements(m - keys))
      decreases |keys|
    {
      var pos :| pos in keys;
      ghost var done := m - keys;
      VisitOne(m, keys, pos);
      PlacementsAdd(done, pos, m[pos]);
      MoveAllUnion(Placements(done), Tile(pos, m[pos]));
      next := PlaceAll(next, pos, m[pos]);
      keys := keys - {pos};
    }
    assert m - keys == m;
  }

  /** The robots of one tile, each added to the tile it moves to. */
  method PlaceAll(next: TileMap, pos: Pos, robots: seq<Robot>) returns (r: TileMap)
    ensures Placements(r) == Placements(next) + MoveAll(Tile(pos, robots))
  {
    r := next;
    for i := 0 to |robots|
      invariant Placements(r) == Placements(next) + MoveAll(Tile(pos, robots[..i]))
    {
      var robot := robots[i];
      var to := Next(pos, robot.velocity);
      PlacementsAppend(r, to, robot);
      ghost var before := Tile(pos, robots[..i]);
      assert robots[..i + 1][..i] == robots[..i];
      assert Tile(pos, robots[..i + 1]) == before + multiset{(pos, robot)};
      MoveAllOne((pos, robot));
      MoveAllUnion(before, multiset{(pos, robot)});
      Assoc(Placements(next), MoveAll(before), multiset{(to, robot)});
      r := r[to := Here(r, to) + [robot]];
    }
    assert robots[..|robots|] == robots;
  }

  lemma Assoc<T>(a: multiset<T>, b: multiset<T>, c: multiset<T>)
    ensures (a + b) + c == a + (b + c)
  {
  }

  lemma MoveAllOne(x: (Pos, Robot))
    ensures MoveAll(multiset{x}) == multiset{Moved(x)}
  {
    MoveAllRemove(multiset{x}, x);
    assert multiset{x} - multiset{x} == multiset{};
  }

  // ------------------------------------------------------------ quadrants

  const MidWidth: int := Width / 2
  const MidHeight: int := Height / 2

  /**
   * The quadrant of a tile: none on the middle column or row; otherwise
   * 0 and 1 on the left (top, bottom), 2 and 3 on the right.
   */
  function DetermineQuadrant(x: int, y: int): (r: Option<nat>)
    ensures r.None? <==> x == MidWidth || y == MidHeight
    ensures r.Some? ==> r.value == (if x < MidWidth then 0 else 2) + (if y < MidHeight then 0 else 1)
  {
    if x == MidWidth || y == MidHeight then None
    else if x < MidWidth then
      if y < MidHeight then Some(0) else Some(1)
    else if y < MidHeight then Some(2)
    else Some(3)
  }

  /** The robots standing on tiles of quadrant `q`. */
  ghost function InQuadrant(m: TileMap, q: nat): nat
  {
    if m == map[] then 0
    else
      var k :| k in m;
      (if DetermineQuadrant(k.0, k.1) == Some(q) then |m[k]| else 0) + InQuadrant(m - {k}, q)
  }

  lemma {:induction false} InQuadrantRemove(m: TileMap, q: nat, k: Pos)
    requires k in m
    ensures InQuadrant(m, q) == (if DetermineQuadrant(k.0, k.1) == Some(q) then |m[k]| else 0) + InQuadrant(m - {k}, q)
    decreases |m|
  {
    var k' :| k' in m && InQuadrant(m, q) == (if DetermineQuadrant(k'.0, k'.1) == Some(q) then |m[k']| else 0) + InQuadrant(m - {k'}, q);
    if k' != k {
      InQuadrantRemove(m - {k'}, q, k);
      InQuadrantRemove(m - {k}, q, k');
      assert m - {k'} - {k} == m - {k} - {k'};
    }
  }

  /** Adding a tile not yet counted adds its robots to the count of its quadrant only. */
  lemma InQuadrantAdd(m: TileMap, k: Pos, robots: seq<Robot>, q: nat)
    requires k !in m
    ensures InQuadrant(m[k := robots], q) == InQuadrant(m, q) + (if DetermineQuadrant(k.0, k.1) == Some(q) then |robots| else 0)
  {
    InQuadrantRemove(m[k := robots], q, k);
    assert m[k := robots] - {k} == m;
  }

  /** The safety factor: the product of the robot counts of the four quadrants. */
  method CountQuadrants(m: TileMap) returns (r: nat)
    ensures r == InQuadrant(m, 0) * InQuadrant(m, 1) * InQuadrant(m, 2) * InQuadrant(m, 3)
  {
    var counts := new nat[4](_ => 0);
    var keys := m.Keys;
    while keys != {}
      invariant keys <= m.Keys
      invariant forall q :: 0 <= q < 4 ==> counts[q] == InQuadrant(m - keys, q)
      decreases |keys|
    {
      var pos :| pos in keys;
      ghost var done := m - keys;
      VisitOne(m, keys, pos);
      forall q | 0 <= q < 4 {
        InQuadrantAdd(done, pos, m[pos], q);
      }
      var quadrant := DetermineQuadrant(pos.0, pos.1);
      if quadrant.Some? {
        counts[quadrant.value] := counts[quadrant.value] + |m[pos]|;
      }
      keys := keys - {pos};
    }
    assert m - keys == m;
    var a: int, b: int, c: int, d: int := counts[0], counts[1], counts[2], counts[3];
    MulNonNegative(a, b);
    MulNonNegative(a * b, c);
    MulNonNegative(a * b * c, d);
    r := a * b * c * d;
  }
}
