// Day 21: a chain of robots typing a door code. The robot at the door
// presses the numeric keypad; every robot further up presses the direction
// pad of the one below it. The cost of a sequence at one level is the
// cheapest way, over all orders of the straight-line moves between
// consecutive buttons that keep clear of the pad's gap, of typing those moves
// plus `A` one level up.

module Day21 {
  import opened Wrappers
  import opened Arith
  import opened Util

  // ------------------------------------------------------------ door codes

  /** The value of a decimal digit character; anything else has none. */
  function DigitValue(c: char): (r: Option<nat>)
    ensures r.Some? <==> '0' <= c <= '9'
    ensures r.Some? ==> r.value < 10
  {
    if '0' <= c <= '9' then Some(c as nat - '0' as nat) else None
  }

  /** The digit characters of `code`, in order. */
  function DigitChars(code: seq<char>): (r: seq<char>)
    ensures |r| <= |code|
    ensures forall c :: c in r <==> c in code && '0' <= c <= '9'
  {
    if code == [] then []
    else
      var rest := DigitChars(code[..|code| - 1]);
      var c := code[|code| - 1];
      assert code == code[..|code| - 1] + [c];
      if '0' <= c <= '9' then rest + [c] else rest
  }

  /** The numeric part of a door code: its digits read in base 10, every other character skipped. */
  function ParseCode(code: seq<char>): nat
  {
    if code == [] then 0
    else
      var acc := ParseCode(code[..|code| - 1]);
      match DigitValue(code[|code| - 1])
      case Some(d) => acc * 10 + d
      case None => acc
  }

  /** Characters that are not digits make no difference to the value. */
  lemma {:induction false} ParseCodeDigitsOnly(code: seq<char>)
    ensures ParseCode(code) == ParseCode(DigitChars(code))
  {
    if code != [] {
      var init := code[..|code| - 1];
      var c := code[|code| - 1];
      ParseCodeDigitsOnly(init);
      if '0' <= c <= '9' {
        assert (DigitChars(init) + [c])[..|DigitChars(init)|] == DigitChars(init);
      }
    }
  }

  /** Reading a code in two pieces: the first piece's value shifts left by the second piece's digit count. */
  lemma {:induction false} ParseCodeAppend(s: seq<char>, t: seq<char>)
    ensures ParseCode(s + t) == ParseCode(s) * Pow(10, |DigitChars(t)|) + ParseCode(t)
  {
    if t == [] {
      assert s + t == s;
    } else {
      var init := t[..|t| - 1];
      var c := t[|t| - 1];
      assert (s + t)[..|s + t| - 1] == s + init;
      ParseCodeAppend(s, init);
      var k := |DigitChars(init)|;
      if '0' <= c <= '9' {
        assert |DigitChars(t)| == k + 1;
        calc {
          (ParseCode(s) * Pow(10, k) + ParseCode(init)) * 10;
          ParseCode(s) * Pow(10, k) * 10 + ParseCode(init) * 10;
          { MulAssoc(ParseCode(s), Pow(10, k), 10); }
          ParseCode(s) * (Pow(10, k) * 10) + ParseCode(init) * 10;
        }
      }
    }
  }

  /** A code's value has no more decimal digits than the code has digit characters. */
  lemma {:induction false} ParseCodeBound(code: seq<char>)
    ensures ParseCode(code) < Pow(10, |DigitChars(code)|)
  {
    if code != [] {
      var init := code[..|code| - 1];
      ParseCodeBound(init);
      if '0' <= code[|code| - 1] <= '9' {
        MulMonotone(10, ParseCode(init), Pow(10, |DigitChars(init)|) - 1);
      }
    }
  }

  // --------------------------------------------------------------- keypads

  /** Where a button sits on the door keypad; `#` names the gap in the bottom-left corner. */
  function KeypadCoord(button: char): (r: Option<Coord>)
    ensures r.Some? <==> button in "0123456789A#"
    ensures r.Some? ==> 0 <= r.value.x < 3 && 0 <= r.value.y < 4
  {
    match button
    case '7' => Some(Coord(0, 0))
    case '8' => Some(Coord(1, 0))
    case '9' => Some(Coord(2, 0))
    case '4' => Some(Coord(0, 1))
    case '5' => Some(Coord(1, 1))
    case '6' => Some(Coord(2, 1))
    case '1' => Some(Coord(0, 2))
    case '2' => Some(Coord(1, 2))
    case '3' => Some(Coord(2, 2))
    case '0' => Some(Coord(1, 3))
    case 'A' => Some(Coord(2, 3))
    case '#' => Some(Coord(0, 3))
    case _ => None
  }

  /** The button at a cell of the door keypad. */
  function KeypadButton(c: Coord): Option<char>
  {
    if !(0 <= c.x < 3 && 0 <= c.y < 4) then None
    else Some(["789", "456", "123", "#0A"][c.y][c.x])
  }

  /** Door keypad buttons and cells correspond one to one: the layout fills the 3 by 4 grid. */
  lemma KeypadLayout(button: char, c: Coord)
    ensures KeypadCoord(button) == Some(c) <==> KeypadButton(c) == Some(button)
  {
  }

  /** Where a button sits on a direction pad; `#` names the gap in the top-left corner. */
  function DirpadCoord(button: char): (r: Option<Coord>)
    ensures r.Some? <==> button in "A#^v<>"
    ensures r.Some? ==> 0 <= r.value.x < 3 && 0 <= r.value.y < 2
  {
    match button
    case 'A' => Some(Coord(2, 0))
    case '#' => Some(Coord(0, 0))
    case '^' => Some(Coord(1, 0))
    case 'v' => Some(Coord(1, 1))
    case '<' => Some(Coord(0, 1))
    case '>' => Some(Coord(2, 1))
    case _ => None
  }

  /** The button at a cell of a direction pad. */
  function DirpadButton(c: Coord): Option<char>
  {
    if !(0 <= c.x < 3 && 0 <= c.y < 2) then None
    else Some(["#^A", "<v>"][c.y][c.x])
  }

  /** Direction pad buttons and cells correspond one to one: the layout fills the 3 by 2 grid. */
  lemma DirpadLayout(button: char, c: Coord)
    ensures DirpadCoord(button) == Some(c) <==> DirpadButton(c) == Some(button)
  {
  }

  /** The pad pressed at `depth`: the door keypad at depth 0, a direction pad above it. */
  function Pad(depth: nat, button: char): Option<Coord>
  {
    if depth == 0 then KeypadCoord(button) else DirpadCoord(button)
  }

  /** Every arm starts over the `A` button of its pad. */
  function Start(depth: nat): (r: Coord)
    ensures Pad(depth, 'A') == Some(r)
  {
    assert 'A' in "0123456789A#" && 'A' in "A#^v<>";
    Pad(depth, 'A').value
  }

  /** The cell of the pad with no button, which an arm must never cross. */
  function Gap(depth: nat): (r: Coord)
    ensures Pad(depth, '#') == Some(r)
  {
    assert '#' in "0123456789A#" && '#' in "A#^v<>";
    Pad(depth, '#').value
  }

  // ----------------------------------------------------------------- moves

  /** A count clamped at zero, as `max(0)` does. */
  function Max0(n: int): nat
  {
    if n > 0 then n else 0
  }

  /** `n` copies of `c`. */
  function Repeat(c: char, n: nat): (r: seq<char>)
  {
    seq(n, _ => c)
  }

  /** The straight-line moves from one button to another: right or left, then down or up. */
  function Moves(from: Coord, to: Coord): seq<char>
  {
    Repeat('>', Max0(to.x - from.x)) + Repeat('<', Max0(from.x - to.x)) + Repeat('v', Max0(to.y - from.y)) + Repeat('^', Max0(from.y - to.y))
  }

  /** Every character is one of the four arrows. */
  ghost predicate Arrows(p: seq<char>)
  {
    forall c :: c in p ==> FromChar(c).Some?
  }

  /** Where the arm ends after following the arrows of `p`. */
  function Follow(from: Coord, p: seq<char>): Coord
    requires Arrows(p)
    decreases |p|
  {
    if p == [] then from else Follow(Move(from, FromChar(p[0]).value), p[1..])
  }

  /** Following arrows moves by the number of each arrow, in whatever order they come. */
  lemma {:induction false} FollowOffset(from: Coord, p: seq<char>)
    requires Arrows(p)
    ensures Follow(from, p)
         == Coord(from.x + multiset(p)['>'] - multiset(p)['<'], from.y + multiset(p)['v'] - multiset(p)['^'])
    decreases |p|
  {
    if p != [] {
      FollowOffset(Move(from, FromChar(p[0]).value), p[1..]);
      assert p == [p[0]] + p[1..];
      assert multiset(p) == multiset{p[0]} + multiset(p[1..]);
    }
  }

  /** How many of each character `Repeat` holds. */
  lemma {:induction false} RepeatCount(c: char, n: nat, x: char)
    ensures multiset(Repeat(c, n))[x] == if x == c then n else 0
  {
    if n > 0 {
      RepeatCount(c, n - 1, x);
      assert Repeat(c, n) == Repeat(c, n - 1) + [c];
    }
  }
  /** Counts add up over a concatenation of four pieces. */
  lemma CountConcat(a: seq<char>, b: seq<char>, c: seq<char>, d: seq<char>, x: char, na: nat, nb: nat, nc: nat, nd: nat)
    requires multiset(a)[x] == na && multiset(b)[x] == nb && multiset(c)[x] == nc && multiset(d)[x] == nd
    ensures multiset(a + b + c + d)[x] == na + nb + nc + nd
  {
    assert multiset(a + b + c + d) == multiset(a) + multiset(b) + multiset(c) + multiset(d);
  }

  /** The count of `x` among the moves is the sum of its counts in the four runs. */
  lemma MovesCountOf(from: Coord, to: Coord, x: char, a: nat, b: nat, c: nat, d: nat)
    requires multiset(Repeat('>', Max0(to.x - from.x)))[x] == a && multiset(Repeat('<', Max0(from.x - to.x)))[x] == b
    requires multiset(Repeat('v', Max0(to.y - from.y)))[x] == c && multiset(Repeat('^', Max0(from.y - to.y)))[x] == d
    ensures multiset(Moves(from, to))[x] == a + b + c + d
  {
    var rs, ls := Repeat('>', Max0(to.x - from.x)), Repeat('<', Max0(from.x - to.x));
    var ds, us := Repeat('v', Max0(to.y - from.y)), Repeat('^', Max0(from.y - to.y));
    assert Moves(from, to) == rs + ls + ds + us;
    CountConcat(rs, ls, ds, us, x, a, b, c, d);
  }

  /** The moves hold as many of each arrow as the offset between the buttons calls for. */
  lemma MovesCounts(from: Coord, to: Coord)
    ensures multiset(Moves(from, to))['>'] == Max0(to.x - from.x)
    ensures multiset(Moves(from, to))['<'] == Max0(from.x - to.x)
    ensures multiset(Moves(from, to))['v'] == Max0(to.y - from.y)
    ensures multiset(Moves(from, to))['^'] == Max0(from.y - to.y)
  {
    var r, l, d, u := Max0(to.x - from.x), Max0(from.x - to.x), Max0(to.y - from.y), Max0(from.y - to.y);
    RepeatCount('>', r, '>'); RepeatCount('<', l, '>'); RepeatCount('v', d, '>'); RepeatCount('^', u, '>');
    MovesCountOf(from, to, '>', r, 0, 0, 0);
    RepeatCount('>', r, '<'); RepeatCount('<', l, '<'); RepeatCount('v', d, '<'); RepeatCount('^', u, '<');
    MovesCountOf(from, to, '<', 0, l, 0, 0);
    RepeatCount('>', r, 'v'); RepeatCount('<', l, 'v'); RepeatCount('v', d, 'v'); RepeatCount('^', u, 'v');
    MovesCountOf(from, to, 'v', 0, 0, d, 0);
    RepeatCount('>', r, '^'); RepeatCount('<', l, '^'); RepeatCount('v', d, '^'); RepeatCount('^', u, '^');
    MovesCountOf(from, to, '^', 0, 0, 0, u);
  }

  /** The straight-line moves are all arrows. */
  lemma MovesArrows(from: Coord, to: Coord)
    ensures Arrows(Moves(from, to))
  {
  }

  /** Any order of the straight-line moves is made of arrows, has their length and reaches the target. */
  lemma MovesReach(from: Coord, to: Coord, p: seq<char>)
    requires multiset(p) == multiset(Moves(from, to))
    ensures Arrows(p) && |p| == ManhattanDistance(from, to) && Follow(from, p) == to
  {
    var m := Moves(from, to);
    MovesArrows(from, to);
    MovesCounts(from, to);
    forall c | c in p ensures FromChar(c).Some? {
      assert c in multiset(m);
    }
    assert |p| == |multiset(p)| == |multiset(m)| == |m|;
    FollowOffset(from, p);
  }

  /** The walk stays off `gap` at every step. */
  predicate Safe(from: Coord, p: seq<char>, gap: Coord)
    decreases |p|
  {
    p == [] || (FromChar(p[0]).Some? && Move(from, FromChar(p[0]).value) != gap && Safe(Move(from, FromChar(p[0]).value), p[1..], gap))
  }

  /** A walk of arrows is safe exactly when no prefix of it of length at least one ends on the gap. */
  lemma {:induction false} SafeAvoidsGap(from: Coord, p: seq<char>, gap: Coord)
    requires Arrows(p)
    ensures Safe(from, p, gap) <==> forall k :: 1 <= k <= |p| ==> Follow(from, p[..k]) != gap
    decreases |p|
  {
    if p != [] {
      var next := Move(from, FromChar(p[0]).value);
      assert p[..1] == [p[0]] && p[..1][1..] == [];
      SafeAvoidsGap(next, p[1..], gap);
      forall k | 1 <= k <= |p| ensures Follow(from, p[..k]) == Follow(next, p[1..][..k - 1]) {
        assert p[..k][1..] == p[1..][..k - 1];
      }
      if forall k :: 1 <= k <= |p| ==> Follow(from, p[..k]) != gap {
        forall k | 1 <= k <= |p[1..]| ensures Follow(next, p[1..][..k]) != gap {
          assert Follow(from, p[..k + 1]) != gap;
        }
      }
    }
  }

  /** The filter on candidate orders: walks the arm and rejects the order once it lands on the gap. */
  method Avoids(from: Coord, p: seq<char>, gap: Coord) returns (ok: bool)
    requires Arrows(p)
    ensures ok == Safe(from, p, gap)
  {
    var at := from;
    for i := 0 to |p|
      invariant Safe(from, p, gap) == Safe(at, p[i..], gap)
    {
      assert p[i] in p;
      assert p[i..][1..] == p[i + 1..];
      at := Move(at, FromChar(p[i]).value);
      if at == gap {
        return false;
      }
    }
    assert p[|p|..] == [];
    return true;
  }

  /** The orders of the moves tried between two buttons, as Heap's algorithm lists them. */
  function Candidates(from: Coord, to: Coord): seq<seq<char>>
  {
    Heap(Moves(from, to), |Moves(from, to)|).0
  }

  /** There are `d!` candidates for distance `d`, and every one is a shortest walk from `from` to `to`. */
  lemma CandidatesWalk(from: Coord, to: Coord)
    ensures |Candidates(from, to)| == Fact(ManhattanDistance(from, to))
    ensures forall c :: c in Candidates(from, to) ==>
      Arrows(c) && |c| == ManhattanDistance(from, to) && Follow(from, c) == to
  {
    var m := Moves(from, to);
    HeapCount(m, |m|);
    HeapPermutes(m, |m|);
    forall c | c in Candidates(from, to)
      ensures Arrows(c) && |c| == ManhattanDistance(from, to) && Follow(from, c) == to
    {
      MovesReach(from, to, c);
    }
  }

  // ---------------------------------------------------------- press counts

  /**
   * Presses needed at the top of the chain to make the arm at `depth` type
   * `path`, with `limit` the level of the human. None where the source
   * panics: a button not on the pad, or a move with no safe order.
   */
  function Presses(path: seq<char>, depth: nat, limit: nat): Option<nat>
    requires depth <= limit
    decreases limit - depth, 2, 0
  {
    if depth == limit then Some(|path|) else Along(path, depth, limit, Start(depth))
  }

  /** The summed cost of typing `path` at `depth` with the arm starting over `from`. */
  function Along(path: seq<char>, depth: nat, limit: nat, from: Coord): Option<nat>
    requires depth < limit
    decreases limit - depth, 1, |path|
  {
    if path == [] then Some(0)
    else
      match Pad(depth, path[0])
      case None => None
      case Some(loc) =>
        match Shortest(from, loc, depth, limit)
        case None => None
        case Some(v) => Plus(v, Along(path[1..], depth, limit, loc))
  }

  /** The fold from position `i` on: the move to `path[i]`, then the rest of the path from there. */
  lemma AlongFrom(path: seq<char>, i: nat, depth: nat, limit: nat, from: Coord)
    requires depth < limit && i < |path|
    ensures Pad(depth, path[i]).None? ==> Along(path[i..], depth, limit, from).None?
    ensures Pad(depth, path[i]).Some? && Shortest(from, Pad(depth, path[i]).value, depth, limit).None? ==>
      Along(path[i..], depth, limit, from).None?
    ensures Pad(depth, path[i]).Some? && Shortest(from, Pad(depth, path[i]).value, depth, limit).Some? ==>
      Along(path[i..], depth, limit, from)
      == Plus(Shortest(from, Pad(depth, path[i]).value, depth, limit).value, Along(path[i + 1..], depth, limit, Pad(depth, path[i]).value))
  {
    assert path[i..][0] == path[i] && path[i..][1..] == path[i + 1..];
  }

  /** Adds `s` to a cost, keeping a failure a failure. */
  function Plus(s: nat, o: Option<nat>): (r: Option<nat>)
    ensures r.Some? <==> o.Some?
    ensures r.Some? ==> r.value == s + o.value
  {
    match o
    case None => None
    case Some(w) => Some(s + w)
  }

  /** The cheapest safe candidate for moving from `from` to `to` at `depth` and pressing `A`. */
  function Shortest(from: Coord, to: Coord, depth: nat, limit: nat): Option<nat>
    requires depth < limit
    decreases limit - depth, 1, 0
  {
    Cheapest(Candidates(from, to), from, depth, limit)
  }

  /** The least cost over the safe orders among `cands`; None when none is safe or one fails. */
  function Cheapest(cands: seq<seq<char>>, from: Coord, depth: nat, limit: nat): Option<nat>
    requires depth < limit
    decreases limit - depth, 0, |cands| + 1
  {
    match Costs(cands, from, depth, limit)
    case None => None
    case Some(cs) => if cs == [] then None else Some(Min(cs))
  }

  /** The costs one level up of the safe candidates, in order; None once one of them fails. */
  function Costs(cands: seq<seq<char>>, from: Coord, depth: nat, limit: nat): Option<seq<nat>>
    requires depth < limit
    decreases limit - depth, 0, |cands|
  {
    if cands == [] then Some([])
    else
      var init := Costs(cands[..|cands| - 1], from, depth, limit);
      var c := cands[|cands| - 1];
      if !Safe(from, c, Gap(depth)) then init
      else
        match (init, Presses(c + ['A'], depth + 1, limit))
        case (Some(cs), Some(v)) => Some(cs + [v])
        case _ => None
  }

  /** The least element. */
  function Min(xs: seq<nat>): (r: nat)
    requires xs != []
    ensures r in xs
    ensures forall i :: 0 <= i < |xs| ==> r <= xs[i]
  {
    if |xs| == 1 then xs[0]
    else
      var m := Min(xs[..|xs| - 1]);
      if xs[|xs| - 1] < m then xs[|xs| - 1] else m
  }

  /** Extending the list by one value: the new least is the smaller of the old least and that value. */
  lemma MinSnoc(xs: seq<nat>, v: nat)
    requires xs != []
    ensures Min(xs + [v]) == if v < Min(xs) then v else Min(xs)
  {
    assert (xs + [v])[..|xs|] == xs;
  }

  /** One more candidate: skipped when unsafe, otherwise its cost is appended or the list fails. */
  lemma CostsSnoc(cands: seq<seq<char>>, j: nat, from: Coord, depth: nat, limit: nat)
    requires depth < limit && j < |cands|
    ensures !Safe(from, cands[j], Gap(depth)) ==>
      Costs(cands[..j + 1], from, depth, limit) == Costs(cands[..j], from, depth, limit)
    ensures Safe(from, cands[j], Gap(depth)) ==>
      Costs(cands[..j + 1], from, depth, limit)
      == match (Costs(cands[..j], from, depth, limit), Presses(cands[j] + ['A'], depth + 1, limit))
         case (Some(cs), Some(v)) => Some(cs + [v])
         case _ => None
  {
    assert cands[..j + 1][..j] == cands[..j];
  }

  /** A failing prefix of the candidates makes the whole list fail. */
  lemma {:induction false} CostsNoneExtends(cands: seq<seq<char>>, j: nat, from: Coord, depth: nat, limit: nat)
    requires depth < limit && j <= |cands|
    requires Costs(cands[..j], from, depth, limit) == None
    ensures Costs(cands, from, depth, limit) == None
    decreases |cands|
  {
    if j == |cands| {
      assert cands[..j] == cands;
    } else {
      var init := cands[..|cands| - 1];
      assert init[..j] == cands[..j];
      CostsNoneExtends(init, j, from, depth, limit);
    }
  }

  /**
   * The costs are exactly those of the safe candidates: each safe candidate's
   * cost is listed, and each listed cost is some safe candidate's.
   */
  lemma {:induction false} CostsMembers(cands: seq<seq<char>>, from: Coord, depth: nat, limit: nat)
    requires depth < limit && Costs(cands, from, depth, limit).Some?
    ensures forall c :: c in cands && Safe(from, c, Gap(depth)) ==>
      Presses(c + ['A'], depth + 1, limit).Some? &&
      Presses(c + ['A'], depth + 1, limit).value in Costs(cands, from, depth, limit).value
    ensures forall v :: v in Costs(cands, from, depth, limit).value ==>
      exists c :: c in cands && Safe(from, c, Gap(depth)) && Presses(c + ['A'], depth + 1, limit) == Some(v)
    decreases |cands|
  {
    if cands != [] {
      var init := cands[..|cands| - 1];
      var last := cands[|cands| - 1];
      assert cands == init + [last];
      CostsMembers(init, from, depth, limit);
    }
  }

  /** The list of costs fails exactly when some safe candidate fails one level up. */
  lemma {:induction false} CostsNone(cands: seq<seq<char>>, from: Coord, depth: nat, limit: nat)
    requires depth < limit
    ensures Costs(cands, from, depth, limit).None? <==>
      exists c :: c in cands && Safe(from, c, Gap(depth)) && Presses(c + ['A'], depth + 1, limit).None?
    decreases |cands|
  {
    if cands != [] {
      var init := cands[..|cands| - 1];
      var last := cands[|cands| - 1];
      assert cands == init + [last];
      CostsNone(init, from, depth, limit);
    }
  }

  /**
   * The cost of a move is the least cost over its safe candidates; there is
   * none when no candidate is safe or a safe one fails.
   */
  lemma ShortestIsMinimum(from: Coord, to: Coord, depth: nat, limit: nat)
    requires depth < limit
    ensures Shortest(from, to, depth, limit).None? <==>
      (forall c :: c in Candidates(from, to) ==> !Safe(from, c, Gap(depth))) ||
      (exists c :: c in Candidates(from, to) && Safe(from, c, Gap(depth)) && Presses(c + ['A'], depth + 1, limit).None?)
    ensures Shortest(from, to, depth, limit).Some? ==>
      (exists c :: c in Candidates(from, to) && Safe(from, c, Gap(depth)) &&
        Presses(c + ['A'], depth + 1, limit) == Shortest(from, to, depth, limit)) &&
      (forall c :: c in Candidates(from, to) && Safe(from, c, Gap(depth)) ==>
        Presses(c + ['A'], depth + 1, limit).Some? &&
        Shortest(from, to, depth, limit).value <= Presses(c + ['A'], depth + 1, limit).value)
  {
    var cands := Candidates(from, to);
    CostsNone(cands, from, depth, limit);
    if Costs(cands, from, depth, limit).Some? {
      CostsMembers(cands, from, depth, limit);
      var cs := Costs(cands, from, depth, limit).value;
      if cs != [] {
        assert Min(cs) in cs;
        var c :| c in cands && Safe(from, c, Gap(depth)) && Presses(c + ['A'], depth + 1, limit) == Some(Min(cs));
      }
    }
  }

  /** Typing a sequence takes at least one press per character. */
  lemma {:induction false} PressesAtLeast(path: seq<char>, depth: nat, limit: nat)
    requires depth <= limit
    ensures Presses(path, depth, limit).Some? ==> Presses(path, depth, limit).value >= |path|
    decreases limit - depth, 2, 0
  {
    if depth < limit {
      AlongAtLeast(path, depth, limit, Start(depth));
    }
  }

  lemma {:induction false} AlongAtLeast(path: seq<char>, depth: nat, limit: nat, from: Coord)
    requires depth < limit
    ensures Along(path, depth, limit, from).Some? ==> Along(path, depth, limit, from).value >= |path|
    decreases limit - depth, 1, |path|
  {
    if path != [] && Pad(depth, path[0]).Some? {
      var loc := Pad(depth, path[0]).value;
      ShortestAtLeast(from, loc, depth, limit);
      AlongAtLeast(path[1..], depth, limit, loc);
    }
  }

  /** A move costs more than its length: every arrow and the final `A` are pressed one level up. */
  lemma {:induction false} ShortestAtLeast(from: Coord, to: Coord, depth: nat, limit: nat)
    requires depth < limit
    ensures Shortest(from, to, depth, limit).Some? ==>
      Shortest(from, to, depth, limit).value > ManhattanDistance(from, to)
    decreases limit - depth, 1, 0
  {
    CandidatesWalk(from, to);
    CostsAtLeast(Candidates(from, to), from, depth, limit, ManhattanDistance(from, to));
  }

  lemma {:induction false} CostsAtLeast(cands: seq<seq<char>>, from: Coord, depth: nat, limit: nat, k: nat)
    requires depth < limit
    requires forall c :: c in cands ==> |c| == k
    ensures Costs(cands, from, depth, limit).Some? ==> forall v :: v in Costs(cands, from, depth, limit).value ==> v > k
    decreases limit - depth, 0, |cands|
  {
    if cands != [] {
      var init := cands[..|cands| - 1];
      var c := cands[|cands| - 1];
      assert c in cands;
      CostsAtLeast(init, from, depth, limit, k);
      PressesAtLeast(c + ['A'], depth + 1, limit);
    }
  }

  // ------------------------------------------------------------- the cache

  /** The cache of press counts by path, depth and limit, shared across all calls. */
  class Cache {
    var entries: map<(seq<char>, nat, nat), nat>

    /** Every entry holds the press count of its key. */
    ghost predicate Valid()
      reads this
    {
      forall k :: k in entries ==> k.1 <= k.2 && Presses(k.0, k.1, k.2) == Some(entries[k])
    }

    constructor ()
      ensures entries == map[] && Valid()
    {
      entries := map[];
    }
  }

  /**
   * The press count for `path` at `depth`, looked up in the cache or computed
   * move by move and then recorded.
   */
  method CountButtonPresses(path: seq<char>, depth: nat, limit: nat, cache: Cache) returns (r: Option<nat>)
    requires depth <= limit && cache.Valid()
    modifies cache
    ensures cache.Valid() && old(cache.entries).Keys <= cache.entries.Keys
    ensures r == Presses(path, depth, limit)
    ensures r.Some? && depth < limit ==> (path, depth, limit) in cache.entries
    decreases limit - depth, 3
  {
    var key := (path, depth, limit);
    if key in cache.entries {
      return Some(cache.entries[key]);
    }
    if depth == limit {
      return Some(|path|);
    }
    r := PressAlong(path, depth, limit, cache);
    if r.Some? {
      cache.entries := cache.entries[key := r.value];
    }
  }

  /** The fold over the path: the arm starts over `A` and each move adds its cheapest cost. */
  method PressAlong(path: seq<char>, depth: nat, limit: nat, cache: Cache) returns (r: Option<nat>)
    requires depth < limit && cache.Valid()
    modifies cache
    ensures cache.Valid() && old(cache.entries).Keys <= cache.entries.Keys
    ensures r == Along(path, depth, limit, Start(depth))
    decreases limit - depth, 2
  {
    ghost var goal := Along(path, depth, limit, Start(depth));
    var from := Start(depth);
    var sum: nat := 0;
    assert path[0..] == path;
    for i := 0 to |path|
      invariant cache.Valid() && old(cache.entries).Keys <= cache.entries.Keys
      invariant goal == Plus(sum, Along(path[i..], depth, limit, from))
    {
      var loc := Pad(depth, path[i]);
      if loc.None? {
        AlongStops(path, i, depth, limit, from, sum, goal);
        return None;
      }
      var shortest := ShortestFrom(from, loc.value, depth, limit, cache);
      if shortest.None? {
        AlongStops(path, i, depth, limit, from, sum, goal);
        return None;
      }
      AlongAdvance(path, i, depth, limit, from, sum, goal);
      sum := sum + shortest.value;
      from := loc.value;
    }
    assert path[|path|..] == [];
    r := Some(sum);
  }

  /** The fold fails where the next button is missing or its move cannot be costed. */
  lemma AlongStops(path: seq<char>, i: nat, depth: nat, limit: nat, from: Coord, sum: nat, goal: Option<nat>)
    requires depth < limit && i < |path| && goal == Plus(sum, Along(path[i..], depth, limit, from))
    requires Pad(depth, path[i]).None? || Shortest(from, Pad(depth, path[i]).value, depth, limit).None?
    ensures goal.None?
  {
    AlongFrom(path, i, depth, limit, from);
  }

  /** The fold moves on to the next button, adding the cheapest cost of moving there and pressing it. */
  lemma AlongAdvance(path: seq<char>, i: nat, depth: nat, limit: nat, from: Coord, sum: nat, goal: Option<nat>)
    requires depth < limit && i < |path| && goal == Plus(sum, Along(path[i..], depth, limit, from))
    requires Pad(depth, path[i]).Some? && Shortest(from, Pad(depth, path[i]).value, depth, limit).Some?
    ensures goal == Plus(sum + Shortest(from, Pad(depth, path[i]).value, depth, limit).value,
                         Along(path[i + 1..], depth, limit, Pad(depth, path[i]).value))
  {
    AlongFrom(path, i, depth, limit, from);
  }

  /** The moves copied into a fresh buffer, as `collect` does. */
  method Collect(moves: seq<char>) returns (buffer: array<char>)
    ensures fresh(buffer) && buffer[..] == moves
  {
    buffer := new char[|moves|];
    for k := 0 to |moves|
      invariant buffer[..k] == moves[..k]
    {
      buffer[k] := moves[k];
    }
    assert buffer[..] == buffer[..|moves|] && moves[..|moves|] == moves;
  }

  /** The cheapest safe order of the moves from `from` to `to`, costed one level up. */
  method ShortestFrom(from: Coord, to: Coord, depth: nat, limit: nat, cache: Cache) returns (r: Option<nat>)
    requires depth < limit && cache.Valid()
    modifies cache
    ensures cache.Valid() && old(cache.entries).Keys <= cache.entries.Keys
    ensures r == Shortest(from, to, depth, limit)
    decreases limit - depth, 1
  {
    var moves := Moves(from, to);
    var buffer := Collect(moves);
    var perms := Permutations(buffer, |moves|);
    assert perms == Candidates(from, to);
    CandidatesWalk(from, to);
    r := CheapestFrom(perms, from, depth, limit, cache);
  }

  /** Filters out the orders that cross the gap, costs the rest one level up and keeps the least. */
  method CheapestFrom(perms: seq<seq<char>>, from: Coord, depth: nat, limit: nat, cache: Cache) returns (r: Option<nat>)
    requires depth < limit && cache.Valid()
    requires forall c :: c in perms ==> Arrows(c)
    modifies cache
    ensures cache.Valid() && old(cache.entries).Keys <= cache.entries.Keys
    ensures r == Cheapest(perms, from, depth, limit)
    decreases limit - depth, 0
  {
    var gap := Gap(depth);
    var best: Option<nat> := None;
    ghost var costs: seq<nat> := [];
    for j := 0 to |perms|
      invariant cache.Valid() && old(cache.entries).Keys <= cache.entries.Keys
      invariant Costs(perms[..j], from, depth, limit) == Some(costs)
      invariant best == (if costs == [] then None else Some(Min(costs)))
    {
      CostsSnoc(perms, j, from, depth, limit);
      assert perms[j] in perms;
      var safe := Avoids(from, perms[j], gap);
      if safe {
        var v := CountButtonPresses(perms[j] + ['A'], depth + 1, limit, cache);
        if v.None? {
          CostsNoneExtends(perms, j + 1, from, depth, limit);
          return None;
        }
        if costs != [] {
          MinSnoc(costs, v.value);
        }
        costs := costs + [v.value];
        if best.None? || v.value < best.value {
          best := v;
        }
      }
    }
    assert perms[..|perms|] == perms;
    r := best;
  }
}
