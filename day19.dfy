/**
 * Day 19: towel patterns. The towels are stored in a prefix tree; the
 * lengths of the towels that start a pattern are read off one walk down
 * the tree. A stack search decides whether a pattern splits into towels,
 * and a memoised recursion counts the ways it does.
 */
module Day19 {
  import opened Wrappers
  import opened Arith

  /** A node of the prefix tree: whether a towel ends here, and a child per next character. */
  datatype Trie = Trie(end: bool, children: map<char, Trie>)

  /** The tree with no towels. */
  const Root := Trie(false, map[])

  /** The node reached by walking the characters of `w` down from `t`, if every step exists. */
  function Walk(t: Trie, w: string): Option<Trie>
    decreases |w|
  {
    if w == [] then Some(t)
    else if w[0] in t.children then Walk(t.children[w[0]], w[1..])
    else None
  }

  /** `w` is a word of the tree: its walk ends on a node marked as an end. */
  predicate Holds(t: Trie, w: string)
  {
    Walk(t, w).Some? && Walk(t, w).value.end
  }

  /** Walks down `w`, creating missing children on the way, and marks the last node as an end. */
  function Insert(t: Trie, w: string): Trie
    decreases |w|
  {
    if w == [] then t.(end := true)
    else
      var child := if w[0] in t.children then t.children[w[0]] else Root;
      t.(children := t.children[w[0] := Insert(child, w[1..])])
  }

  /** After inserting `w`, the words of the tree are the old ones and `w`. */
  lemma {:induction false} InsertHolds(t: Trie, w: string, v: string)
    ensures Holds(Insert(t, w), v) <==> v == w || Holds(t, v)
    decreases |w|
  {
    if w != [] && v != [] {
      var child := if w[0] in t.children then t.children[w[0]] else Root;
      if v[0] == w[0] {
        InsertHolds(child, w[1..], v[1..]);
        if w[0] !in t.children {
          RootEmpty(v[1..]);
        }
        assert v == w <==> v[1..] == w[1..];
      }
    }
  }

  lemma RootEmpty(v: string)
    ensures !Holds(Root, v)
  {
  }

  /** Builds the tree by inserting each towel in turn. */
  method ConstructPrefixTree(towels: seq<string>) returns (tree: Trie)
    ensures forall v :: Holds(tree, v) <==> v in towels
  {
    tree := Root;
    for i := 0 to |towels|
      invariant forall v :: Holds(tree, v) <==> v in towels[..i]
    {
      forall v
        ensures Holds(Insert(tree, towels[i]), v) <==> v in towels[..i + 1]
      {
        InsertHolds(tree, towels[i], v);
        assert towels[..i + 1] == towels[..i] + [towels[i]];
      }
      tree := Insert(tree, towels[i]);
    }
    assert towels[..|towels|] == towels;
  }

  // -------------------------------------------------------- match lengths

  /** The lengths `L` in 1..n, in increasing order, for which the first `L` characters of `p` form a word. */
  function Matches(t: Trie, p: string, n: nat): (r: seq<nat>)
    requires n <= |p|
    ensures forall L :: L in r <==> 1 <= L <= n && Holds(t, p[..L])
    ensures forall i, j :: 0 <= i < j < |r| ==> r[i] < r[j]
    ensures forall i :: 0 <= i < |r| ==> 1 <= r[i] <= n
  {
    if n == 0 then [] else Matches(t, p, n - 1) + if Holds(t, p[..n]) then [n] else []
  }

  /** Walking one more character extends the walk by one child step. */
  lemma {:induction false} WalkSnoc(t: Trie, w: string, c: char)
    ensures Walk(t, w + [c]) ==
      if Walk(t, w).Some? && c in Walk(t, w).value.children then Some(Walk(t, w).value.children[c]) else None
    decreases |w|
  {
    if w != [] {
      assert (w + [c])[1..] == w[1..] + [c];
      if w[0] in t.children {
        WalkSnoc(t.children[w[0]], w[1..], c);
      }
    }
  }

  /** Once a walk falls off the tree, every longer walk does too. */
  lemma {:induction false} WalkStuck(t: Trie, w: string, u: string)
    requires Walk(t, w).None?
    ensures Walk(t, w + u).None?
    decreases |w|
  {
    assert w != [];
    assert (w + u)[0] == w[0] && (w + u)[1..] == w[1..] + u;
    if w[0] in t.children {
      WalkStuck(t.children[w[0]], w[1..], u);
    }
  }

  /**
   * Walks down the tree along `pattern`, recording each length at which a
   * towel ends, and stops at the first character with no child.
   */
  method AllMatchLengths(t: Trie, pattern: string) returns (lengths: seq<nat>)
    ensures lengths == Matches(t, pattern, |pattern|)
  {
    lengths := [];
    var node := t;
    var len := 0;
    while len < |pattern|
      invariant len <= |pattern|
      invariant Walk(t, pattern[..len]) == Some(node)
      invariant lengths == Matches(t, pattern, len)
    {
      var c := pattern[len];
      WalkSnoc(t, pattern[..len], c);
      assert pattern[..len + 1] == pattern[..len] + [c];
      if c in node.children {
        node := node.children[c];
        if node.end {
          lengths := lengths + [len + 1];
        }
      } else {
        NoLongerMatches(t, pattern, len);
        return;
      }
      len := len + 1;
    }
  }

  /** If the walk along the first `len + 1` characters falls off, no longer prefix is a word. */
  lemma NoLongerMatches(t: Trie, pattern: string, len: nat)
    requires len < |pattern| && Walk(t, pattern[..len + 1]).None?
    ensures Matches(t, pattern, |pattern|) == Matches(t, pattern, len)
  {
    var k := |pattern|;
    while k > len
      invariant len <= k <= |pattern|
      invariant Matches(t, pattern, |pattern|) == Matches(t, pattern, k)
    {
      if k > len + 1 {
        assert pattern[..k] == pattern[..len + 1] + pattern[len + 1..k];
        WalkStuck(t, pattern[..len + 1], pattern[len + 1..k]);
      }
      k := k - 1;
    }
  }

  // ------------------------------------------------------- decomposition

  /** `p` splits into a sequence of words of the tree; the empty pattern does, trivially. */
  predicate Composable(t: Trie, p: string)
    decreases |p|
  {
    |p| == 0 || exists L :: 1 <= L <= |p| && Holds(t, p[..L]) && Composable(t, p[L..])
  }

  /** A composable prefix followed by one more word is composable. */
  lemma {:induction false} ComposableSnoc(t: Trie, u: string, v: string)
    requires Composable(t, u) && |v| >= 1 && Holds(t, v)
    ensures Composable(t, u + v)
    decreases |u|
  {
    if u == [] {
      assert u + v == v && v[..|v|] == v && v[|v|..] == [];
    } else {
      var L :| 1 <= L <= |u| && Holds(t, u[..L]) && Composable(t, u[L..]);
      ComposableSnoc(t, u[L..], v);
      assert (u + v)[..L] == u[..L] && (u + v)[L..] == u[L..] + v;
    }
  }

  /** Total weight of stacked positions: 2 to the number of characters left after each. */
  function Weight(stack: seq<nat>, n: nat): nat
    requires forall i :: 0 <= i < |stack| ==> stack[i] <= n
  {
    if stack == [] then 0
    else
      PowNonNegative(2, n - stack[|stack| - 1]);
      Weight(stack[..|stack| - 1], n) + Pow(2, n - stack[|stack| - 1])
  }

  lemma {:induction false} WeightAppend(s: seq<nat>, t: seq<nat>, n: nat)
    requires forall i :: 0 <= i < |s| ==> s[i] <= n
    requires forall i :: 0 <= i < |t| ==> t[i] <= n
    ensures forall i :: 0 <= i < |s + t| ==> (s + t)[i] <= n
    ensures Weight(s + t, n) == Weight(s, n) + Weight(t, n)
    decreases |t|
  {
    if t != [] {
      var t' := t[..|t| - 1];
      assert (s + t)[..|s + t| - 1] == s + t';
      WeightAppend(s, t', n);
    } else {
      assert s + t == s;
    }
  }

  /** Strictly increasing positions above `lo` weigh less than `lo` itself. */
  lemma {:induction false} WeightBelow(ys: seq<nat>, lo: nat, n: nat)
    requires lo <= n
    requires forall i :: 0 <= i < |ys| ==> lo < ys[i] <= n
    requires forall i, j :: 0 <= i < j < |ys| ==> ys[i] < ys[j]
    ensures Weight(ys, n) < Pow(2, n - lo)
    decreases |ys|
  {
    PowPositive(2, n - lo);
    if ys != [] {
      var y := ys[0];
      var rest := ys[1..];
      assert ys == [y] + rest;
      WeightAppend([y], rest, n);
      assert Weight([y], n) == Pow(2, n - y) by {
        assert [y][..0] == [];
      }
      WeightBelow(rest, y, n);
      assert Pow(2, n - y + 1) == 2 * Pow(2, n - y);
      PowMonotone(2, n - y + 1, n - lo);
    }
  }

  /** The positions pushed after popping `x`: `x` plus each match length of the rest of the pattern. */
  function Shifted(ls: seq<nat>, x: nat): (r: seq<nat>)
    ensures |r| == |ls| && forall i :: 0 <= i < |ls| ==> r[i] == ls[i] + x
  {
    seq(|ls|, i requires 0 <= i < |ls| => ls[i] + x)
  }

  /**
   * Depth-first search over split positions, starting from 0 with no
   * visited set: pops a position, answers true at the end of the pattern,
   * otherwise pushes the position after each towel that starts there.
   */
  method HasTotalMatch(pattern: string, tree: Trie) returns (r: bool)
    ensures r <==> Composable(tree, pattern)
  {
    var n := |pattern|;
    var stack: seq<nat> := [0];
    ghost var good := Composable(tree, pattern);
    ghost var w: nat := 0;
    assert pattern[0..] == pattern;
    while |stack| > 0
      invariant Built(tree, pattern, stack)
      invariant good ==> w in stack && w <= n && Composable(tree, pattern[w..])
      invariant good == Composable(tree, pattern)
      decreases Weight(stack, n)
    {
      var len := stack[|stack| - 1];
      var rest := stack[..|stack| - 1];
      if len == n {
        assert pattern[..len] == pattern;
        return true;
      }
      var lengths := AllMatchLengths(tree, pattern[len..]);
      var pushed := Shifted(lengths, len);
      w := Expand(tree, pattern, stack, good, w, lengths);
      stack := rest + pushed;
    }
    return false;
  }

  /**
   * Replacing the top position by the positions after each towel that
   * starts there keeps every position built, keeps a good position
   * stacked, and lowers the weight.
   */
  lemma Expand(t: Trie, p: string, stack: seq<nat>, good: bool, w: nat, lengths: seq<nat>) returns (w': nat)
    requires |stack| > 0 && Built(t, p, stack) && stack[|stack| - 1] < |p|
    requires good ==> w in stack && w <= |p| && Composable(t, p[w..])
    requires var x := stack[|stack| - 1]; lengths == Matches(t, p[x..], |p[x..]|)
    ensures var rest, x := stack[..|stack| - 1], stack[|stack| - 1];
      && Built(t, p, rest + Shifted(lengths, x))
      && (good ==> w' in rest + Shifted(lengths, x) && w' <= |p| && Composable(t, p[w'..]))
      && Weight(rest + Shifted(lengths, x), |p|) < Weight(stack, |p|)
  {
    var n := |p|;
    var x := stack[|stack| - 1];
    var rest := stack[..|stack| - 1];
    var pushed := Shifted(lengths, x);
    assert stack == rest + [x];
    PushedBuilt(t, p, x, lengths);
    BuiltAppend(t, p, rest, pushed);
    WeightAppend(rest, [x], n);
    assert Weight([x], n) == Pow(2, n - x) by {
      assert [x][..0] == [];
    }
    WeightBelow(pushed, x, n);
    WeightAppend(rest, pushed, n);
    w' := w;
    if good && w !in rest {
      assert w == x;
      w' := NextGood(t, p, x, lengths);
    }
  }

  /** Every stacked position ends a composable prefix of `p`. */
  ghost predicate Built(t: Trie, p: string, stack: seq<nat>)
  {
    forall i :: 0 <= i < |stack| ==> stack[i] <= |p| && Composable(t, p[..stack[i]])
  }

  lemma BuiltAppend(t: Trie, p: string, s: seq<nat>, u: seq<nat>)
    requires Built(t, p, s) && Built(t, p, u)
    ensures Built(t, p, s + u)
  {
    forall i | 0 <= i < |s + u|
      ensures (s + u)[i] <= |p| && Composable(t, p[..(s + u)[i]])
    {
      if i >= |s| {
        assert (s + u)[i] == u[i - |s|];
      }
    }
  }

  /** The positions pushed after a composable prefix of length `x` end composable prefixes. */
  lemma PushedBuilt(t: Trie, p: string, x: nat, lengths: seq<nat>)
    requires x < |p| && Composable(t, p[..x]) && lengths == Matches(t, p[x..], |p[x..]|)
    ensures Built(t, p, Shifted(lengths, x))
    ensures forall i :: 0 <= i < |lengths| ==> x < Shifted(lengths, x)[i]
    ensures forall i, j :: 0 <= i < j < |lengths| ==> Shifted(lengths, x)[i] < Shifted(lengths, x)[j]
  {
    var pushed := Shifted(lengths, x);
    forall i | 0 <= i < |pushed|
      ensures pushed[i] <= |p| && Composable(t, p[..pushed[i]])
    {
      var L := lengths[i];
      assert lengths[i] in lengths;
      assert p[x..][..L] == p[x..pushed[i]];
      ComposableSnoc(t, p[..x], p[x..pushed[i]]);
      assert p[..x] + p[x..pushed[i]] == p[..pushed[i]];
    }
  }

  /** From a good split position short of the end, some towel leads to another good one among those pushed. */
  lemma NextGood(t: Trie, p: string, x: nat, lengths: seq<nat>) returns (y: nat)
    requires x < |p| && Composable(t, p[x..]) && lengths == Matches(t, p[x..], |p[x..]|)
    ensures y in Shifted(lengths, x) && y <= |p| && Composable(t, p[y..])
  {
    var q := p[x..];
    var L := FirstWord(t, q);
    assert L in lengths;
    var i :| 0 <= i < |lengths| && lengths[i] == L;
    y := x + L;
    assert Shifted(lengths, x)[i] == y;
    assert q[L..] == p[y..];
  }

  /** A nonempty composable pattern starts with a word whose rest is composable. */
  lemma FirstWord(t: Trie, q: string) returns (L: nat)
    requires |q| > 0 && Composable(t, q)
    ensures 1 <= L <= |q| && Holds(t, q[..L]) && Composable(t, q[L..])
  {
    L :| 1 <= L <= |q| && Holds(t, q[..L]) && Composable(t, q[L..]);
  }

  // ------------------------------------------------------------- counting

  /**
   * The number of ways to split a pattern into words: for each word that
   * starts it, one if that word is the whole pattern, else the ways of the
   * rest. The empty pattern counts 0.
   */
  function Ways(t: Trie, p: string): nat
    decreases |p|, 1, 0
  {
    WaysOver(t, p, Matches(t, p, |p|))
  }

  function WaysOver(t: Trie, p: string, ls: seq<nat>): nat
    requires forall i :: 0 <= i < |ls| ==> 1 <= ls[i] <= |p|
    decreases |p|, 0, |ls|
  {
    if ls == [] then 0
    else (if ls[0] == |p| then 1 else Ways(t, p[ls[0]..])) + WaysOver(t, p, ls[1..])
  }

  /** A nonempty pattern has a way to split exactly when it is composable. */
  lemma {:induction false} WaysPositive(t: Trie, p: string)
    ensures Ways(t, p) > 0 <==> |p| > 0 && Composable(t, p)
    decreases |p|, 1
  {
    var ls := Matches(t, p, |p|);
    WaysOverPositive(t, p, ls);
    if |p| > 0 && Composable(t, p) {
      var L :| 1 <= L <= |p| && Holds(t, p[..L]) && Composable(t, p[L..]);
      assert L in ls;
    }
  }

  lemma {:induction false} WaysOverPositive(t: Trie, p: string, ls: seq<nat>)
    requires forall i :: 0 <= i < |ls| ==> 1 <= ls[i] <= |p| && Holds(t, p[..ls[i]])
    ensures WaysOver(t, p, ls) > 0 <==> exists L :: L in ls && Composable(t, p[L..])
    decreases |p|, 0, |ls|
  {
    if ls != [] {
      var L := ls[0];
      WaysOverPositive(t, p, ls[1..]);
      if L == |p| {
        assert p[L..] == [];
      } else {
        WaysPositive(t, p[L..]);
      }
      assert forall M :: M in ls <==> M == L || M in ls[1..];
    }
  }

  /** Every entry of the memo holds the count for its pattern. */
  ghost predicate MemoValid(t: Trie, memo: map<string, nat>)
  {
    forall k :: k in memo ==> memo[k] == Ways(t, k)
  }

  /**
   * Counts the splits of `pattern`: a hit in the memo is returned as
   * stored; otherwise each match length adds one (the whole pattern) or
   * the count of the rest, and the result is recorded.
   */
  method CountTotalMatches(pattern: string, tree: Trie, memo: map<string, nat>) returns (count: nat, memo': map<string, nat>)
    requires MemoValid(tree, memo)
    ensures count == Ways(tree, pattern)
    ensures MemoValid(tree, memo') && pattern in memo'
    ensures forall k :: k in memo ==> k in memo' && memo'[k] == memo[k]
    decreases |pattern|
  {
    if pattern in memo {
      return memo[pattern], memo;
    }
    memo' := memo;
    count := 0;
    var lengths := AllMatchLengths(tree, pattern);
    for i := 0 to |lengths|
      invariant MemoValid(tree, memo')
      invariant forall k :: k in memo ==> k in memo' && memo'[k] == memo[k]
      invariant count + WaysOver(tree, pattern, lengths[i..]) == Ways(tree, pattern)
    {
      var matchLen := lengths[i];
      assert lengths[i..][1..] == lengths[i + 1..];
      if matchLen == |pattern| {
        count := count + 1;
      } else if matchLen > 0 {
        var sub: nat;
        sub, memo' := CountTotalMatches(pattern[matchLen..], tree, memo');
        count := count + sub;
      }
    }
    memo' := memo'[pattern := count];
  }
}
