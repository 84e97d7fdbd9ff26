/**
 * Day 1: two columns of location ids. Part 1 pairs the columns after
 * sorting each and sums the distances; part 2 weights every id of the
 * left column by how often it occurs in the right column.
 */
module Day01 {
  import opened Arith
  import opened Util

  /**
   * Each line holds its space-separated fields, already read as integers;
   * the left list takes the first field and the right list the last one.
   * The source unwraps the last field after taking the first, so a line
   * needs at least two fields.
   */
  method ParseInput(lines: seq<seq<int>>) returns (l1: seq<int>, l2: seq<int>)
    requires forall i :: 0 <= i < |lines| ==> |lines[i]| >= 2
    ensures |l1| == |lines| && |l2| == |lines|
    ensures forall i :: 0 <= i < |lines| ==> l1[i] == lines[i][0] && l2[i] == lines[i][|lines[i]| - 1]
  {
    l1, l2 := [], [];
    for i := 0 to |lines|
      invariant |l1| == i && |l2| == i
      invariant forall k :: 0 <= k < i ==> l1[k] == lines[k][0] && l2[k] == lines[k][|lines[k]| - 1]
    {
      l1 := l1 + [lines[i][0]];
      l2 := l2 + [lines[i][|lines[i]| - 1]];
    }
  }

  /** Occurrence count of every value of `l`. */
  method CountOccurrences(l: seq<int>) returns (res: map<int, nat>)
    ensures forall x :: x in res <==> x in l
    ensures forall x :: x in res ==> res[x] == multiset(l)[x]
    ensures MapSum(res) == |l|
  {
    res := map[];
    for i := 0 to |l|
      invariant forall x :: x in res <==> x in l[..i]
      invariant forall x :: x in res ==> res[x] == multiset(l[..i])[x]
      invariant MapSum(res) == i
    {
      assert l[..i + 1] == l[..i] + [l[i]];
      var c := if l[i] in res then res[l[i]] + 1 else 1;
      MapSumUpdate(res, l[i], c);
      res := res[l[i] := c];
    }
    assert l[..|l|] == l;
  }

  // ------------------------------------------------------------- part 1

  predicate Sorted(s: seq<int>)
  {
    forall i, j :: 0 <= i < j < |s| ==> s[i] <= s[j]
  }

  function Insert(x: int, s: seq<int>): (r: seq<int>)
    ensures multiset(r) == multiset(s) + multiset{x}
  {
    if s == [] || x <= s[0] then [x] + s
    else
      assert s == [s[0]] + s[1..];
      [s[0]] + Insert(x, s[1..])
  }

  lemma {:induction false} InsertSorted(x: int, s: seq<int>)
    requires Sorted(s)
    ensures Sorted(Insert(x, s))
  {
    if s != [] && x > s[0] {
      var r' := Insert(x, s[1..]);
      InsertSorted(x, s[1..]);
      assert s == [s[0]] + s[1..];
      forall k | 0 <= k < |r'| ensures s[0] <= r'[k] {
        assert r'[k] in multiset(s[1..]) + multiset{x};
      }
    }
  }

  /** The ascending order `sort` leaves a list in, as a reference definition. */
  function Sort(s: seq<int>): (r: seq<int>)
    ensures multiset(r) == multiset(s) && Sorted(r)
  {
    if s == [] then []
    else
      assert s == [s[0]] + s[1..];
      InsertSorted(s[0], Sort(s[1..]));
      Insert(s[0], Sort(s[1..]))
  }

  /** Two sorted lists with the same elements are equal. */
  lemma {:induction false} SortedUnique(a: seq<int>, b: seq<int>)
    requires Sorted(a) && Sorted(b) && multiset(a) == multiset(b)
    ensures a == b
  {
    if a != [] {
      assert b != [] by { assert a[0] in multiset(b); }
      assert a[0] in multiset(b) && b[0] in multiset(a);
      assert a[0] <= b[0] by { var j :| 0 <= j < |a| && a[j] == b[0]; }
      assert b[0] <= a[0] by { var j :| 0 <= j < |b| && b[j] == a[0]; }
      assert a[0] == b[0];
      assert a == [a[0]] + a[1..] && b == [b[0]] + b[1..];
      assert multiset(a[1..]) == multiset(a) - multiset{a[0]};
      assert multiset(b[1..]) == multiset(b) - multiset{b[0]};
      SortedUnique(a[1..], b[1..]);
    }
  }

  /** Sum of `|a[i] - b[i]|` over the pairs `zip` forms (it stops at the shorter list). */
  function DistanceSum(a: seq<int>, b: seq<int>): nat
  {
    if a == [] || b == [] then 0 else Abs(a[0] - b[0]) + DistanceSum(a[1..], b[1..])
  }

  lemma {:induction false} DistanceSumZero(a: seq<int>, b: seq<int>)
    requires |a| == |b|
    ensures DistanceSum(a, b) == 0 <==> a == b
  {
    if a != [] {
      DistanceSumZero(a[1..], b[1..]);
      assert a == [a[0]] + a[1..] && b == [b[0]] + b[1..];
    }
  }

  /** Total distance between the two lists, each sorted ascending and paired index-wise. */
  function Part1(l1: seq<int>, l2: seq<int>): nat
  {
    DistanceSum(Sort(l1), Sort(l2))
  }

  /** Equal-length lists are at total distance 0 exactly when they hold the same ids. */
  lemma Part1ZeroIff(l1: seq<int>, l2: seq<int>)
    requires |l1| == |l2|
    ensures Part1(l1, l2) == 0 <==> multiset(l1) == multiset(l2)
  {
    var s1, s2 := Sort(l1), Sort(l2);
    assert |s1| == |multiset(s1)| == |l1|;
    assert |s2| == |multiset(s2)| == |l2|;
    DistanceSumZero(s1, s2);
    if multiset(l1) == multiset(l2) {
      SortedUnique(s1, s2);
    }
  }

  // ------------------------------------------------------------- part 2

  /** Similarity score: each id of `l1` times its number of occurrences in `l2`. */
  function Similarity(l1: seq<int>, l2: seq<int>): int
  {
    if l1 == [] then 0 else l1[0] * multiset(l2)[l1[0]] + Similarity(l1[1..], l2)
  }

  lemma {:induction false} SimilarityAppend(a: seq<int>, b: seq<int>, l2: seq<int>)
    ensures Similarity(a + b, l2) == Similarity(a, l2) + Similarity(b, l2)
  {
    if a != [] {
      assert (a + b)[0] == a[0] && (a + b)[1..] == a[1..] + b;
      SimilarityAppend(a[1..], b, l2);
    } else {
      assert a + b == b;
    }
  }

  /** Computes part 2 with the occurrence map of the right list. */
  method Part2(l1: seq<int>, l2: seq<int>) returns (score: int)
    ensures score == Similarity(l1, l2)
  {
    var counts := CountOccurrences(l2);
    score := 0;
    for i := 0 to |l1|
      invariant score == Similarity(l1[..i], l2)
    {
      var c := if l1[i] in counts then counts[l1[i]] else 0;
      SimilarityAppend(l1[..i], [l1[i]], l2);
      assert l1[..i + 1] == l1[..i] + [l1[i]];
      score := score + l1[i] * c;
    }
    assert l1[..|l1|] == l1;
  }

  lemma {:induction false} SimilarityEmptyRight(l1: seq<int>)
    ensures Similarity(l1, []) == 0
  {
    if l1 != [] {
      SimilarityEmptyRight(l1[1..]);
    }
  }

  lemma {:induction false} SimilarityConsRight(l1: seq<int>, x: int, l2: seq<int>)
    ensures Similarity(l1, [x] + l2) == Similarity(l1, l2) + x * multiset(l1)[x]
  {
    if l1 != [] {
      SimilarityConsRight(l1[1..], x, l2);
      assert l1 == [l1[0]] + l1[1..];
      var a := l1[0];
      assert multiset([x] + l2)[a] == (if x == a then 1 else 0) + multiset(l2)[a];
      assert multiset(l1)[x] == (if x == a then 1 else 0) + multiset(l1[1..])[x];
      Distrib(a, if x == a then 1 else 0, multiset(l2)[a]);
      Distrib(x, if x == a then 1 else 0, multiset(l1[1..])[x]);
    }
  }

  /** The similarity score does not depend on which list is on the left. */
  lemma {:induction false} SimilaritySymmetric(l1: seq<int>, l2: seq<int>)
    ensures Similarity(l1, l2) == Similarity(l2, l1)
  {
    if l1 == [] {
      SimilarityEmptyRight(l2);
    } else {
      SimilaritySymmetric(l1[1..], l2);
      SimilarityConsRight(l2, l1[0], l1[1..]);
      assert [l1[0]] + l1[1..] == l1;
    }
  }
}
