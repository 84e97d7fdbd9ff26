// Day 23: a LAN of computers given as "a-b" links. Part 1 lists the
// triangles that include a computer whose name starts with 't'; part 2 finds
// a largest clique with the Bron–Kerbosch search (no pivoting).

module Day23 {
  import opened Wrappers
  import Sets

  type Name = string

  /** For each computer, the set of computers it is linked to. */
  type Connections = map<Name, set<Name>>

  // ------------------------------------------------------------ name order

  /** Strict lexicographic order on names, the order Rust's `<` gives on `&str`. */
  predicate Below(a: Name, b: Name)
  {
    if a == [] then b != []
    else if b == [] then false
    else if a[0] != b[0] then a[0] < b[0]
    else Below(a[1..], b[1..])
  }

  lemma {:induction false} BelowIrreflexive(a: Name)
    ensures !Below(a, a)
  {
    if a != [] {
      BelowIrreflexive(a[1..]);
    }
  }

  lemma {:induction false} BelowTransitive(a: Name, b: Name, c: Name)
    requires Below(a, b) && Below(b, c)
    ensures Below(a, c)
  {
    if a != [] && a[0] == b[0] && b[0] == c[0] {
      BelowTransitive(a[1..], b[1..], c[1..]);
    }
  }

  /** Any two different names are ordered one way or the other. */
  lemma {:induction false} BelowTotal(a: Name, b: Name)
    requires a != b
    ensures Below(a, b) || Below(b, a)
  {
    if a != [] && b != [] && a[0] == b[0] {
      assert a == [a[0]] + a[1..] && b == [b[0]] + b[1..];
      BelowTotal(a[1..], b[1..]);
    }
  }

  // --------------------------------------------------------------- parsing

  /** Splits `line` at the first `sep`; None when there is none. */
  function SplitOnce(line: string, sep: char): (r: Option<(string, string)>)
    ensures r.None? <==> sep !in line
    ensures r.Some? ==> line == r.value.0 + [sep] + r.value.1 && sep !in r.value.0
  {
    if line == [] then None
    else if line[0] == sep then Some(([], line[1..]))
    else match SplitOnce(line[1..], sep)
      case None => None
      case Some((a, b)) =>
        assert line == [line[0]] + a + [sep] + b;
        Some(([line[0]] + a, b))
  }

  /** Line `line` links `a` and `b`, in either order. */
  predicate Links(line: string, a: Name, b: Name)
  {
    SplitOnce(line, '-') == Some((a, b)) || SplitOnce(line, '-') == Some((b, a))
  }

  /** Links go both ways: `b` is a neighbour of `a` iff `a` is one of `b`. */
  ghost predicate Symmetric(conn: Connections)
  {
    forall a, b :: a in conn && b in conn[a] ==> b in conn && a in conn[b]
  }

  /** The neighbours recorded for `a`, or none. */
  function Neighbours(conn: Connections, a: Name): set<Name>
  {
    if a in conn then conn[a] else {}
  }

  /** `b` is recorded as a neighbour of `a`. */
  predicate Adjacent(conn: Connections, a: Name, b: Name)
  {
    a in conn && b in conn[a]
  }

  /** Records the link `a`-`b` in both directions. */
  function AddLink(conn: Connections, a: Name, b: Name): (r: Connections)
    ensures Symmetric(conn) ==> Symmetric(r)
    ensures forall x, y :: Adjacent(r, x, y) <==> Adjacent(conn, x, y) || (x == a && y == b) || (x == b && y == a)
  {
    conn[a := Neighbours(conn, a) + {b}][b := Neighbours(conn[a := Neighbours(conn, a) + {b}], b) + {a}]
  }

  /** The links of the first `n` lines, as pairs in both directions. */
  ghost predicate Linked(lines: seq<string>, n: nat, a: Name, b: Name)
    requires n <= |lines|
  {
    exists j :: 0 <= j < n && Links(lines[j], a, b)
  }

  /** Recording line `n`'s link extends the adjacency of the first `n` lines to that of the first `n + 1`. */
  lemma ParseStep(lines: seq<string>, n: nat, conn: Connections, a: Name, b: Name)
    requires n < |lines| && SplitOnce(lines[n], '-') == Some((a, b))
    requires forall x, y :: Adjacent(conn, x, y) <==> Linked(lines, n, x, y)
    ensures forall x, y :: Adjacent(AddLink(conn, a, b), x, y) <==> Linked(lines, n + 1, x, y)
  {
    var r := AddLink(conn, a, b);
    forall x, y ensures Adjacent(r, x, y) <==> Linked(lines, n + 1, x, y) {
      if (x == a && y == b) || (x == b && y == a) {
        assert Links(lines[n], x, y);
      }
      if Linked(lines, n + 1, x, y) {
        var j :| 0 <= j < n + 1 && Links(lines[j], x, y);
        if j == n {
          assert (x == a && y == b) || (x == b && y == a);
        } else {
          assert Linked(lines, n, x, y);
        }
      }
      if Linked(lines, n, x, y) {
        var j :| 0 <= j < n && Links(lines[j], x, y);
        assert 0 <= j < n + 1;
      }
    }
  }

  /**
   * Builds the symmetric adjacency of all links; None when a line has no
   * '-', where the source panics.
   */
  method ParseInput(lines: seq<string>) returns (r: Option<Connections>)
    ensures r.None? <==> exists i :: 0 <= i < |lines| && '-' !in lines[i]
    ensures r.Some? ==> Symmetric(r.value)
    ensures r.Some? ==> forall a, b :: Adjacent(r.value, a, b) <==> Linked(lines, |lines|, a, b)
  {
    var conn: Connections := map[];
    for i := 0 to |lines|
      invariant forall j :: 0 <= j < i ==> '-' in lines[j]
      invariant Symmetric(conn)
      invariant forall a, b :: Adjacent(conn, a, b) <==> Linked(lines, i, a, b)
    {
      var split := SplitOnce(lines[i], '-');
      if split.None? {
        return None;
      }
      var (a, b) := split.value;
      ParseStep(lines, i, conn, a, b);
      conn := AddLink(conn, a, b);
    }
    r := Some(conn);
  }

  // ----------------------------------------------------------------- trios

  type Trio = (Name, Name, Name)

  predicate StartsWithT(name: Name)
  {
    |name| > 0 && name[0] == 't'
  }

  /**
   * A triangle of linked computers listed in increasing name order, with at
   * least one name starting with 't'.
   */
  predicate IsTrio(conn: Connections, t: Trio)
  {
    t.0 in conn && t.1 in conn[t.0] && t.2 in conn[t.0] && t.1 in conn && t.2 in conn[t.1] &&
    Below(t.0, t.1) && Below(t.1, t.2) &&
    (StartsWithT(t.0) || StartsWithT(t.1) || StartsWithT(t.2))
  }

  /** A trio's three names are distinct and every pair is linked both ways. */
  lemma TrioPairwise(conn: Connections, t: Trio)
    requires Symmetric(conn) && IsTrio(conn, t)
    ensures t.0 != t.1 && t.1 != t.2 && t.0 != t.2
    ensures t.0 in conn[t.1] && t.0 in conn[t.2] && t.1 in conn[t.2]
  {
    BelowIrreflexive(t.0);
    BelowIrreflexive(t.1);
    BelowTransitive(t.0, t.1, t.2);
  }

  /** Every trio: the computers are visited in arbitrary order, as the source's hash maps do. */
  method FindTrios(conn: Connections) returns (trios: set<Trio>)
    requires Symmetric(conn)
    ensures forall t :: t in trios <==> IsTrio(conn, t)
  {
    trios := {};
    var pending := conn.Keys;
    while pending != {}
      invariant pending <= conn.Keys
      invariant forall t :: t in trios <==> IsTrio(conn, t) && t.0 !in pending
      decreases pending
    {
      var c1 :| c1 in pending;
      trios := TriosFrom(conn, c1, trios);
      pending := pending - {c1};
    }
  }

  /** Adds the trios whose smallest name is `c1`. */
  method TriosFrom(conn: Connections, c1: Name, trios: set<Trio>) returns (r: set<Trio>)
    requires Symmetric(conn) && c1 in conn
    ensures forall t :: t in r <==> t in trios || (IsTrio(conn, t) && t.0 == c1)
  {
    r := trios;
    var pending := conn[c1];
    while pending != {}
      invariant pending <= conn[c1]
      invariant forall t :: t in r <==> t in trios || (IsTrio(conn, t) && t.0 == c1 && t.1 !in pending)
      decreases pending
    {
      var c2 :| c2 in pending;
      if Below(c1, c2) {
        r := TriosThrough(conn, c1, c2, r);
      }
      pending := pending - {c2};
    }
  }

  /** Adds the trios whose two smallest names are `c1` and `c2`. */
  method TriosThrough(conn: Connections, c1: Name, c2: Name, trios: set<Trio>) returns (r: set<Trio>)
    requires Symmetric(conn) && c1 in conn && c2 in conn[c1] && Below(c1, c2)
    ensures forall t :: t in r <==> t in trios || (IsTrio(conn, t) && t.0 == c1 && t.1 == c2)
  {
    r := trios;
    var pending := conn[c2];
    while pending != {}
      invariant pending <= conn[c2]
      invariant forall t :: t in r <==> t in trios || (IsTrio(conn, t) && t.0 == c1 && t.1 == c2 && t.2 !in pending)
      decreases pending
    {
      var c3 :| c3 in pending;
      if Below(c2, c3) {
        BelowTransitive(c1, c2, c3);
        BelowIrreflexive(c1);
        if c3 in conn[c1] && c1 != c3 && (StartsWithT(c1) || StartsWithT(c2) || StartsWithT(c3)) {
          r := r + {(c1, c2, c3)};
        }
      }
      pending := pending - {c3};
    }
  }

  // ---------------------------------------------------------------- cliques

  /** Every two distinct members are linked. */
  ghost predicate IsClique(conn: Connections, s: set<Name>)
  {
    s <= conn.Keys && forall a, b :: a in s && b in s && a != b ==> b in conn[a]
  }

  /** The computers outside `s` that are linked to every member of `s`. */
  ghost function Extenders(conn: Connections, s: set<Name>): set<Name>
  {
    set w | w in conn.Keys && w !in s && forall u :: u in s ==> u in conn && w in conn[u]
  }

  /** A clique no further computer can join. */
  ghost predicate Maximal(conn: Connections, s: set<Name>)
  {
    Extenders(conn, s) == {}
  }

  /** No computer is linked to itself. */
  ghost predicate NoSelfLinks(conn: Connections)
  {
    forall a :: a in conn ==> a !in conn[a]
  }

  /** A maximal clique extending `clique` whose new members all come from `consider`. */
  ghost predicate Candidate(conn: Connections, clique: set<Name>, consider: set<Name>, s: set<Name>)
  {
    IsClique(conn, s) && Maximal(conn, s) && clique <= s <= clique + consider
  }

  /** Adding an extender `v` keeps a clique. */
  lemma CliqueStep(conn: Connections, clique: set<Name>, v: Name)
    requires Symmetric(conn) && IsClique(conn, clique) && v in Extenders(conn, clique)
    ensures IsClique(conn, clique + {v})
  {
  }

  /** Adding an extender `v` leaves as extenders those linked to `v`. */
  lemma ExtendersStep(conn: Connections, clique: set<Name>, v: Name)
    requires NoSelfLinks(conn) && v in Extenders(conn, clique)
    ensures Extenders(conn, clique + {v}) == Extenders(conn, clique) * conn[v]
  {
  }

  /**
   * A candidate that contains `v` and draws only on `todo` is a candidate for
   * the branch that adds `v`.
   */
  lemma BranchCovers(conn: Connections, clique: set<Name>, todo: set<Name>, v: Name, s: set<Name>)
    requires v in conn && v in s && v !in clique && IsClique(conn, s) && clique <= s && s - clique <= todo
    ensures s <= clique + {v} + todo * conn[v]
  {
    forall w | w in s && w !in clique && w != v ensures w in todo * conn[v] {
    }
  }

  /** Every candidate with a new member outside `todo` is no larger than `r`. */
  ghost predicate Covered(conn: Connections, clique: set<Name>, consider: set<Name>, todo: set<Name>, r: set<Name>)
  {
    forall s :: Candidate(conn, clique, consider, s) && !(s - clique <= todo) ==> |s| <= |r|
  }

  /** The branch that adds `v` starts from a clique, with the extenders split between its two sets. */
  lemma BranchEntry(conn: Connections, clique: set<Name>, consider: set<Name>, exclude: set<Name>,
                    todo: set<Name>, done: set<Name>, v: Name)
    requires Symmetric(conn) && NoSelfLinks(conn)
    requires IsClique(conn, clique) && consider + exclude == Extenders(conn, clique)
    requires todo <= consider && todo + done == consider + exclude && v in todo
    ensures v in conn && v !in clique
    ensures IsClique(conn, clique + {v})
    ensures todo * conn[v] + done * conn[v] == Extenders(conn, clique + {v})
    ensures todo * conn[v] < consider
  {
    CliqueStep(conn, clique, v);
    ExtendersStep(conn, clique, v);
    assert v !in todo * conn[v];
  }

  /** A candidate of the branch that adds `v` is a candidate of the current step. */
  lemma BranchResult(conn: Connections, clique: set<Name>, consider: set<Name>, todo: set<Name>, v: Name, cc: set<Name>)
    requires todo <= consider && v in todo && v in conn
    requires Candidate(conn, clique + {v}, todo * conn[v], cc)
    ensures Candidate(conn, clique, consider, cc)
  {
  }

  /** With nothing left to consider or exclude, `clique` is the only candidate. */
  lemma BaseCase(conn: Connections, clique: set<Name>)
    requires IsClique(conn, clique) && Extenders(conn, clique) == {}
    ensures Candidate(conn, clique, {}, clique)
    ensures forall s :: Candidate(conn, clique, {}, s) ==> |s| <= |clique|
  {
    forall s | Candidate(conn, clique, {}, s) ensures |s| <= |clique| {
      assert s == clique;
    }
  }

  /** When some extender exists, `clique` itself is not maximal, so covering every new member covers all. */
  lemma Finished(conn: Connections, clique: set<Name>, consider: set<Name>, exclude: set<Name>, r: set<Name>)
    requires consider + exclude == Extenders(conn, clique) && (consider != {} || exclude != {})
    requires Covered(conn, clique, consider, {}, r)
    ensures forall s :: Candidate(conn, clique, consider, s) ==> |s| <= |r|
  {
    forall s | Candidate(conn, clique, consider, s) ensures |s| <= |r| {
      assert s != clique;
      assert s == clique + (s - clique);
      assert s - clique != {};
    }
  }

  /**
   * Exploring `v` covers the candidates through `v` that draw only on `todo`:
   * the branch's result bounds them, and the best so far is at least as large.
   */
  lemma CoverStep(conn: Connections, clique: set<Name>, consider: set<Name>, todo: set<Name>, v: Name,
                  cc: set<Name>, before: set<Name>, r: set<Name>)
    requires v in conn && v in todo && v !in clique
    requires Covered(conn, clique, consider, todo, before)
    requires forall s :: Candidate(conn, clique + {v}, todo * conn[v], s) ==> |s| <= |cc|
    requires |before| <= |r| && |cc| <= |r|
    ensures Covered(conn, clique, consider, todo - {v}, r)
  {
    forall s | Candidate(conn, clique, consider, s) && !(s - clique <= todo - {v}) ensures |s| <= |r| {
      if s - clique <= todo {
        BranchCovers(conn, clique, todo, v, s);
        assert Candidate(conn, clique + {v}, todo * conn[v], s);
      }
    }
  }

  /**
   * The Bron–Kerbosch step. `consider` holds the extenders of `clique` not
   * explored yet and `exclude` those already explored. Each vertex of
   * `consider` is tried in turn (in arbitrary order, as the source's hash set
   * gives them), then moved to `exclude`; a branch's result replaces the best
   * one only when strictly larger. The result is empty when every branch
   * dead-ends, and otherwise a maximal clique extending `clique` out of
   * `consider`, at least as large as every such maximal clique.
   */
  method FindMaxClique(conn: Connections, clique: set<Name>, consider: set<Name>, exclude: set<Name>)
    returns (r: set<Name>)
    requires Symmetric(conn) && NoSelfLinks(conn)
    requires IsClique(conn, clique) && consider + exclude == Extenders(conn, clique)
    ensures consider == {} && exclude == {} ==> r == clique
    ensures r == {} || Candidate(conn, clique, consider, r)
    ensures forall s :: Candidate(conn, clique, consider, s) ==> |s| <= |r|
    decreases consider
  {
    if consider == {} && exclude == {} {
      BaseCase(conn, clique);
      return clique;
    }
    r := {};
    var todo := consider;
    var done := exclude;
    while todo != {}
      invariant todo <= consider && todo + done == consider + exclude
      invariant r == {} || Candidate(conn, clique, consider, r)
      invariant Covered(conn, clique, consider, todo, r)
      decreases todo
    {
      var v :| v in todo;
      BranchEntry(conn, clique, consider, exclude, todo, done, v);
      var cc := FindMaxClique(conn, clique + {v}, todo * conn[v], done * conn[v]);
      ghost var before := r;
      if |cc| > |r| {
        BranchResult(conn, clique, consider, todo, v, cc);
        r := cc;
      }
      CoverStep(conn, clique, consider, todo, v, cc, before, r);
      todo := todo - {v};
      done := done + {v};
    }
    Finished(conn, clique, consider, exclude, r);
  }

  /** Every clique grows into a maximal one. */
  lemma {:induction false} ExtendToMaximal(conn: Connections, s: set<Name>) returns (t: set<Name>)
    requires Symmetric(conn) && IsClique(conn, s)
    ensures IsClique(conn, t) && Maximal(conn, t) && s <= t
    decreases |conn.Keys - s|
  {
    if Extenders(conn, s) == {} {
      t := s;
    } else {
      var w :| w in Extenders(conn, s);
      CliqueStep(conn, s, w);
      assert conn.Keys - (s + {w}) < conn.Keys - s;
      t := ExtendToMaximal(conn, s + {w});
    }
  }

  /** A largest clique of the whole network: the search started from every computer. */
  method MaximumClique(conn: Connections) returns (r: set<Name>)
    requires Symmetric(conn) && NoSelfLinks(conn)
    ensures IsClique(conn, r)
    ensures forall s :: IsClique(conn, s) ==> |s| <= |r|
  {
    assert Extenders(conn, {}) == conn.Keys;
    r := FindMaxClique(conn, {}, conn.Keys, {});
    forall s | IsClique(conn, s) ensures |s| <= |r| {
      var t := ExtendToMaximal(conn, s);
      assert Candidate(conn, {}, conn.Keys, t);
      Sets.SubsetCardinality(s, t);
    }
  }
}
