/** Facts about finite sets that several searches over grids rely on. */
module Sets {
  /** A subset is no larger than its superset. */
  lemma {:induction false} SubsetCardinality<T>(a: set<T>, b: set<T>)
    requires a <= b
    ensures |a| <= |b|
  {
    if a != {} {
      var x :| x in a;
      SubsetCardinality(a - {x}, b - {x});
    }
  }

  /** A proper subset is strictly smaller. */
  lemma ProperSubsetCardinality<T>(a: set<T>, b: set<T>)
    requires a < b
    ensures |a| < |b|
  {
    var x :| x in b && x !in a;
    SubsetCardinality(a, b - {x});
  }

  /** Taking `c` out of the pending set `todo` adds `c` to the part of `a` already handled exactly when `c` is in `a`. */
  lemma HandledStep<T>(a: set<T>, todo: set<T>, c: T)
    requires c in todo
    ensures |a - (todo - {c})| == |a - todo| + (if c in a then 1 else 0)
  {
    if c in a {
      assert a - (todo - {c}) == (a - todo) + {c};
    } else {
      assert a - (todo - {c}) == a - todo;
    }
  }

  /** Visiting a new member of `all` leaves fewer members of `all` unvisited. */
  lemma VisitShrinks<T>(all: set<T>, vis: set<T>, c: T)
    requires c in all && c !in vis
    ensures |all - (vis + {c})| < |all - vis|
  {
    assert c in all - vis;
    ProperSubsetCardinality(all - (vis + {c}), all - vis);
  }
}
