/**
 * Day 5: page-ordering rules "before|after" and updates (lists of pages).
 * An update complies when every page with rules is followed only by pages
 * it must precede; non-complying updates are reordered by a topological
 * sort. Both parts sum the middle page of the updates concerned.
 */
module Day05 {
  import opened Wrappers

  /** `(before, after)`: page `before` must come before page `after`. */
  type Rule = (nat, nat)
  type Update = seq<nat>
  /** Each page with rules, mapped to the pages that must come after it. */
  type RuleGraph = map<nat, set<nat>>

  // ---------------------------------------------------------- rule graph

  /**
   * Builds the rule graph: every rule adds `after` to the set of `before`,
   * and makes sure `after` has an entry of its own.
   */
  method GenRuleGraph(rules: seq<Rule>) returns (graph: RuleGraph)
    ensures forall p :: p in graph <==> exists r :: r in rules && (r.0 == p || r.1 == p)
    ensures forall p, q :: p in graph ==> (q in graph[p] <==> (p, q) in rules)
  {
    graph := map[];
    for i := 0 to |rules|
      invariant forall p :: p in graph <==> exists r :: r in rules[..i] && (r.0 == p || r.1 == p)
      invariant forall p, q :: p in graph ==> (q in graph[p] <==> (p, q) in rules[..i])
    {
      var (before, after) := rules[i];
      assert rules[..i + 1] == rules[..i] + [rules[i]];
      var afters := if before in graph then graph[before] else {};
      graph := graph[before := afters + {after}];
      if after !in graph {
        graph := graph[after := {}];
      }
    }
    assert rules[..|rules|] == rules;
  }

  // ---------------------------------------------------------- compliance

  /**
   * An update complies when each page that has an entry in the graph is
   * followed only by pages in its after-set.
   */
  ghost predicate Complies(update: Update, graph: RuleGraph)
  {
    forall i, j :: 0 <= i < j < |update| && update[i] in graph ==> update[j] in graph[update[i]]
  }

  /** Every page after position `j` lies in `afters`. */
  function AllAfterIn(update: Update, j: nat, afters: set<nat>): (b: bool)
    requires j <= |update|
    ensures b <==> forall k :: j <= k < |update| ==> update[k] in afters
    decreases |update| - j
  {
    j == |update| || (update[j] in afters && AllAfterIn(update, j + 1, afters))
  }

  /** The compliance check from position `i` on; a page without rules is skipped. */
  function CompliesFrom(update: Update, graph: RuleGraph, i: nat): (b: bool)
    requires i <= |update|
    ensures b <==> forall k, j :: i <= k < j < |update| && update[k] in graph ==> update[j] in graph[update[k]]
    decreases |update| - i
  {
    if i == |update| then true
    else if update[i] !in graph then CompliesFrom(update, graph, i + 1)
    else AllAfterIn(update, i + 1, graph[update[i]]) && CompliesFrom(update, graph, i + 1)
  }

  /** The compliance test the source runs on each update. */
  function IsCompliant(update: Update, graph: RuleGraph): (b: bool)
    ensures b <==> Complies(update, graph)
  {
    CompliesFrom(update, graph, 0)
  }

  /**
   * With a graph built from `rules`, a complying update breaks a rule
   * `(b, a)` by listing `a` before `b` only when the opposite rule
   * `(a, b)` is also present, that is, only for a two-page cycle.
   */
  lemma CompliantRespectsRules(update: Update, rules: seq<Rule>, graph: RuleGraph)
    requires forall p :: p in graph <==> exists r :: r in rules && (r.0 == p || r.1 == p)
    requires forall p, q :: p in graph ==> (q in graph[p] <==> (p, q) in rules)
    requires Complies(update, graph)
    ensures forall i, j :: 0 <= i < j < |update| && (update[j], update[i]) in rules ==> (update[i], update[j]) in rules
  {
    forall i, j | 0 <= i < j < |update| && (update[j], update[i]) in rules
      ensures (update[i], update[j]) in rules
    {
      assert update[i] in graph;
    }
  }

  // ------------------------------------------------------------- fixing

  /** The distinct pages of an update. */
  function Pages(update: Update): (r: set<nat>)
    ensures forall x :: x in r <==> x in update
  {
    set x | x in update
  }

  /** Pending pages none of whose required-after pages is still pending. */
  function Ready(pending: set<nat>, graph: RuleGraph): (r: set<nat>)
    ensures forall x :: x in r <==> x in pending && (x !in graph || graph[x] * pending == {})
  {
    set x | x in pending && (x !in graph || graph[x] * pending == {})
  }

  /**
   * The rules restricted to `s` have no cycle: every non-empty subset of
   * `s` has a page none of whose required-after pages lie in the subset.
   */
  ghost predicate Acyclic(graph: RuleGraph, s: set<nat>)
  {
    forall t :: t <= s && t != {} ==> Ready(t, graph) != {}
  }

  function Reverse(s: seq<nat>): (r: seq<nat>)
    ensures |r| == |s| && forall i :: 0 <= i < |s| ==> r[i] == s[|s| - 1 - i]
  {
    if s == [] then [] else Reverse(s[1..]) + [s[0]]
  }

  /**
   * The loop of the topological sort: repeatedly take a pending page with
   * no pending required-after page. Which one is taken depends on hash
   * order, so it is chosen freely here. A page is taken only after every
   * page of the update it must precede.
   */
  method TakeReady(update: Update, graph: RuleGraph) returns (taken: seq<nat>)
    ensures forall i, j :: 0 <= i < j < |taken| ==> taken[i] != taken[j]
    ensures forall x :: x in taken ==> x in update
    ensures AftersTakenFirst(taken, graph, Pages(update))
    ensures Acyclic(graph, Pages(update)) ==> forall x :: x in update ==> x in taken
    ensures taken == [] <==> Ready(Pages(update), graph) == {}
  {
    var pending := Pages(update);
    ghost var all := pending;
    taken := [];
    var ready := Ready(pending, graph);
    while |ready| > 0
      invariant pending <= all && ready == Ready(pending, graph)
      invariant forall x :: x in taken <==> x in all && x !in pending
      invariant forall i, j :: 0 <= i < j < |taken| ==> taken[i] != taken[j]
      invariant AftersTakenFirst(taken, graph, all)
      invariant taken == [] ==> pending == all
      invariant taken != [] ==> taken[0] in Ready(all, graph)
      decreases |pending|
    {
      var curr :| curr in ready;
      TakeStep(taken, curr, pending, all, graph);
      pending := pending - {curr};
      taken := taken + [curr];
      ready := Ready(pending, graph);
    }
    if Acyclic(graph, all) {
      assert pending != {} ==> Ready(pending, graph) != {};
    }
  }

  /** Every taken page that has rules was taken after each page of `all` it must precede. */
  ghost predicate AftersTakenFirst(taken: seq<nat>, graph: RuleGraph, all: set<nat>)
  {
    forall i, y :: 0 <= i < |taken| && taken[i] in graph && y in graph[taken[i]] && y in all ==> y in taken[..i]
  }

  lemma TakeStep(taken: seq<nat>, curr: nat, pending: set<nat>, all: set<nat>, graph: RuleGraph)
    requires forall x :: x in taken <==> x in all && x !in pending
    requires AftersTakenFirst(taken, graph, all)
    requires curr in Ready(pending, graph)
    ensures AftersTakenFirst(taken + [curr], graph, all)
  {
    var t := taken + [curr];
    forall i, y | 0 <= i < |t| && t[i] in graph && y in graph[t[i]] && y in all
      ensures y in t[..i]
    {
      if i < |taken| {
        assert t[..i] == taken[..i];
      } else {
        assert t[..i] == taken && t[i] == curr;
        assert y !in graph[curr] * pending;
      }
    }
  }

  /**
   * Topological sort of an update's pages: the taken order reversed. Each
   * page comes out once, and before every page it must precede; when the
   * rules on the update's pages have no cycle, every page comes out.
   */
  method FixNonCompliant(update: Update, graph: RuleGraph) returns (ord: seq<nat>)
    ensures forall i, j :: 0 <= i < j < |ord| ==> ord[i] != ord[j]
    ensures forall x :: x in ord ==> x in update
    ensures forall i, j :: 0 <= i < |ord| && 0 <= j < |ord| && ord[i] in graph && ord[j] in graph[ord[i]] ==> i < j
    ensures Acyclic(graph, Pages(update)) ==> forall x :: x in update ==> x in ord
    ensures ord == [] <==> Ready(Pages(update), graph) == {}
  {
    var taken := TakeReady(update, graph);
    ord := Reverse(taken);
    forall i, j | 0 <= i < |ord| && 0 <= j < |ord| && ord[i] in graph && ord[j] in graph[ord[i]]
      ensures i < j
    {
      var a := |taken| - 1 - i;
      var b := |taken| - 1 - j;
      assert ord[j] == taken[b] && taken[b] in taken && ord[i] == taken[a];
      assert taken[b] in Pages(update);
      assert AftersTakenFirst(taken, graph, Pages(update));
      assert taken[b] in taken[..a];
      var k :| 0 <= k < a && taken[..a][k] == taken[b];
      assert k == b;
    }
    forall x | x in taken ensures x in ord {
      var i :| 0 <= i < |taken| && taken[i] == x;
      assert ord[|taken| - 1 - i] == x;
    }
  }

  // -------------------------------------------------------------- parts

  /** The middle page of an update; an empty update has none and panics the source. */
  function Middle(c: Update): (r: nat)
    requires |c| >= 1
    ensures r in c
  {
    c[|c| / 2]
  }

  /** Part 1: the sum of the middle pages of the complying updates. */
  function Part1(updates: seq<Update>, graph: RuleGraph): (r: nat)
    requires forall u :: u in updates && Complies(u, graph) ==> |u| >= 1
  {
    if updates == [] then 0
    else (if IsCompliant(updates[0], graph) then Middle(updates[0]) else 0) + Part1(updates[1..], graph)
  }

  /** Part 1 adds each complying update's middle page exactly once. */
  lemma {:induction false} Part1Append(a: seq<Update>, b: seq<Update>, graph: RuleGraph)
    requires forall u :: u in a + b && Complies(u, graph) ==> |u| >= 1
    ensures Part1(a + b, graph) == Part1(a, graph) + Part1(b, graph)
  {
    if a == [] {
      assert a + b == b;
    } else {
      assert (a + b)[0] == a[0] && (a + b)[1..] == a[1..] + b;
      Part1Append(a[1..], b, graph);
    }
  }

  /**
   * The reordering of an update is empty exactly when no page of the update
   * is ready at the start: every page has a required-after page in the
   * update. Taking the middle of an empty reordering panics the source.
   */
  ghost predicate FixPanics(update: Update, graph: RuleGraph)
  {
    Ready(Pages(update), graph) == {}
  }

  /**
   * Part 2: the sum of the middle pages of the non-complying updates once
   * reordered. On rules with a cycle the topological sort stops early and
   * the middle of the partial order is taken; the source panics only when
   * that order is empty, which is `None` here.
   */
  method Part2(updates: seq<Update>, graph: RuleGraph) returns (total: Option<nat>)
    ensures total.None? <==> exists u :: u in updates && !Complies(u, graph) && FixPanics(u, graph)
    ensures (forall u :: u in updates ==> Complies(u, graph)) ==> total == Some(0)
  {
    var sum: nat := 0;
    for i := 0 to |updates|
      invariant forall k :: 0 <= k < i ==> Complies(updates[k], graph) || !FixPanics(updates[k], graph)
      invariant (forall k :: 0 <= k < i ==> Complies(updates[k], graph)) ==> sum == 0
    {
      var m := Contribution(updates[i], graph);
      if m.None? {
        assert updates[i] in updates;
        return None;
      }
      sum := sum + m.value;
    }
    forall u | u in updates && !Complies(u, graph) ensures !FixPanics(u, graph) {
      var k :| 0 <= k < |updates| && updates[k] == u;
    }
    return Some(sum);
  }

  /**
   * What one update adds to part 2: nothing when it complies, otherwise
   * the middle page of its reordering; `None` where the source panics.
   */
  method Contribution(update: Update, graph: RuleGraph) returns (m: Option<nat>)
    ensures m.None? <==> !Complies(update, graph) && FixPanics(update, graph)
    ensures Complies(update, graph) ==> m == Some(0)
    ensures m.Some? && !Complies(update, graph) ==> m.value in update && MiddleOfOrder(m.value, update, graph)
  {
    if IsCompliant(update, graph) {
      return Some(0);
    }
    m := FixedMiddle(update, graph);
  }

  /**
   * `f` is a reordering of `update` as the topological sort leaves it:
   * distinct pages of the update, each before its after-pages, all of
   * them when the rules on the update are acyclic, and empty exactly
   * when no page is ready at the start.
   */
  ghost predicate TopoOrder(f: seq<nat>, update: Update, graph: RuleGraph)
  {
    (forall i, j :: 0 <= i < j < |f| ==> f[i] != f[j])
    && (forall x :: x in f ==> x in update)
    && (forall i, j :: 0 <= i < |f| && 0 <= j < |f| && f[i] in graph && f[j] in graph[f[i]] ==> i < j)
    && (Acyclic(graph, Pages(update)) ==> forall x :: x in update ==> x in f)
    && (f == [] <==> Ready(Pages(update), graph) == {})
  }

  /** `v` is the middle page of some non-empty reordering of `update`. */
  ghost predicate MiddleOfOrder(v: nat, update: Update, graph: RuleGraph)
  {
    exists f :: TopoOrder(f, update, graph) && f != [] && v == Middle(f)
  }

  /** The middle page of an update's reordering; `None` where the source panics on an empty one. */
  method FixedMiddle(update: Update, graph: RuleGraph) returns (m: Option<nat>)
    ensures m.None? <==> FixPanics(update, graph)
    ensures m.Some? ==> m.value in update && MiddleOfOrder(m.value, update, graph)
  {
    var fixed := FixNonCompliant(update, graph);
    if fixed == [] {
      return None;
    }
    assert TopoOrder(fixed, update, graph);
    assert Middle(fixed) in fixed;
    return Some(Middle(fixed));
  }

  /** An acyclic non-empty update always has a ready page, so it never panics part 2. */
  lemma AcyclicNoPanic(update: Update, graph: RuleGraph)
    requires |update| >= 1 && Acyclic(graph, Pages(update))
    ensures !FixPanics(update, graph)
  {
    assert update[0] in Pages(update);
  }

  /**
   * Rules with a cycle do not stop part 2: with pages 1 and 2 each required
   * before the other, the update [1, 2, 3] still has page 3 ready and gets a
   * partial order, while [1, 2] has no ready page and panics.
   */
  lemma CyclicRules()
    ensures !Acyclic(map[1 := {2}, 2 := {1}], Pages([1, 2, 3]))
    ensures !FixPanics([1, 2, 3], map[1 := {2}, 2 := {1}])
    ensures FixPanics([1, 2], map[1 := {2}, 2 := {1}])
  {
    var graph := map[1 := {2}, 2 := {1}];
    assert 3 in Ready(Pages([1, 2, 3]), graph);
    var t := {1, 2};
    assert t <= Pages([1, 2, 3]);
    assert 2 in graph[1] * t && 1 in graph[2] * t;
    assert Ready(t, graph) == {};
    assert Pages([1, 2]) == t;
  }
}
