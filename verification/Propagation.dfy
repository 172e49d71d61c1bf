/** The dependency closure and the change propagation of the version registry
    (scripts/version_domains.py, `transitive_dependencies` and `verify_registry`). */
module Propagation {
  import opened Graphs

  // ----- the dependency closure

  function Direct<V>(g: Graph<V>, v: V): set<V> { if v in g then g[v] else {} }

  method Listed<V(==)>(s: set<V>) returns (r: seq<V>)
    ensures forall v :: v in r <==> v in s
  {
    r := [];
    var left := s;
    while left != {}
      invariant left <= s && forall v :: v in s <==> v in r || v in left
      decreases |left|
    {
      var v :| v in left;
      r := r + [v];
      left := left - {v};
    }
  }

  /** Everything any node depends on directly. */
  ghost function Targets<V>(g: Graph<V>): set<V> {
    set v, w | v in g && w in g[v] :: w
  }

  /** What is reached and what is pending, so far. */
  ghost predicate Exploring<V(!new)>(g: Graph<V>, start: V, reached: set<V>, pending: seq<V>) {
    && (forall v :: v in reached ==> Reaches(g, start, v))
    && (forall v :: v in pending ==> Reaches(g, start, v))
    && (forall v :: v in Direct(g, start) ==> v in reached || v in pending)
    && (forall u, v :: u in reached && v in Direct(g, u) ==> v in reached || v in pending)
  }

  lemma {:induction false} WalkStaysReached<V(!new)>(g: Graph<V>, start: V, reached: set<V>, p: seq<V>)
    requires Exploring(g, start, reached, []) && |p| >= 2 && Walk(g, p) && (p[0] == start || p[0] in reached)
    ensures p[|p| - 1] in reached
    decreases |p|
  {
    assert p[1] in g[p[0]] && p[1] in Direct(g, p[0]);
    if |p| > 2 { WalkStaysReached(g, start, reached, p[1..]); }
  }

  lemma ReachedIsTarget<V(!new)>(g: Graph<V>, start: V, v: V)
    requires Reaches(g, start, v)
    ensures v in Targets(g)
  {
    var p :| WalkBetween(g, p, start, v);
    assert p[|p| - 2] in g && p[|p| - 1] in g[p[|p| - 2]];
  }

  lemma ExploringStarts<V(!new)>(g: Graph<V>, start: V, pending: seq<V>)
    requires forall v :: v in pending <==> v in Direct(g, start)
    ensures Exploring(g, start, {}, pending)
  {
    forall v | v in pending ensures Reaches(g, start, v) { EdgeReaches(g, start, v); }
  }

  lemma ExploringSkips<V(!new)>(g: Graph<V>, start: V, reached: set<V>, pending: seq<V>, d: V)
    requires Exploring(g, start, reached, pending + [d]) && d in reached
    ensures Exploring(g, start, reached, pending)
  {
    hide Reaches;
    assert forall v :: v in pending ==> v in pending + [d];
  }

  /** Taking one pending node: its own targets join. */
  lemma ExploringSteps<V(!new)>(g: Graph<V>, start: V, reached: set<V>, pending: seq<V>, d: V, more: seq<V>)
    requires Exploring(g, start, reached, pending + [d]) && forall v :: v in more <==> v in Direct(g, d)
    ensures Exploring(g, start, reached + {d}, pending + more)
    ensures d in Targets(g)
  {
    assert d in pending + [d];
    ReachedIsTarget(g, start, d);
    forall v | v in more ensures Reaches(g, start, v) {
      EdgeReaches(g, d, v);
      ReachesTransitive(g, start, d, v);
    }
    hide Reaches;
    hide Targets;
  }

  lemma ExploringEnds<V(!new)>(g: Graph<V>, start: V, reached: set<V>)
    requires Exploring(g, start, reached, [])
    ensures forall v :: v in reached <==> Reaches(g, start, v)
  {
    forall v | Reaches(g, start, v) ensures v in reached {
      var p :| WalkBetween(g, p, start, v);
      WalkStaysReached(g, start, reached, p);
    }
  }

  /** Exactly the nodes reachable in one or more steps; the start itself only if it lies
      on a cycle. */
  method TransitiveDependencies<V(==,!new)>(direct: Graph<V>, package: V) returns (reached: set<V>)
    ensures forall v :: v in reached <==> Reaches(direct, package, v)
  {
    hide Exploring;
    hide Targets;
    hide Reaches;
    var pending := Listed(Direct(direct, package));
    reached := {};
    ExploringStarts(direct, package, pending);
    while pending != []
      invariant Exploring(direct, package, reached, pending)
      decreases |Targets(direct) - reached|, |pending|
    {
      var dependency := pending[|pending| - 1];
      var rest := pending[..|pending| - 1];
      assert pending == rest + [dependency];
      if dependency in reached {
        ExploringSkips(direct, package, reached, rest, dependency);
        pending := rest;
      } else {
        var more := Listed(Direct(direct, dependency));
        ExploringSteps(direct, package, reached, rest, dependency, more);
        assert Targets(direct) - (reached + {dependency}) == (Targets(direct) - reached) - {dependency};
        reached := reached + {dependency};
        pending := rest + more;
      }
    }
    ExploringEnds(direct, package, reached);
  }

  // ----- change propagation

  /** `v` has changed itself or depends, however indirectly, on something that has. */
  ghost predicate Affected<V(!new)>(g: Graph<V>, changed: map<V, bool>, v: V) {
    exists u :: u in changed && changed[u] && (u == v || Reaches(g, v, u))
  }

  ghost predicate Marks<V(!new)>(g: Graph<V>, start: map<V, bool>, now: map<V, bool>) {
    && now.Keys == start.Keys
    && (forall v :: v in start && start[v] ==> now[v])
    && (forall v :: v in now && now[v] ==> Affected(g, start, v))
  }

  lemma MarkSpreads<V(!new)>(g: Graph<V>, start: map<V, bool>, now: map<V, bool>, v: V, d: V)
    requires Marks(g, start, now) && v in now && v in g && d in g[v] && d in now && now[d]
    ensures Affected(g, start, v)
  {
    var u :| u in start && start[u] && (u == d || Reaches(g, d, u));
    EdgeReaches(g, v, d);
    if u != d { ReachesTransitive(g, v, d, u); }
  }

  lemma {:induction false} NothingLeftToMark<V(!new)>(g: Graph<V>, now: map<V, bool>, p: seq<V>)
    requires forall v, d :: v in g && d in g[v] && d in now && now[d] ==> v in now && now[v]
    requires |p| >= 1 && Walk(g, p) && p[|p| - 1] in now && now[p[|p| - 1]]
    ensures p[0] in now && now[p[0]]
    decreases |p|
  {
    if |p| > 1 {
      NothingLeftToMark(g, now, p[1..]);
      assert p[1] in g[p[0]];
    }
  }

  ghost function Unmarked<V>(m: map<V, bool>): set<V> { set v | v in m && !m[v] }

  /** One pass over the domains: marks those that depend on a marked one. */
  method Pass<V(==,!new)>(domains: seq<V>, dependsOn: Graph<V>, changed: map<V, bool>, ghost start: map<V, bool>)
    returns (next: map<V, bool>, propagated: bool)
    requires forall v :: v in domains <==> v in dependsOn
    requires dependsOn.Keys == changed.Keys && Closed(dependsOn) && Marks(dependsOn, start, changed)
    ensures Marks(dependsOn, start, next) && next.Keys == changed.Keys
    ensures propagated ==> Unmarked(next) < Unmarked(changed)
    ensures !propagated ==> next == changed && forall v, d :: v in dependsOn && d in dependsOn[v] && changed[d] ==> changed[v]
  {
    next, propagated := changed, false;
    for i := 0 to |domains|
      invariant Marks(dependsOn, start, next) && next.Keys == changed.Keys
      invariant Unmarked(next) <= Unmarked(changed)
      invariant propagated ==> Unmarked(next) < Unmarked(changed)
      invariant !propagated ==> next == changed
      invariant !propagated ==> forall k, d :: 0 <= k < i && d in dependsOn[domains[k]] && changed[d] ==> changed[domains[k]]
    {
      var version := domains[i];
      if !next[version] && exists d :: d in dependsOn[version] && next[d] {
        ghost var d :| d in dependsOn[version] && next[d];
        MarkSpreads(dependsOn, start, next, version, d);
        ghost var before := Unmarked(next);
        next := next[version := true];
        assert Unmarked(next) == before - {version} && version in before;
        propagated := true;
      }
    }
    if !propagated {
      forall v, d | v in dependsOn && d in dependsOn[v] && changed[d] ensures changed[v] {
        var k :| 0 <= k < |domains| && domains[k] == v;
      }
    }
  }

  /** Passes until nothing changes: on any graph, cyclic or not, and in any order of the
      domains, the marked versions are exactly the affected ones. */
  method Propagate<V(==,!new)>(domains: seq<V>, dependsOn: Graph<V>, start: map<V, bool>) returns (changed: map<V, bool>)
    requires forall v :: v in domains <==> v in dependsOn
    requires dependsOn.Keys == start.Keys && Closed(dependsOn)
    ensures changed.Keys == start.Keys
    ensures forall v :: v in changed ==> (changed[v] <==> Affected(dependsOn, start, v))
  {
    changed := start;
    var propagated := true;
    while propagated
      invariant Marks(dependsOn, start, changed)
      invariant !propagated ==> forall v, d :: v in dependsOn && d in dependsOn[v] && changed[d] ==> changed[v]
      decreases Unmarked(changed), propagated
    {
      changed, propagated := Pass(domains, dependsOn, changed, start);
    }
    forall v | v in changed && Affected(dependsOn, start, v) ensures changed[v] {
      var u :| u in start && start[u] && (u == v || Reaches(dependsOn, v, u));
      if u != v {
        var p :| WalkBetween(dependsOn, p, v, u);
        NothingLeftToMark(dependsOn, changed, p);
      }
    }
  }
}
