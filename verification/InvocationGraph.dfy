/** The explicit-stack search that rejects recursive definition invocation
    (crates/cymule-core/src/ir.rs, validate_acyclic_graph). */
module InvocationGraph {
  import opened Graphs

  datatype Id = Id(text: string)

  datatype Visit = Enter(node: Id) | Exit(node: Id)

  datatype Verdict = Acyclic | Recursive(at: Id)

  /** The graph behind an ordered listing of every definition's targets. */
  function Edges(targets: map<Id, seq<Id>>): Graph<Id> {
    map d | d in targets :: set t | t in targets[d]
  }

  /** The entries one visit pushes: targets in reverse, those complete skipped. */
  function Entries(targets: seq<Id>, complete: set<Id>): seq<Visit> {
    if targets == [] then []
    else Entries(targets[1..], complete) + (if targets[0] in complete then [] else [Enter(targets[0])])
  }

  lemma {:induction false} EntriesMembers(targets: seq<Id>, complete: set<Id>)
    ensures forall e :: e in Entries(targets, complete) <==> e.Enter? && e.node in targets && e.node !in complete
  {
    if targets != [] {
      EntriesMembers(targets[1..], complete);
      assert targets == [targets[0]] + targets[1..];
    }
  }

  /** Open definitions form one path: each exit reaches everything above it. */
  ghost predicate OnePath(g: Graph<Id>, stack: seq<Visit>) {
    forall i, j :: 0 <= i < j < |stack| && stack[i].Exit? ==>
      stack[i] != stack[j] && Reaches(g, stack[i].node, stack[j].node)
  }

  /** Whatever an open definition still owes lies above its exit. */
  ghost predicate NothingLost(g: Graph<Id>, stack: seq<Visit>, finished: seq<Id>) {
    forall i, t :: 0 <= i < |stack| && stack[i].Exit? && stack[i].node in g && t in g[stack[i].node] ==>
      Owed(stack, finished, i, t)
  }

  /** `finished` lists the completed definitions in completion order. */
  ghost predicate SearchInvariant(g: Graph<Id>, stack: seq<Visit>, visiting: set<Id>, finished: seq<Id>) {
    && SuccessorsFirst(g, finished)
    && (forall v :: v in visiting <==> Exit(v) in stack)
    && (forall v :: v in visiting ==> v !in finished)
    && (forall i :: 0 <= i < |stack| ==> stack[i].node in g)
    && OnePath(g, stack)
    && NothingLost(g, stack, finished)
  }

  ghost predicate Owed(stack: seq<Visit>, finished: seq<Id>, i: nat, t: Id) {
    t in finished || exists j :: i < j < |stack| && stack[j].node == t
  }

  lemma SearchStarts(g: Graph<Id>, root: Id, finished: seq<Id>)
    requires root in g && SuccessorsFirst(g, finished)
    ensures SearchInvariant(g, [Enter(root)], {}, finished)
  {
  }

  lemma TopFacts(g: Graph<Id>, base: seq<Visit>, visit: Visit, visiting: set<Id>, finished: seq<Id>)
    requires SearchInvariant(g, base + [visit], visiting, finished)
    ensures visit.node in g && SuccessorsFirst(g, finished)
    ensures visit.Exit? ==> visit.node in visiting && visit.node !in finished
  {
    assert (base + [visit])[|base|] == visit;
  }

  /** An entry already complete when popped is dropped. */
  lemma StaleEnter(g: Graph<Id>, stack: seq<Visit>, visiting: set<Id>, finished: seq<Id>)
    requires SearchInvariant(g, stack, visiting, finished)
    requires stack != [] && stack[|stack| - 1].Enter? && stack[|stack| - 1].node in finished
    ensures SearchInvariant(g, stack[..|stack| - 1], visiting, finished)
  {
    var rest := stack[..|stack| - 1];
    assert stack == rest + [stack[|stack| - 1]];
    forall i, t | 0 <= i < |rest| && rest[i].Exit? && t in g[rest[i].node] ensures Owed(rest, finished, i, t) {
      assert Owed(stack, finished, i, t);
    }
  }

  /** An entry for an open definition closes a cycle. */
  lemma OpenEnter(g: Graph<Id>, stack: seq<Visit>, visiting: set<Id>, finished: seq<Id>)
    requires SearchInvariant(g, stack, visiting, finished)
    requires stack != [] && stack[|stack| - 1].Enter? && stack[|stack| - 1].node in visiting
    ensures Reaches(g, stack[|stack| - 1].node, stack[|stack| - 1].node)
  {
    var i :| 0 <= i < |stack| && stack[i] == Exit(stack[|stack| - 1].node);
  }

  lemma OpenedPath(g: Graph<Id>, base: seq<Visit>, d: Id, pushed: seq<Visit>)
    requires d in g && OnePath(g, base + [Enter(d)]) && Exit(d) !in base
    requires forall k :: 0 <= k < |pushed| ==> pushed[k].Enter? && pushed[k].node in g[d]
    ensures OnePath(g, base + [Exit(d)] + pushed)
  {
    var stack, next := base + [Enter(d)], base + [Exit(d)] + pushed;
    forall i, j | 0 <= i < j < |next| && next[i].Exit?
      ensures next[i] != next[j] && Reaches(g, next[i].node, next[j].node)
    {
      if i < |base| {
        assert next[i] == stack[i] && next[i] in base;
        assert Reaches(g, next[i].node, stack[if j < |base| then j else |base|].node);
      }
      if j > |base| {
        EdgeReaches(g, d, next[j].node);
        if i < |base| { ReachesTransitive(g, next[i].node, d, next[j].node); }
      }
    }
  }

  lemma OpenedOwes(g: Graph<Id>, base: seq<Visit>, d: Id, pushed: seq<Visit>, finished: seq<Id>)
    requires NothingLost(g, base + [Enter(d)], finished) && d in g
    requires forall k :: 0 <= k < |pushed| ==> pushed[k].Enter?
    requires forall t :: t in g[d] ==> t in finished || Enter(t) in pushed
    ensures NothingLost(g, base + [Exit(d)] + pushed, finished)
  {
    var stack, next := base + [Enter(d)], base + [Exit(d)] + pushed;
    forall i, t | 0 <= i < |next| && next[i].Exit? && next[i].node in g && t in g[next[i].node]
      ensures Owed(next, finished, i, t)
    {
      if t !in finished {
        if i == |base| {
          var k :| 0 <= k < |pushed| && pushed[k] == Enter(t);
          assert next[|base| + 1 + k].node == t;
        } else {
          assert stack[i] == next[i] && Owed(stack, finished, i, t);
          var j :| i < j < |stack| && stack[j].node == t;
          assert next[j].node == t;
        }
      }
    }
  }

  /** A fresh entry opens its definition and pushes every target not yet complete. */
  lemma FreshEnter(g: Graph<Id>, base: seq<Visit>, d: Id, visiting: set<Id>, finished: seq<Id>, targets: seq<Id>, complete: set<Id>)
    requires SearchInvariant(g, base + [Enter(d)], visiting, finished) && Closed(g)
    requires d !in finished && d !in visiting
    requires forall v :: v in complete <==> v in finished
    requires d in g && g[d] == set t | t in targets
    ensures SearchInvariant(g, base + [Exit(d)] + Entries(targets, complete), visiting + {d}, finished)
  {
    var stack := base + [Enter(d)];
    var pushed := Entries(targets, complete);
    var next := base + [Exit(d)] + pushed;
    EntriesMembers(targets, complete);
    forall v ensures v in visiting <==> Exit(v) in base {
      assert Exit(v) in stack <==> Exit(v) in base;
    }
    OpenedPath(g, base, d, pushed);
    OpenedOwes(g, base, d, pushed, finished);
    forall i | 0 <= i < |next| ensures next[i].node in g {
      if i < |base| { assert next[i] == stack[i]; }
      if i > |base| { assert next[i] in pushed; }
    }
    forall v ensures v in visiting + {d} <==> Exit(v) in next {
      assert Exit(v) in next <==> Exit(v) in base || v == d || Exit(v) in pushed;
    }
  }

  /** A popped exit has nothing left above it, so its definition is complete. */
  lemma ExitCompletes(g: Graph<Id>, stack: seq<Visit>, visiting: set<Id>, finished: seq<Id>)
    requires SearchInvariant(g, stack, visiting, finished)
    requires stack != [] && stack[|stack| - 1].Exit?
    ensures var d := stack[|stack| - 1].node;
            SearchInvariant(g, stack[..|stack| - 1], visiting - {d}, finished + [d]) && SuccessorsFirst(g, finished + [d])
  {
    var top := |stack| - 1;
    var d := stack[top].node;
    var rest := stack[..top];
    assert stack == rest + [Exit(d)];
    forall t | t in g[d] ensures t in finished {
      assert Owed(stack, finished, top, t);
    }
    SuccessorsFirstExtends(g, finished, d);
    forall i, t | 0 <= i < |rest| && rest[i].Exit? && t in g[rest[i].node] ensures Owed(rest, finished + [d], i, t) {
      assert Owed(stack, finished, i, t);
      if t !in finished && t != d {
        var j :| i < j < |stack| && stack[j].node == t;
        assert rest[j].node == t;
      }
    }
  }

  lemma FinishedIsAcyclic(g: Graph<Id>, finished: seq<Id>)
    requires SuccessorsFirst(g, finished) && forall v :: v in g ==> v in finished
    ensures !Cyclic(g)
  {
    if Cyclic(g) {
      var c :| Reaches(g, c, c);
      var b := ReachesFirstStep(g, c, c);
      var k :| 0 <= k < |finished| && finished[k] == c;
      OrderedReachesNoCycle(g, finished, k, c);
    }
  }

  /** Opens one definition: its exit, then every incomplete target in reverse. */
  method PushTargets(rest: seq<Visit>, definition: Id, targets: seq<Id>, complete: set<Id>) returns (stack: seq<Visit>)
    ensures stack == rest + [Exit(definition)] + Entries(targets, complete)
  {
    stack := rest + [Exit(definition)];
    for t := |targets| downto 0
      invariant stack == rest + [Exit(definition)] + Entries(targets[t..], complete)
    {
      if targets[t] !in complete {
        stack := stack + [Enter(targets[t])];
      }
    }
    assert targets[0..] == targets;
  }

  /** Runs the stack until it is empty or a cycle shows. */
  method VisitFrom(root: Id, targets: map<Id, seq<Id>>, completed: set<Id>, ghost before: seq<Id>)
    returns (r: Verdict, complete: set<Id>, ghost finished: seq<Id>)
    requires root in targets && Closed(Edges(targets))
    requires SuccessorsFirst(Edges(targets), before) && forall v :: v in completed <==> v in before
    ensures r.Acyclic? ==> SuccessorsFirst(Edges(targets), finished) && forall v :: v in complete <==> v in finished
    ensures r.Acyclic? ==> completed + {root} <= complete
    ensures r.Recursive? ==> Reaches(Edges(targets), r.at, r.at)
  {
    hide SearchInvariant;
    ghost var g := Edges(targets);
    var visiting: set<Id> := {};
    var stack := [Enter(root)];
    complete, finished := completed, before;
    SearchStarts(g, root, finished);
    while stack != []
      invariant SearchInvariant(g, stack, visiting, finished) && SuccessorsFirst(g, finished)
      invariant completed <= complete && forall v :: v in complete <==> v in finished
      invariant if stack == [] then root in complete else stack[0].node == root
      decreases g.Keys - visiting - complete, |stack|
    {
      var visit, rest := stack[|stack| - 1], stack[..|stack| - 1];
      assert stack == rest + [visit];
      TopFacts(g, rest, visit, visiting, finished);
      ghost var unopened := g.Keys - visiting - complete;
      match visit
      case Enter(definition) =>
        if definition in complete {
          StaleEnter(g, stack, visiting, finished);
          stack := rest;
        } else if definition in visiting {
          OpenEnter(g, stack, visiting, finished);
          return Recursive(definition), complete, finished;
        } else {
          FreshEnter(g, rest, definition, visiting, finished, targets[definition], complete);
          visiting := visiting + {definition};
          stack := PushTargets(rest, definition, targets[definition], complete);
          assert definition in unopened && g.Keys - visiting - complete == unopened - {definition};
        }
      case Exit(definition) =>
        ExitCompletes(g, stack, visiting, finished);
        assert g.Keys - (visiting - {definition}) - (complete + {definition}) == unopened;
        visiting := visiting - {definition};
        complete := complete + {definition};
        finished := finished + [definition];
        stack := rest;
    }
    r := Acyclic;
  }

  /** The search accepts exactly the acyclic graphs, self-invocation counted as a
      cycle, and names a definition that reaches itself otherwise. `keys` and
      `targets` carry the iteration order, on which the verdict does not depend. */
  method ValidateAcyclicGraph(keys: seq<Id>, targets: map<Id, seq<Id>>) returns (r: Verdict)
    requires Lists(keys, targets.Keys) && Closed(Edges(targets))
    ensures r.Acyclic? <==> !Cyclic(Edges(targets))
    ensures r.Recursive? ==> Reaches(Edges(targets), r.at, r.at)
  {
    ghost var finished: seq<Id> := [];
    var complete: set<Id> := {};
    for k := 0 to |keys|
      invariant SuccessorsFirst(Edges(targets), finished) && forall v :: v in complete <==> v in finished
      invariant forall v :: v in keys[..k] ==> v in complete
    {
      if keys[k] !in complete {
        assert keys[k] in keys;
        r, complete, finished := VisitFrom(keys[k], targets, complete, finished);
        if r.Recursive? { return; }
      }
    }
    assert keys[..|keys|] == keys;
    FinishedIsAcyclic(Edges(targets), finished);
    r := Acyclic;
  }
}
