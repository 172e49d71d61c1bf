/** Every run of an accepted Plan is finite, and exactly which Plans can be stopped
    by an effect that settles without a value. */
module PlanOutcome {
  import opened Wrappers
  import opened Graphs
  import opened InvocationGraph
  import opened Plan
  import opened PlanRun

  // ----- the static cost of a run

  ghost function Index(order: seq<Id>, id: Id): nat
    requires id in order
    ensures Index(order, id) < |order| && order[Index(order, id)] == id
  {
    if order[0] == id then 0 else 1 + Index(order[1..], id)
  }

  lemma {:induction false} FirstIndex(order: seq<Id>, i: nat)
    requires i < |order|
    ensures Index(order, order[i]) <= i
  {
    if i > 0 && order[0] != order[i] {
      FirstIndex(order[1..], i - 1);
    }
  }

  lemma FirstIndexes(order: seq<Id>, k: nat)
    requires k <= |order|
    ensures forall id :: id in order[..k] ==> id in order && Index(order, id) < k
  {
    forall id | id in order[..k] ensures id in order && Index(order, id) < k {
      var i :| 0 <= i < k && order[i] == id;
      FirstIndex(order, i);
    }
  }

  /** Steps a region takes when every definition it invokes is one of the first `k`
      of `order`: two for entering and leaving a nested region, one otherwise, and
      one for its result. */
  ghost function RegionCost(c: Candidate, order: seq<Id>, k: nat, steps: seq<Step>): nat
    decreases k, 1, steps
  {
    if steps == [] then 1 else StepCost(c, order, k, steps[0]) + RegionCost(c, order, k, steps[1..])
  }

  ghost function StepCost(c: Candidate, order: seq<Id>, k: nat, step: Step): nat
    decreases k, 1, step
  {
    match step.operation
    case Invoke(definition, _, _) => 1 + BodyCost(c, order, k, definition)
    case Scope(body, _) => 1 + RegionCost(c, order, k, body.steps)
    case _ => 1
  }

  ghost function BodyCost(c: Candidate, order: seq<Id>, k: nat, definition: Id): nat
    decreases k, 0
  {
    if definition in order && Index(order, definition) < k && Find(c.definitions, definition).Some?
    then RegionCost(c, order, Index(order, definition), Find(c.definitions, definition).value.steps)
    else 0
  }

  /** Every definition is listed, after all those its body invokes. */
  ghost predicate Ordered(c: Candidate, order: seq<Id>) {
    forall id :: Find(c.definitions, id).Some? ==>
      id in order && InvokesBefore(order, Index(order, id), Invoked(Find(c.definitions, id).value.steps))
  }

  ghost predicate InvokesBefore(order: seq<Id>, k: nat, ids: set<Id>) {
    forall id :: id in ids ==> id in order && Index(order, id) < k
  }

  /** A region costs the same under every bound that covers its invocations. */
  lemma {:induction false} CostIsStable(c: Candidate, order: seq<Id>, k: nat, m: nat, steps: seq<Step>)
    requires InvokesBefore(order, k, Invoked(steps)) && k <= m
    ensures RegionCost(c, order, k, steps) == RegionCost(c, order, m, steps)
    decreases steps
  {
    if steps != [] {
      StepCostIsStable(c, order, k, m, steps[0]);
      CostIsStable(c, order, k, m, steps[1..]);
    }
  }

  lemma {:induction false} StepCostIsStable(c: Candidate, order: seq<Id>, k: nat, m: nat, step: Step)
    requires InvokesBefore(order, k, InvokedBy(step)) && k <= m
    ensures StepCost(c, order, k, step) == StepCost(c, order, m, step)
    decreases step
  {
    if step.operation.Scope? {
      CostIsStable(c, order, k, m, step.operation.body.steps);
    }
  }

  ghost function FramesCost(c: Candidate, order: seq<Id>, frames: seq<Frame>): nat {
    if frames == [] then 0
    else RegionCost(c, order, |order|, frames[0].steps) + FramesCost(c, order, frames[1..])
  }

  ghost function StateCost(c: Candidate, order: seq<Id>, s: State): nat {
    if s.Running? then RegionCost(c, order, |order|, s.top.steps) + FramesCost(c, order, s.callers) else 0
  }

  /** Each step costs exactly one, or ends the run early. */
  lemma StepCosts(e: Engine, c: Candidate, order: seq<Id>, s: State, answer: Option<Value>)
    requires s.Running? && Ordered(c, order)
    ensures StateCost(c, order, Next(e, c, s, answer)) < StateCost(c, order, s)
    ensures Next(e, c, s, answer).Running? ==> StateCost(c, order, Next(e, c, s, answer)) == StateCost(c, order, s) - 1
  {
    hide Evaluate;
    hide Ordered;
    if s.top.steps != [] {
      var step := s.top.steps[0];
      var rest := s.top.(steps := s.top.steps[1..]);
      var all := [rest] + s.callers;
      assert all[0] == rest && all[1..] == s.callers;
      assert StateCost(c, order, s)
        == StepCost(c, order, |order|, step) + RegionCost(c, order, |order|, rest.steps) + FramesCost(c, order, s.callers);
      assert FramesCost(c, order, all) == RegionCost(c, order, |order|, rest.steps) + FramesCost(c, order, s.callers);
      match step.operation
      case Call(_, _, _) =>
      case Invoke(definition, _, _) =>
        if Find(c.definitions, definition).Some? {
          BodyCostCovers(c, order, definition);
        }
      case Wait(_, _) =>
      case Effect(_, _, _, _) =>
      case Scope(body, _) =>
    } else {
      assert RegionCost(c, order, |order|, s.top.steps) == 1;
    }
  }

  lemma BodyCostCovers(c: Candidate, order: seq<Id>, id: Id)
    requires Ordered(c, order) && Find(c.definitions, id).Some?
    ensures BodyCost(c, order, |order|, id) == RegionCost(c, order, |order|, Find(c.definitions, id).value.steps)
  {
    CostIsStable(c, order, Index(order, id), |order|, Find(c.definitions, id).value.steps);
  }

  lemma {:induction false} RunIsFinite(e: Engine, c: Candidate, order: seq<Id>, s: State, answers: seq<Option<Value>>)
    requires Ordered(c, order) && |answers| >= StateCost(c, order, s)
    ensures !Run(e, c, s, answers).Running?
    decreases |answers|
  {
    if s.Running? {
      StepCosts(e, c, order, s, if answers == [] then None else answers[0]);
    }
    if answers != [] {
      RunIsFinite(e, c, order, Next(e, c, s, answers[0]), answers[1..]);
    }
  }

  /** An accepted candidate's definitions can be listed so that each comes after
      all it invokes. */
  lemma AcceptedIsOrdered(checks: Checks, c: Candidate) returns (order: seq<Id>)
    requires Accepted(checks, c)
    ensures Ordered(c, order)
  {
    var g := InvocationEdges(c.definitions);
    ScopedGraphCloses(checks, c);
    order := AcyclicOrder(g, []);
    forall id | Find(c.definitions, id).Some?
      ensures id in order && InvokesBefore(order, Index(order, id), Invoked(Find(c.definitions, id).value.steps))
    {
      FindIsEdge(c, id);
      assert order[Index(order, id)] == id;
      FirstIndexes(order, Index(order, id));
    }
  }

  lemma FindIsEdge(c: Candidate, id: Id)
    requires Fresh(DefinitionIds(c), {}) && Find(c.definitions, id).Some?
    ensures id in InvocationEdges(c.definitions)
    ensures InvocationEdges(c.definitions)[id] == Invoked(Find(c.definitions, id).value.steps)
  {
    FindDefinition(c.definitions, id);
    EdgesKeys(c.definitions, id);
    var i := EdgesOf(c.definitions, id);
    var k :| 0 <= k < |c.definitions| && c.definitions[k].id == id && Find(c.definitions, id).value == c.definitions[k].body;
    assert DefinitionIds(c)[i] == DefinitionIds(c)[k];
  }

  // ----- effects that settle without a value

  /** What is certain to have a value once the engine has gone past the operation. */
  function Supplies(e: Engine, op: Operation): set<Id> {
    if op.Effect? && !e.stopsUnapplied then {} else Bound(op.bind)
  }

  /** The engine is suspended somewhere in the region, or in what it invokes. */
  ghost predicate Parks(e: Engine, c: Candidate, order: seq<Id>, k: nat, steps: seq<Step>)
    decreases k, 1, steps
  {
    steps != [] && (StepParks(e, c, order, k, steps[0]) || Parks(e, c, order, k, steps[1..]))
  }

  ghost predicate StepParks(e: Engine, c: Candidate, order: seq<Id>, k: nat, step: Step)
    decreases k, 1, step
  {
    match step.operation
    case Wait(_, _) => e.suspends
    case Invoke(definition, _, _) => BodyParks(e, c, order, k, definition)
    case Scope(body, _) => Parks(e, c, order, k, body.steps)
    case _ => false
  }

  ghost predicate BodyParks(e: Engine, c: Candidate, order: seq<Id>, k: nat, definition: Id)
    decreases k, 0
  {
    && definition in order && Index(order, definition) < k && Find(c.definitions, definition).Some?
    && Parks(e, c, order, Index(order, definition), Find(c.definitions, definition).value.steps)
  }

  lemma {:induction false} ParkingIsStable(e: Engine, c: Candidate, order: seq<Id>, k: nat, m: nat, steps: seq<Step>)
    requires InvokesBefore(order, k, Invoked(steps)) && k <= m
    ensures Parks(e, c, order, k, steps) <==> Parks(e, c, order, m, steps)
    decreases steps
  {
    if steps != [] {
      StepParkingIsStable(e, c, order, k, m, steps[0]);
      ParkingIsStable(e, c, order, k, m, steps[1..]);
    }
  }

  lemma {:induction false} StepParkingIsStable(e: Engine, c: Candidate, order: seq<Id>, k: nat, m: nat, step: Step)
    requires InvokesBefore(order, k, InvokedBy(step)) && k <= m
    ensures StepParks(e, c, order, k, step) <==> StepParks(e, c, order, m, step)
    decreases step
  {
    if step.operation.Scope? { ParkingIsStable(e, c, order, k, m, step.operation.body.steps); }
  }

  lemma BodyParkingCovers(e: Engine, c: Candidate, order: seq<Id>, id: Id)
    requires Ordered(c, order) && Find(c.definitions, id).Some?
    ensures BodyParks(e, c, order, |order|, id) <==> Parks(e, c, order, |order|, Find(c.definitions, id).value.steps)
  {
    ParkingIsStable(e, c, order, Index(order, id), |order|, Find(c.definitions, id).value.steps);
  }

  /** What the engine gets to in the region, with everything it invokes, reads only names
      that do not depend on a value an effect may withhold: the scope check again, such
      effects binding nothing and nothing read after the engine is suspended. */
  ghost predicate SelfSufficient(e: Engine, c: Candidate, order: seq<Id>, k: nat, steps: seq<Step>, result: Expression, names: set<Id>)
    decreases k, 1, steps
  {
    if steps == [] then Reads(result) <= names
    else
      && StepSelfSufficient(e, c, order, k, steps[0], names)
      && (StepParks(e, c, order, k, steps[0]) || SelfSufficient(e, c, order, k, steps[1..], result, names + Supplies(e, steps[0].operation)))
  }

  ghost predicate StepSelfSufficient(e: Engine, c: Candidate, order: seq<Id>, k: nat, step: Step, names: set<Id>)
    decreases k, 1, step
  {
    match step.operation
    case Call(_, input, _) => Reads(input) <= names
    case Invoke(definition, input, _) => Reads(input) <= names && BodySelfSufficient(e, c, order, k, definition)
    case Wait(_, _) => true
    case Effect(_, input, _, _) => Reads(input) <= names
    case Scope(body, _) => SelfSufficient(e, c, order, k, body.steps, body.result, names)
  }

  ghost predicate BodySelfSufficient(e: Engine, c: Candidate, order: seq<Id>, k: nat, definition: Id)
    decreases k, 0
  {
    definition in order && Index(order, definition) < k && Find(c.definitions, definition).Some? ==>
      var body := Find(c.definitions, definition).value;
      SelfSufficient(e, c, order, Index(order, definition), body.steps, body.result, {})
  }

  lemma {:induction false} SufficiencyIsStable(e: Engine, c: Candidate, order: seq<Id>, k: nat, m: nat, steps: seq<Step>, result: Expression, names: set<Id>)
    requires InvokesBefore(order, k, Invoked(steps)) && k <= m
    ensures SelfSufficient(e, c, order, k, steps, result, names) <==> SelfSufficient(e, c, order, m, steps, result, names)
    decreases steps
  {
    if steps != [] {
      StepSufficiencyIsStable(e, c, order, k, m, steps[0], names);
      StepParkingIsStable(e, c, order, k, m, steps[0]);
      SufficiencyIsStable(e, c, order, k, m, steps[1..], result, names + Supplies(e, steps[0].operation));
    }
  }

  lemma {:induction false} StepSufficiencyIsStable(e: Engine, c: Candidate, order: seq<Id>, k: nat, m: nat, step: Step, names: set<Id>)
    requires InvokesBefore(order, k, InvokedBy(step)) && k <= m
    ensures StepSelfSufficient(e, c, order, k, step, names) <==> StepSelfSufficient(e, c, order, m, step, names)
    decreases step
  {
    if step.operation.Scope? {
      SufficiencyIsStable(e, c, order, k, m, step.operation.body.steps, step.operation.body.result, names);
    }
  }

  lemma BodySufficiencyCovers(e: Engine, c: Candidate, order: seq<Id>, id: Id)
    requires Ordered(c, order) && Find(c.definitions, id).Some?
    ensures var body := Find(c.definitions, id).value;
      BodySelfSufficient(e, c, order, |order|, id) <==> SelfSufficient(e, c, order, |order|, body.steps, body.result, {})
  {
    var body := Find(c.definitions, id).value;
    SufficiencyIsStable(e, c, order, Index(order, id), |order|, body.steps, body.result, {});
  }

  /** More names at hand never hurt. */
  lemma {:induction false} SufficiencyGrows(e: Engine, c: Candidate, order: seq<Id>, k: nat, steps: seq<Step>, result: Expression, names: set<Id>, more: set<Id>)
    requires SelfSufficient(e, c, order, k, steps, result, names) && names <= more
    ensures SelfSufficient(e, c, order, k, steps, result, more)
    decreases steps
  {
    if steps != [] {
      var supplied := Supplies(e, steps[0].operation);
      StepSufficiencyGrows(e, c, order, k, steps[0], names, more);
      if !StepParks(e, c, order, k, steps[0]) {
        SufficiencyGrows(e, c, order, k, steps[1..], result, names + supplied, more + supplied);
      }
    }
  }

  lemma {:induction false} StepSufficiencyGrows(e: Engine, c: Candidate, order: seq<Id>, k: nat, step: Step, names: set<Id>, more: set<Id>)
    requires StepSelfSufficient(e, c, order, k, step, names) && names <= more
    ensures StepSelfSufficient(e, c, order, k, step, more)
    decreases step
  {
    if step.operation.Scope? {
      SufficiencyGrows(e, c, order, k, step.operation.body.steps, step.operation.body.result, names, more);
    }
  }

  ghost predicate FrameSufficient(e: Engine, c: Candidate, order: seq<Id>, f: Frame, incoming: set<Id>) {
    SelfSufficient(e, c, order, |order|, f.steps, f.result, Available(f.env) + incoming)
  }

  /** The engine is suspended before it leaves the frame. */
  ghost predicate FrameParks(e: Engine, c: Candidate, order: seq<Id>, f: Frame) { Parks(e, c, order, |order|, f.steps) }

  ghost predicate CallersSufficient(e: Engine, c: Candidate, order: seq<Id>, callers: seq<Frame>, incoming: set<Id>)
    decreases |callers|, 0
  {
    callers == [] ||
    (FrameSufficient(e, c, order, callers[0], incoming) && ReturnsSufficient(e, c, order, callers[0], callers[1..]))
  }

  /** If the frame is ever left, its callers go on sufficient. */
  ghost predicate ReturnsSufficient(e: Engine, c: Candidate, order: seq<Id>, f: Frame, callers: seq<Frame>)
    decreases |callers|, 1
  {
    FrameParks(e, c, order, f) || CallersSufficient(e, c, order, callers, Bound(f.bind))
  }

  ghost predicate StateSufficient(e: Engine, c: Candidate, order: seq<Id>, s: State) {
    match s
    case Running(top, callers) => FrameSufficient(e, c, order, top, {}) && ReturnsSufficient(e, c, order, top, callers)
    case Stuck(_) => false
    case _ => true
  }

  lemma ResumedNames(f: Frame, bind: Option<Id>, answer: Option<Value>)
    requires bind.Some? ==> bind.value !in f.env
    ensures bind.Some? ==>
      Available(f.env[bind.value := answer]) == Available(f.env) + if answer.Some? then Bound(bind) else {}
  {
    if bind.Some? {
      var env := f.env[bind.value := answer];
      forall n ensures n in Available(env) <==> n in Available(f.env) + if answer.Some? then Bound(bind) else {} {
      }
    }
  }

  /** Resuming a frame is sufficient exactly when the frame was, given what the
      answer supplies. */
  lemma ResumeSufficient(e: Engine, c: Candidate, order: seq<Id>, f: Frame, bind: Option<Id>, answer: Option<Value>, callers: seq<Frame>)
    requires bind.Some? ==> bind.value !in f.env
    ensures StateSufficient(e, c, order, Resume(f, bind, answer, callers)) <==>
      FrameSufficient(e, c, order, f, if answer.Some? then Bound(bind) else {})
      && ReturnsSufficient(e, c, order, f, callers)
  {
    ResumedNames(f, bind, answer);
    if bind.Some? {
      assert Available(f.env[bind.value := answer]) + {} == Available(f.env) + if answer.Some? then Bound(bind) else {};
    } else {
      assert Bound(bind) == {};
    }
  }

  lemma EnterSufficient(e: Engine, c: Candidate, order: seq<Id>, body: Region, env: Environment, input: Value, bind: Option<Id>, caller: Frame, callers: seq<Frame>)
    ensures StateSufficient(e, c, order, EnterRegion(body, env, input, bind, caller, callers)) <==>
      && SelfSufficient(e, c, order, |order|, body.steps, body.result, Available(env))
      && (Parks(e, c, order, |order|, body.steps) ||
          (FrameSufficient(e, c, order, caller, Bound(bind)) && ReturnsSufficient(e, c, order, caller, callers)))
  {
    assert Available(env) + {} == Available(env);
    var all := [caller] + callers;
    assert all[0] == caller && all[1..] == callers;
    assert CallersSufficient(e, c, order, all, Bound(bind))
      <==> FrameSufficient(e, c, order, caller, Bound(bind)) && ReturnsSufficient(e, c, order, caller, callers);
  }

  /** The answer that withholds every effect's value the engine does without, and grants
      everything else. */
  function Withhold(e: Engine, s: State): Option<Value> {
    if s.Running? && s.top.steps != [] && s.top.steps[0].operation.Effect? && !e.stopsUnapplied then None else Some(Scalar(""))
  }

  /** What one step does to sufficiency: any answer keeps it, and with values
      withheld a sufficient successor shows the state was sufficient already. */
  lemma StepSufficiency(e: Engine, checks: Checks, c: Candidate, order: seq<Id>, s: State, answer: Option<Value>)
    requires Accepted(checks, c) && Ordered(c, order) && StateScoped(checks, c, s) && s.Running?
    ensures StateSufficient(e, c, order, s) ==> StateSufficient(e, c, order, Next(e, c, s, answer))
    ensures answer == Withhold(e, s) && StateSufficient(e, c, order, Next(e, c, s, answer)) ==> StateSufficient(e, c, order, s)
  {
    hide Accepted;
    assert Available(s.top.env) + {} == Available(s.top.env);
    if s.top.steps == [] {
      EvaluateNeeds(s.top.result, s.top.input, s.top.env);
      assert ReturnsSufficient(e, c, order, s.top, s.callers) <==> CallersSufficient(e, c, order, s.callers, Bound(s.top.bind));
      if s.callers != [] {
        var v := Evaluate(s.top.result, s.top.input, s.top.env);
        if v.Ok? { ResumeSufficient(e, c, order, s.callers[0], s.top.bind, Some(v.value), s.callers[1..]); }
      }
    } else {
      ExecuteSufficiency(e, checks, c, order, s, answer);
    }
  }

  /** A frame that is left is left after its first step. */
  lemma Unfolds(e: Engine, c: Candidate, order: seq<Id>, top: Frame, rest: Frame, callers: seq<Frame>)
    requires top.steps != [] && rest == top.(steps := top.steps[1..])
    ensures ReturnsSufficient(e, c, order, top, callers)
      <==> StepParks(e, c, order, |order|, top.steps[0]) || ReturnsSufficient(e, c, order, rest, callers)
  {
    hide StepParks;
    hide CallersSufficient;
  }

  lemma ExecuteSufficiency(e: Engine, checks: Checks, c: Candidate, order: seq<Id>, s: State, answer: Option<Value>)
    requires Accepted(checks, c) && Ordered(c, order) && StateScoped(checks, c, s) && s.Running? && s.top.steps != []
    ensures StateSufficient(e, c, order, s) ==> StateSufficient(e, c, order, Next(e, c, s, answer))
    ensures answer == Withhold(e, s) && StateSufficient(e, c, order, Next(e, c, s, answer)) ==> StateSufficient(e, c, order, s)
  {
    StepKeepsScope(e, checks, c, s, answer);
    hide Accepted;
    hide CallersScoped;
    hide ReturnsSufficient;
    hide Parks;
    hide BodyParks;
    hide BodySelfSufficient;
    hide Evaluate;
    hide Ordered;
    var op := s.top.steps[0].operation;
    var rest := s.top.(steps := s.top.steps[1..]);
    var here := Available(s.top.env);
    assert here + {} == here;
    assert s.top.env.Keys + Bound(None) == s.top.env.Keys;
    assert StepScoped(checks, KnownTo(c), s.top.steps[0], s.top.env.Keys);
    assert FrameScoped(checks, c, rest, op.bind);
    ResumeSufficient(e, c, order, rest, op.bind, answer, s.callers);
    assert StateSufficient(e, c, order, s) <==>
      && StepSelfSufficient(e, c, order, |order|, s.top.steps[0], here)
      && (StepParks(e, c, order, |order|, s.top.steps[0]) ||
          (FrameSufficient(e, c, order, rest, Supplies(e, op)) && ReturnsSufficient(e, c, order, rest, s.callers))) by {
      Unfolds(e, c, order, s.top, rest, s.callers);
    }
    match op
    case Call(component, input, _) => EvaluateNeeds(input, rest.input, rest.env);
    case Invoke(definition, input, bind) =>
      EvaluateNeeds(input, rest.input, rest.env);
      KnownBody(checks, c, definition);
      BodySufficiencyCovers(e, c, order, definition);
      BodyParkingCovers(e, c, order, definition);
      var v := Evaluate(input, rest.input, rest.env);
      if v.Ok? {
        var env: Environment := map[];
        assert Available(env) == {};
        EnterSufficient(e, c, order, Find(c.definitions, definition).value, env, v.value, bind, rest, s.callers);
      }
    case Wait(_, _) =>
    case Effect(effect, input, _, bind) =>
      EvaluateNeeds(input, rest.input, rest.env);
      if FrameSufficient(e, c, order, rest, {}) {
        SufficiencyGrows(e, c, order, |order|, rest.steps, rest.result, here + {}, here + Bound(bind));
      }
    case Scope(body, bind) =>
      EnterSufficient(e, c, order, body, rest.env, rest.input, bind, rest, s.callers);
  }

  /** A sufficient state is never stopped, whatever the world answers. */
  lemma {:induction false} SufficientRuns(e: Engine, checks: Checks, c: Candidate, order: seq<Id>, s: State, answers: seq<Option<Value>>)
    requires Accepted(checks, c) && Ordered(c, order) && StateScoped(checks, c, s) && StateSufficient(e, c, order, s)
    ensures !Run(e, c, s, answers).Stuck?
    decreases |answers|
  {
    if answers != [] {
      StepKeepsScope(e, checks, c, s, answers[0]);
      if s.Running? { StepSufficiency(e, checks, c, order, s, answers[0]); }
      SufficientRuns(e, checks, c, order, Next(e, c, s, answers[0]), answers[1..]);
    }
  }

  /** A state that is not sufficient is stopped when every effect's value is withheld. */
  lemma {:induction false} WithheldRun(e: Engine, checks: Checks, c: Candidate, order: seq<Id>, s: State) returns (answers: seq<Option<Value>>)
    requires Accepted(checks, c) && Ordered(c, order) && StateScoped(checks, c, s) && !StateSufficient(e, c, order, s)
    ensures Run(e, c, s, answers).Stuck?
    decreases StateCost(c, order, s)
  {
    answers := [];
    if s.Running? {
      var answer := Withhold(e, s);
      StepCosts(e, c, order, s, answer);
      StepKeepsScope(e, checks, c, s, answer);
      StepSufficiency(e, checks, c, order, s, answer);
      var rest := WithheldRun(e, checks, c, order, Next(e, c, s, answer));
      answers := [answer] + rest;
      assert answers[1..] == rest;
    }
  }

  /** Every run of an accepted candidate stops within a bound fixed by the candidate,
      whatever the world answers, and never because a name is unbound or bound
      twice or a reference missing. */
  lemma AcceptedRunsFinish(e: Engine, checks: Checks, c: Candidate, input: Value) returns (bound: nat)
    requires Accepted(checks, c)
    ensures forall answers | |answers| >= bound :: !Run(e, c, Start(c, input), answers).Running?
    ensures forall answers :: Run(e, c, Start(c, input), answers).Stuck? ==> Run(e, c, Start(c, input), answers).reason.Unavailable?
  {
    var order := AcceptedIsOrdered(checks, c);
    var s := Start(c, input);
    StartScoped(checks, c, input);
    bound := StateCost(c, order, s);
    forall answers | |answers| >= bound ensures !Run(e, c, s, answers).Running? {
      RunIsFinite(e, c, order, s, answers);
    }
    forall answers ensures Run(e, c, s, answers).Stuck? ==> Run(e, c, s, answers).reason.Unavailable? {
      RunStaysScoped(e, checks, c, s, answers);
    }
  }

  /** An engine never stops for want of a name, on an accepted candidate, exactly when
      nothing it gets to from the entry reads a name whose value an effect may withhold.
      For the direct engine nothing after the first wait met counts. */
  lemma NeverStoppedExactly(e: Engine, checks: Checks, c: Candidate, order: seq<Id>, input: Value)
    requires Accepted(checks, c) && Ordered(c, order)
    ensures (forall answers :: !Run(e, c, Start(c, input), answers).Stuck?) <==> BodySelfSufficient(e, c, order, |order|, c.entry)
  {
    var s := Start(c, input);
    StartScoped(checks, c, input);
    BodySufficiencyCovers(e, c, order, c.entry);
    assert Available(s.top.env) + {} == {};
    if StateSufficient(e, c, order, s) {
      forall answers ensures !Run(e, c, s, answers).Stuck? {
        SufficientRuns(e, checks, c, order, s, answers);
      }
    } else {
      var answers := WithheldRun(e, checks, c, order, s);
    }
  }

  /** Where every bound name has a value the scope check is enough. */
  lemma {:induction false} ScopedIsSufficient(e: Engine, checks: Checks, c: Candidate, order: seq<Id>, k: nat, steps: seq<Step>, result: Expression, names: set<Id>)
    requires Accepted(checks, c) && e.stopsUnapplied && RegionScoped(checks, KnownTo(c), steps, result, names)
    ensures SelfSufficient(e, c, order, k, steps, result, names)
    decreases k, 1, steps
  {
    hide Accepted;
    if steps != [] {
      StepIsSufficient(e, checks, c, order, k, steps[0], names);
      ScopedIsSufficient(e, checks, c, order, k, steps[1..], result, names + Bound(steps[0].operation.bind));
    }
  }

  lemma {:induction false} StepIsSufficient(e: Engine, checks: Checks, c: Candidate, order: seq<Id>, k: nat, step: Step, names: set<Id>)
    requires Accepted(checks, c) && e.stopsUnapplied && StepScoped(checks, KnownTo(c), step, names)
    ensures StepSelfSufficient(e, c, order, k, step, names)
    decreases k, 1, step
  {
    match step.operation
    case Invoke(definition, _, _) =>
      KnownBody(checks, c, definition);
      hide Accepted;
      if definition in order && Index(order, definition) < k {
        var body := Find(c.definitions, definition).value;
        ScopedIsSufficient(e, checks, c, order, Index(order, definition), body.steps, body.result, {});
      }
    case Scope(body, _) => ScopedIsSufficient(e, checks, c, order, k, body.steps, body.result, names);
    case _ =>
  }

  /** An engine that stops at an effect that was not applied never stops for want of a
      name, on any accepted candidate. */
  lemma DurableIsNeverStopped(e: Engine, checks: Checks, c: Candidate, input: Value, answers: seq<Option<Value>>)
    requires Accepted(checks, c) && e.stopsUnapplied
    ensures !Run(e, c, Start(c, input), answers).Stuck?
  {
    var order := AcceptedIsOrdered(checks, c);
    KnownBody(checks, c, c.entry);
    var body := Find(c.definitions, c.entry).value;
    ScopedIsSufficient(e, checks, c, order, |order|, body.steps, body.result, {});
    BodySufficiencyCovers(e, c, order, c.entry);
    NeverStoppedExactly(e, checks, c, order, input);
  }

  // ----- the smallest candidate an effect can stop

  function Id0(): Id { Id("a") }

  /** One eager observational effect whose result is the definition's result. */
  function Observer(): Candidate {
    Candidate(IR_VERSION, Id0(), Id0(), [], [EffectContract(Id0(), Scalar("{}"), Scalar("{}"), Profile(Observational, Eager))],
      [Definition(Id0(), Scalar("{}"), Scalar("{}"),
        Region([Step(Id0(), Effect(Id0(), Input, Id0(), Some(Id0())))], Binding(Id0())))])
  }

  lemma ObserverAccepted(checks: Checks)
    requires checks.schema(Scalar("{}"))
    ensures Accepted(checks, Observer())
  {
    var c := Observer();
    var body := c.definitions[0].body;
    assert SemanticId(Id0());
    assert ComponentIds(c) == [] && EffectIds(c) == [Id0()] && DefinitionIds(c) == [Id0()];
    assert Elements(DefinitionIds(c)) == {Id0()};
    assert c.effects[..0] == [] && Profiles([]) == map[];
    assert KnownTo(c).effects == map[Id0() := Profile(Observational, Eager)];
    assert body.steps[1..] == [] && c.definitions[1..] == [] && c.definitions[..0] == [];
    assert RegionScoped(checks, KnownTo(c), body.steps, body.result, {});
    assert Sites(body.steps) == [Id0()] && AllSites(c.definitions) == [Id0()];
    ObserverAcyclic();
  }

  lemma ObserverAcyclic()
    ensures !Cyclic(InvocationEdges(Observer().definitions))
  {
    var definitions := Observer().definitions;
    assert definitions[0].body.steps[1..] == [] && definitions[..0] == [];
    assert Invoked(definitions[0].body.steps) == {};
    var g := InvocationEdges(definitions);
    forall v ensures !Reaches(g, v, v) {
      if Reaches(g, v, v) {
        var b := ReachesFirstStep(g, v, v);
      }
    }
  }

  /** It is accepted wherever its schema compiles, and an effect that settles without
      a value stops it. */
  lemma AcceptedCanBeStopped(checks: Checks)
    requires checks.schema(Scalar("{}"))
    ensures Accepted(checks, Observer())
    ensures Run(DIRECT, Observer(), Start(Observer(), Scalar("")), [None, None]) == Stuck(Unavailable(Id0()))
  {
    ObserverAccepted(checks);
    var s := Start(Observer(), Scalar(""));
    assert EffectIds(Observer()) == [Id0()];
    var t := Next(DIRECT, Observer(), s, None);
    assert t.Running? && t.top.steps == [] && t.top.env == map[Id0() := None];
    var answers: seq<Option<Value>> := [None, None];
    assert answers[1..] == [None] && answers[1..][1..] == [];
  }

  // ----- a wait can come between

  /** The same with a wait before the result. */
  function Waiter(): Candidate {
    Candidate(IR_VERSION, Id0(), Id0(), [], [EffectContract(Id0(), Scalar("{}"), Scalar("{}"), Profile(Observational, Eager))],
      [Definition(Id0(), Scalar("{}"), Scalar("{}"),
        Region([Step(Id0(), Effect(Id0(), Input, Id0(), Some(Id0()))), Step(Id("b"), Wait(Signal(Id0()), None))], Binding(Id0())))])
  }

  lemma {:induction false} EndedStays(e: Engine, c: Candidate, s: State, answers: seq<Option<Value>>)
    requires !s.Running?
    ensures Run(e, c, s, answers) == s
    decreases |answers|
  {
    if answers != [] { EndedStays(e, c, s, answers[1..]); }
  }

  lemma WaiterSteps(e: Engine, answer: Option<Value>)
    ensures var s := Start(Waiter(), Scalar(""));
      && s.Running?
      && (e.stopsUnapplied && answer.None? ==> Next(e, Waiter(), s, answer) == NotApplied)
      && (!(e.stopsUnapplied && answer.None?) ==>
        Next(e, Waiter(), s, answer) ==
          Running(Frame([Step(Id("b"), Wait(Signal(Id0()), None))], Binding(Id0()), map[Id0() := answer], Scalar(""), None), []))
  {
    assert EffectIds(Waiter()) == [Id0()];
    var steps := Waiter().definitions[0].body.steps;
    assert steps[1..] == [Step(Id("b"), Wait(Signal(Id0()), None))];
    assert map[][Id0() := answer] == map[Id0() := answer];
  }

  lemma WaiterAccepted(checks: Checks)
    requires checks.schema(Scalar("{}"))
    ensures Accepted(checks, Waiter())
  {
    var c := Waiter();
    var body := c.definitions[0].body;
    assert SemanticId(Id0()) && SemanticId(Id("b"));
    assert ComponentIds(c) == [] && EffectIds(c) == [Id0()] && DefinitionIds(c) == [Id0()];
    assert Elements(DefinitionIds(c)) == {Id0()};
    assert c.effects[..0] == [] && Profiles([]) == map[];
    assert KnownTo(c).effects == map[Id0() := Profile(Observational, Eager)];
    assert c.definitions[1..] == [] && c.definitions[..0] == [];
    WaiterScoped(checks);
    hide RegionScoped;
    hide Sites;
    assert AllSites(c.definitions) == [Id0(), Id("b")];
    WaiterAcyclic();
  }

  lemma WaiterScoped(checks: Checks)
    ensures var body := Waiter().definitions[0].body;
      && RegionScoped(checks, Known({}, map[Id0() := Profile(Observational, Eager)], {Id0()}), body.steps, body.result, {})
      && Sites(body.steps) == [Id0(), Id("b")] && Invoked(body.steps) == {}
  {
    var body := Waiter().definitions[0].body;
    var known := Known({}, map[Id0() := Profile(Observational, Eager)], {Id0()});
    assert SemanticId(Id0()) && SemanticId(Id("b"));
    var last := [Step(Id("b"), Wait(Signal(Id0()), None))];
    assert body.steps[1..] == last && last[1..] == [];
    assert RegionScoped(checks, known, last[1..], body.result, {Id0()});
    assert {Id0()} + Bound(None) == {Id0()} && {} + Bound(Some(Id0())) == {Id0()};
    assert RegionScoped(checks, known, last, body.result, {Id0()});
    assert Sites(last) == [Id("b")] && Invoked(last) == {};
  }

  lemma WaiterAcyclic()
    ensures !Cyclic(InvocationEdges(Waiter().definitions))
  {
    var definitions := Waiter().definitions;
    WaiterScoped(Checks(_ => true, _ => true));
    assert definitions[..0] == [];
    var g := InvocationEdges(definitions);
    forall v ensures !Reaches(g, v, v) {
      if Reaches(g, v, v) {
        var b := ReachesFirstStep(g, v, v);
      }
    }
  }

  /** Before a wait the direct engine is suspended and never reads the name, and the durable
      executor has ended at the effect, where an engine that goes on is stopped. */
  lemma WaitComesBetween(checks: Checks, answers: seq<Option<Value>>)
    requires checks.schema(Scalar("{}"))
    ensures Accepted(checks, Waiter())
    ensures !Run(DIRECT, Waiter(), Start(Waiter(), Scalar("")), answers).Stuck?
    ensures !Run(DURABLE, Waiter(), Start(Waiter(), Scalar("")), answers).Stuck?
    ensures Run(RESUMING, Waiter(), Start(Waiter(), Scalar("")), [None, Some(Scalar("")), None]) == Stuck(Unavailable(Id0()))
  {
    WaiterAccepted(checks);
    DurableIsNeverStopped(DURABLE, checks, Waiter(), Scalar(""), answers);
    hide Accepted;
    var c, s := Waiter(), Start(Waiter(), Scalar(""));
    if answers != [] {
      WaiterSteps(DIRECT, answers[0]);
      var t := Next(DIRECT, c, s, answers[0]);
      if |answers| > 1 {
        assert Next(DIRECT, c, t, answers[1..][0]) == Suspended;
        EndedStays(DIRECT, c, Suspended, answers[1..][1..]);
      }
    }
    WaiterSteps(RESUMING, None);
    var given: seq<Option<Value>> := [None, Some(Scalar("")), None];
    var t := Next(RESUMING, c, s, None);
    var u := Next(RESUMING, c, t, Some(Scalar("")));
    assert u.Running? && u.top.steps == [] && u.top.env == map[Id0() := None];
    assert given[1..] == [Some(Scalar("")), None] && given[1..][1..] == [None] && given[1..][1..][1..] == [];
  }
}
