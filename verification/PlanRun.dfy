/** A step-by-step run of an accepted Plan, following the engine that executes it
    (crates/cymule-runtime/src/engine.rs and crates/cymule-durable/src/executor.rs), and
    what acceptance guarantees about every run. */
module PlanRun {
  import opened Wrappers
  import opened InvocationGraph
  import opened Plan

  datatype Reason =
    | Unbound(name: Id)        // no binding of that name is visible
    | Unavailable(name: Id)    // its effect settled without a value
    | Rebound(name: Id)
    | Missing(reference: Id)   // component, effect or definition

  datatype Evaluation = Ok(value: Value) | Err(reason: Reason)

  /** Visible names. A name whose eager effect settled without a value maps to
      None: the engine inserts nothing then, so reading it fails. */
  type Environment = map<Id, Option<Value>>

  datatype Frame = Frame(steps: seq<Step>, result: Expression, env: Environment, input: Value, bind: Option<Id>)

  /** How an engine goes about waits and effects: whether a wait suspends it, and whether
      it stops at a bound effect that was not applied instead of going on without the
      value. */
  datatype Engine = Engine(suspends: bool, stopsUnapplied: bool)

  /** The engine of one uninterrupted run. */
  const DIRECT := Engine(true, false)

  /** The durable executor: a run goes on once its wait is answered. */
  const DURABLE := Engine(false, true)

  /** An engine that goes on in either case. */
  const RESUMING := Engine(false, false)

  /** `top` is the region being executed; its result goes to `callers[0]` under
      the name `top.bind`. */
  datatype State =
    | Running(top: Frame, callers: seq<Frame>)
    | Done(value: Value)
    | Failed
    | Suspended
    | NotApplied
    | Stuck(reason: Reason)

  // ----- expressions

  function Evaluate(e: Expression, input: Value, env: Environment): Evaluation
    decreases e
  {
    match e
    case Input => Ok(input)
    case Literal(value) => Ok(value)
    case Binding(name) =>
      if name !in env then Err(Unbound(name))
      else if env[name].None? then Err(Unavailable(name))
      else Ok(env[name].value)
    case Object(fields) => EvaluateFields(fields, input, env, [])
    case Array(items) => EvaluateItems(items, input, env, [])
  }

  function EvaluateFields(fields: seq<Field>, input: Value, env: Environment, built: seq<Member>): Evaluation
    decreases fields
  {
    if fields == [] then Ok(Record(built))
    else
      var v := Evaluate(fields[0].item, input, env);
      if v.Err? then v
      else EvaluateFields(fields[1..], input, env, built + [Member(fields[0].key, v.value)])
  }

  function EvaluateItems(items: seq<Expression>, input: Value, env: Environment, built: seq<Value>): Evaluation
    decreases items
  {
    if items == [] then Ok(List(built))
    else
      var v := Evaluate(items[0], input, env);
      if v.Err? then v
      else EvaluateItems(items[1..], input, env, built + [v.value])
  }

  /** The names whose value is at hand. */
  function Available(env: Environment): set<Id> {
    set name | name in env && env[name].Some?
  }

  /** Evaluation succeeds exactly when every name read has a value, and otherwise
      names one that has not. */
  lemma {:induction false} EvaluateNeeds(e: Expression, input: Value, env: Environment)
    ensures Evaluate(e, input, env).Ok? <==> Reads(e) <= Available(env)
    ensures Reads(e) <= env.Keys && Evaluate(e, input, env).Err? ==> Evaluate(e, input, env).reason.Unavailable?
    decreases e
  {
    match e
    case Object(fields) => EvaluateFieldsNeeds(fields, input, env, []);
    case Array(items) => EvaluateItemsNeeds(items, input, env, []);
    case _ =>
  }

  lemma {:induction false} EvaluateFieldsNeeds(fields: seq<Field>, input: Value, env: Environment, built: seq<Member>)
    ensures EvaluateFields(fields, input, env, built).Ok? <==> FieldReads(fields) <= Available(env)
    ensures FieldReads(fields) <= env.Keys && EvaluateFields(fields, input, env, built).Err?
      ==> EvaluateFields(fields, input, env, built).reason.Unavailable?
    decreases fields
  {
    if fields != [] {
      EvaluateNeeds(fields[0].item, input, env);
      var v := Evaluate(fields[0].item, input, env);
      if v.Ok? {
        EvaluateFieldsNeeds(fields[1..], input, env, built + [Member(fields[0].key, v.value)]);
      }
    }
  }

  lemma {:induction false} EvaluateItemsNeeds(items: seq<Expression>, input: Value, env: Environment, built: seq<Value>)
    ensures EvaluateItems(items, input, env, built).Ok? <==> ItemReads(items) <= Available(env)
    ensures ItemReads(items) <= env.Keys && EvaluateItems(items, input, env, built).Err?
      ==> EvaluateItems(items, input, env, built).reason.Unavailable?
    decreases items
  {
    if items != [] {
      EvaluateNeeds(items[0], input, env);
      var v := Evaluate(items[0], input, env);
      if v.Ok? {
        EvaluateItemsNeeds(items[1..], input, env, built + [v.value]);
      }
    }
  }

  // ----- one step

  /** The first definition with the identifier. */
  function Find(definitions: seq<Definition>, id: Id): Option<Region> {
    if definitions == [] then None
    else if definitions[0].id == id then Some(definitions[0].body)
    else Find(definitions[1..], id)
  }

  function Resume(frame: Frame, bind: Option<Id>, answer: Option<Value>, callers: seq<Frame>): State {
    if bind.None? then Running(frame, callers)
    else if bind.value in frame.env then Stuck(Rebound(bind.value))
    else Running(frame.(env := frame.env[bind.value := answer]), callers)
  }

  /** Enters a region whose result will be bound in `caller`. */
  function EnterRegion(body: Region, env: Environment, input: Value, bind: Option<Id>, caller: Frame, callers: seq<Frame>): State {
    Running(Frame(body.steps, body.result, env, input, bind), [caller] + callers)
  }

  /** `answer` is what the world replies to a component call, a wait or an effect;
      None is a failed call, an abandoned wait, or an effect settled without a value. */
  function Next(e: Engine, c: Candidate, s: State, answer: Option<Value>): State {
    if !s.Running? then s
    else if s.top.steps == [] then Return(s.top, s.callers)
    else Execute(e, c, s.top.steps[0].operation, s.top.(steps := s.top.steps[1..]), s.callers, answer)
  }

  function Return(top: Frame, callers: seq<Frame>): State {
    var v := Evaluate(top.result, top.input, top.env);
    if v.Err? then Stuck(v.reason)
    else if callers == [] then Done(v.value)
    else Resume(callers[0], top.bind, Some(v.value), callers[1..])
  }

  function Execute(e: Engine, c: Candidate, op: Operation, rest: Frame, callers: seq<Frame>, answer: Option<Value>): State {
    match op
    case Call(component, input, bind) =>
      var v := Evaluate(input, rest.input, rest.env);
      if v.Err? then Stuck(v.reason)
      else if component !in ComponentIds(c) then Stuck(Missing(component))
      else if answer.None? then Failed
      else Resume(rest, bind, answer, callers)
    case Invoke(definition, input, bind) =>
      var v := Evaluate(input, rest.input, rest.env);
      if v.Err? then Stuck(v.reason)
      else
        var body := Find(c.definitions, definition);
        if body.None? then Stuck(Missing(definition))
        else EnterRegion(body.value, map[], v.value, bind, rest, callers)
    case Wait(_, bind) =>
      if e.suspends then Suspended
      else if answer.None? then Failed
      else Resume(rest, bind, answer, callers)
    case Effect(effect, input, _, bind) =>
      var v := Evaluate(input, rest.input, rest.env);
      if v.Err? then Stuck(v.reason)
      else if effect !in EffectIds(c) then Stuck(Missing(effect))
      else if e.stopsUnapplied && bind.Some? && answer.None? then NotApplied
      else Resume(rest, bind, answer, callers)
    case Scope(body, bind) =>
      EnterRegion(body, rest.env, rest.input, bind, rest, callers)
  }

  /** The state after the world has given `answers`, one a step. */
  function Run(e: Engine, c: Candidate, s: State, answers: seq<Option<Value>>): State
    decreases |answers|
  {
    if answers == [] then s else Run(e, c, Next(e, c, s, answers[0]), answers[1..])
  }

  function Start(c: Candidate, input: Value): State {
    var body := Find(c.definitions, c.entry);
    if body.None? then Stuck(Missing(c.entry))
    else Running(Frame(body.value.steps, body.value.result, map[], input, None), [])
  }

  // ----- scoping is kept by every step

  /** The frame goes on well scoped once `incoming` is bound in it. */
  ghost predicate FrameScoped(checks: Checks, c: Candidate, f: Frame, incoming: Option<Id>) {
    && (incoming.Some? ==> incoming.value !in f.env)
    && RegionScoped(checks, KnownTo(c), f.steps, f.result, f.env.Keys + Bound(incoming))
  }

  ghost predicate CallersScoped(checks: Checks, c: Candidate, callers: seq<Frame>, incoming: Option<Id>) {
    callers == [] ||
    (FrameScoped(checks, c, callers[0], incoming) && CallersScoped(checks, c, callers[1..], callers[0].bind))
  }

  ghost predicate StateScoped(checks: Checks, c: Candidate, s: State) {
    match s
    case Running(top, callers) => FrameScoped(checks, c, top, None) && CallersScoped(checks, c, callers, top.bind)
    case Stuck(reason) => reason.Unavailable?
    case _ => true
  }

  lemma {:induction false} FindDefinition(definitions: seq<Definition>, id: Id)
    ensures Find(definitions, id).Some? ==> exists i :: 0 <= i < |definitions| && definitions[i].id == id && Find(definitions, id).value == definitions[i].body
    ensures Find(definitions, id).None? ==> forall i :: 0 <= i < |definitions| ==> definitions[i].id != id
  {
    if definitions != [] && definitions[0].id != id {
      FindDefinition(definitions[1..], id);
      if Find(definitions, id).Some? {
        var i :| 0 <= i < |definitions[1..]| && definitions[1..][i].id == id && Find(definitions, id).value == definitions[1..][i].body;
        assert definitions[i + 1].id == id;
      } else {
        forall i | 0 <= i < |definitions| ensures definitions[i].id != id {
          if i > 0 { assert definitions[1..][i - 1].id != id; }
        }
      }
    }
  }

  /** A known definition is found, and its body is scoped on its own. */
  lemma KnownBody(checks: Checks, c: Candidate, id: Id)
    requires Accepted(checks, c) && id in KnownTo(c).definitions
    ensures Find(c.definitions, id).Some?
    ensures var body := Find(c.definitions, id).value; RegionScoped(checks, KnownTo(c), body.steps, body.result, {})
  {
    FindDefinition(c.definitions, id);
    var i :| 0 <= i < |DefinitionIds(c)| && DefinitionIds(c)[i] == id;
    assert c.definitions[i].id == id;
    var k :| 0 <= k < |c.definitions| && c.definitions[k].id == id && Find(c.definitions, id).value == c.definitions[k].body;
    assert DefinitionOk(checks, KnownTo(c), c.definitions[k]);
  }

  lemma ResumeScoped(checks: Checks, c: Candidate, f: Frame, bind: Option<Id>, answer: Option<Value>, callers: seq<Frame>)
    requires FrameScoped(checks, c, f, bind) && CallersScoped(checks, c, callers, f.bind)
    ensures StateScoped(checks, c, Resume(f, bind, answer, callers)) && Resume(f, bind, answer, callers).Running?
  {
    if bind.Some? {
      var next := f.(env := f.env[bind.value := answer]);
      assert next.env.Keys + Bound(None) == f.env.Keys + Bound(bind);
    }
  }

  lemma EnterScoped(checks: Checks, c: Candidate, body: Region, env: Environment, input: Value, bind: Option<Id>, caller: Frame, callers: seq<Frame>)
    requires RegionScoped(checks, KnownTo(c), body.steps, body.result, env.Keys)
    requires FrameScoped(checks, c, caller, bind) && CallersScoped(checks, c, callers, caller.bind)
    ensures StateScoped(checks, c, EnterRegion(body, env, input, bind, caller, callers))
  {
    assert env.Keys + Bound(None) == env.Keys;
    var all := [caller] + callers;
    assert all[0] == caller && all[1..] == callers;
  }

  /** Every step keeps the scoping; it can be stopped only by a name whose effect
      settled without a value, never by an unbound or rebound name or a missing
      reference. */
  lemma StepKeepsScope(e: Engine, checks: Checks, c: Candidate, s: State, answer: Option<Value>)
    requires Accepted(checks, c) && StateScoped(checks, c, s)
    ensures StateScoped(checks, c, Next(e, c, s, answer))
  {
    if s.Running? {
      hide Accepted;
      assert s.top.env.Keys + Bound(None) == s.top.env.Keys;
      if s.top.steps == [] {
        EvaluateNeeds(s.top.result, s.top.input, s.top.env);
        var v := Evaluate(s.top.result, s.top.input, s.top.env);
        if s.callers != [] && v.Ok? {
          ResumeScoped(checks, c, s.callers[0], s.top.bind, Some(v.value), s.callers[1..]);
        }
      } else {
        ExecuteKeepsScope(e, checks, c, s.top, s.callers, answer);
      }
    }
  }

  lemma ExecuteKeepsScope(e: Engine, checks: Checks, c: Candidate, top: Frame, callers: seq<Frame>, answer: Option<Value>)
    requires Accepted(checks, c) && top.steps != []
    requires RegionScoped(checks, KnownTo(c), top.steps, top.result, top.env.Keys)
    requires CallersScoped(checks, c, callers, top.bind)
    ensures StateScoped(checks, c, Execute(e, c, top.steps[0].operation, top.(steps := top.steps[1..]), callers, answer))
  {
    hide Accepted;
    hide CallersScoped;
    var op := top.steps[0].operation;
    var rest := top.(steps := top.steps[1..]);
    assert StepScoped(checks, KnownTo(c), top.steps[0], top.env.Keys);
    assert FrameScoped(checks, c, rest, op.bind);
    ResumeScoped(checks, c, rest, op.bind, answer, callers);
    match op
    case Call(component, input, _) => EvaluateNeeds(input, rest.input, rest.env);
    case Invoke(definition, input, bind) =>
      EvaluateNeeds(input, rest.input, rest.env);
      KnownBody(checks, c, definition);
      var v := Evaluate(input, rest.input, rest.env);
      if v.Ok? {
        var env: Environment := map[];
        assert env.Keys == {};
        EnterScoped(checks, c, Find(c.definitions, definition).value, env, v.value, bind, rest, callers);
      }
    case Wait(_, _) =>
    case Effect(effect, input, _, _) =>
      EvaluateNeeds(input, rest.input, rest.env);
      ProfilesExactly(c.effects);
      var i :| 0 <= i < |c.effects| && c.effects[i].id == effect;
      assert EffectIds(c)[i] == effect;
    case Scope(body, bind) =>
      EnterScoped(checks, c, body, rest.env, rest.input, bind, rest, callers);
  }

  /** No run of an accepted candidate reads a name that is not bound, rebinds a
      visible name or looks up a missing component, effect or definition. */
  lemma {:induction false} RunStaysScoped(e: Engine, checks: Checks, c: Candidate, s: State, answers: seq<Option<Value>>)
    requires Accepted(checks, c) && StateScoped(checks, c, s)
    ensures StateScoped(checks, c, Run(e, c, s, answers))
    decreases |answers|
  {
    if answers != [] {
      StepKeepsScope(e, checks, c, s, answers[0]);
      RunStaysScoped(e, checks, c, Next(e, c, s, answers[0]), answers[1..]);
    }
  }

  lemma StartScoped(checks: Checks, c: Candidate, input: Value)
    requires Accepted(checks, c)
    ensures Start(c, input).Running? && StateScoped(checks, c, Start(c, input))
  {
    KnownBody(checks, c, c.entry);
    var env: Environment := map[];
    assert env.Keys + Bound(None) == {};
  }
}
