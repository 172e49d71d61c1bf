/** What a run computes: the value of every expression, and the step machine against the
    recursive engine (crates/cymule-runtime/src/engine.rs, `execute_region`). */
module PlanMeaning {
  import opened Wrappers
  import opened InvocationGraph
  import opened Plan
  import opened PlanRun
  import opened PlanOutcome

  // ----- the value of an expression

  /** `v` is the value of `x`: a name stands for its own value, and objects and arrays have
      the values of their parts, in order and under their keys. */
  ghost predicate Denotes(x: Expression, input: Value, env: Environment, v: Value)
    decreases x
  {
    match x
    case Input => v == input
    case Literal(value) => v == value
    case Binding(name) => name in env && env[name] == Some(v)
    case Object(fields) =>
      v.Record? && |v.members| == |fields| && forall i :: 0 <= i < |fields| ==> FieldDenotes(fields[i], input, env, v.members[i])
    case Array(items) =>
      v.List? && |v.values| == |items| && forall i :: 0 <= i < |items| ==> Denotes(items[i], input, env, v.values[i])
  }

  ghost predicate FieldDenotes(f: Field, input: Value, env: Environment, m: Member)
    decreases f
  {
    m.key == f.key && Denotes(f.item, input, env, m.value)
  }

  /** Evaluation gives exactly the value an expression denotes. */
  lemma {:induction false} EvaluateExactly(x: Expression, input: Value, env: Environment, v: Value)
    ensures Evaluate(x, input, env) == Ok(v) <==> Denotes(x, input, env, v)
    decreases x
  {
    match x
    case Object(fields) =>
      FieldsExactly(fields, input, env, [], v);
      if v.Record? { assert |v.members| == |fields| ==> v.members[..0] == [] && v.members[0..] == v.members; }
    case Array(items) =>
      ItemsExactly(items, input, env, [], v);
      if v.List? { assert |v.values| == |items| ==> v.values[..0] == [] && v.values[0..] == v.values; }
    case _ =>
  }

  ghost predicate FieldsDenote(fields: seq<Field>, input: Value, env: Environment, members: seq<Member>) {
    |members| == |fields| && forall i :: 0 <= i < |fields| ==> FieldDenotes(fields[i], input, env, members[i])
  }

  ghost predicate ItemsDenote(items: seq<Expression>, input: Value, env: Environment, values: seq<Value>) {
    |values| == |items| && forall i :: 0 <= i < |items| ==> Denotes(items[i], input, env, values[i])
  }

  lemma {:induction false} FieldsExactly(fields: seq<Field>, input: Value, env: Environment, built: seq<Member>, w: Value)
    ensures EvaluateFields(fields, input, env, built) == Ok(w) <==>
      w.Record? && built <= w.members && FieldsDenote(fields, input, env, w.members[|built|..])
    decreases fields
  {
    hide Denotes;
    if fields == [] {
      if w.Record? && built <= w.members && FieldsDenote(fields, input, env, w.members[|built|..]) {
        assert w.members == built + w.members[|built|..];
      }
    } else {
      var v := Evaluate(fields[0].item, input, env);
      if v.Ok? {
        var next := built + [Member(fields[0].key, v.value)];
        FieldsExactly(fields[1..], input, env, next, w);
        EvaluateExactly(fields[0].item, input, env, v.value);
      }
      if w.Record? && built <= w.members && |w.members| > |built| {
        var m := w.members[|built|];
        EvaluateExactly(fields[0].item, input, env, m.value);
        FieldsPart(fields, input, env, w.members[|built|..]);
        assert w.members[|built|..][1..] == w.members[|built| + 1..];
      }
    }
  }

  lemma FieldsPart(fields: seq<Field>, input: Value, env: Environment, members: seq<Member>)
    requires fields != [] && members != []
    ensures FieldsDenote(fields, input, env, members) <==>
      FieldDenotes(fields[0], input, env, members[0]) && FieldsDenote(fields[1..], input, env, members[1..])
  {
    hide FieldDenotes;
    if FieldDenotes(fields[0], input, env, members[0]) && FieldsDenote(fields[1..], input, env, members[1..]) {
      forall i | 0 <= i < |fields| ensures FieldDenotes(fields[i], input, env, members[i]) {
        if i > 0 { assert fields[1..][i - 1] == fields[i] && members[1..][i - 1] == members[i]; }
      }
    }
  }

  lemma {:induction false} ItemsExactly(items: seq<Expression>, input: Value, env: Environment, built: seq<Value>, w: Value)
    ensures EvaluateItems(items, input, env, built) == Ok(w) <==>
      w.List? && built <= w.values && ItemsDenote(items, input, env, w.values[|built|..])
    decreases items
  {
    hide Denotes;
    if items == [] {
      if w.List? && built <= w.values && ItemsDenote(items, input, env, w.values[|built|..]) {
        assert w.values == built + w.values[|built|..];
      }
    } else {
      var v := Evaluate(items[0], input, env);
      if v.Ok? {
        ItemsExactly(items[1..], input, env, built + [v.value], w);
        EvaluateExactly(items[0], input, env, v.value);
      }
      if w.List? && built <= w.values && |w.values| > |built| {
        EvaluateExactly(items[0], input, env, w.values[|built|]);
        ItemsPart(items, input, env, w.values[|built|..]);
        assert w.values[|built|..][1..] == w.values[|built| + 1..];
      }
    }
  }

  lemma ItemsPart(items: seq<Expression>, input: Value, env: Environment, values: seq<Value>)
    requires items != [] && values != []
    ensures ItemsDenote(items, input, env, values) <==>
      Denotes(items[0], input, env, values[0]) && ItemsDenote(items[1..], input, env, values[1..])
  {
    hide Denotes;
    if Denotes(items[0], input, env, values[0]) && ItemsDenote(items[1..], input, env, values[1..]) {
      forall i | 0 <= i < |items| ensures Denotes(items[i], input, env, values[i]) {
        if i > 0 { assert items[1..][i - 1] == items[i] && values[1..][i - 1] == values[i]; }
      }
    }
  }

  // ----- closed expressions

  /** A value written as literals, objects and arrays. */
  function Quote(v: Value): Expression
    decreases v
  {
    match v
    case Scalar(_) => Literal(v)
    case Record(members) => Object(seq(|members|, i requires 0 <= i < |members| => Field(members[i].key, Quote(members[i].value))))
    case List(values) => Array(seq(|values|, i requires 0 <= i < |values| => Quote(values[i])))
  }

  lemma {:induction false} QuoteDenotes(v: Value, input: Value, env: Environment)
    ensures Denotes(Quote(v), input, env, v)
    decreases v
  {
    match v
    case Scalar(_) =>
    case Record(members) =>
      forall i | 0 <= i < |members| ensures FieldDenotes(Quote(v).fields[i], input, env, members[i]) {
        QuoteDenotes(members[i].value, input, env);
      }
    case List(values) =>
      forall i | 0 <= i < |values| ensures Denotes(Quote(v).items[i], input, env, values[i]) {
        QuoteDenotes(values[i], input, env);
      }
  }

  /** A value written out evaluates to itself, wherever it stands. */
  lemma QuoteEvaluates(v: Value, input: Value, env: Environment)
    ensures Evaluate(Quote(v), input, env) == Ok(v)
  {
    QuoteDenotes(v, input, env);
    EvaluateExactly(Quote(v), input, env, v);
  }

  /** The names and the input replaced by their values. */
  function Substitute(x: Expression, input: Value, env: Environment): Expression
    decreases x
  {
    match x
    case Input => Literal(input)
    case Literal(_) => x
    case Binding(name) => if name in env && env[name].Some? then Literal(env[name].value) else x
    case Object(fields) =>
      Object(seq(|fields|, i requires 0 <= i < |fields| => Field(fields[i].key, Substitute(fields[i].item, input, env))))
    case Array(items) => Array(seq(|items|, i requires 0 <= i < |items| => Substitute(items[i], input, env)))
  }

  lemma {:induction false} SubstituteDenotes(x: Expression, input: Value, env: Environment, v: Value, other: Value, elsewhere: Environment)
    requires Denotes(x, input, env, v)
    ensures Denotes(Substitute(x, input, env), other, elsewhere, v)
    decreases x
  {
    match x
    case Object(fields) =>
      var s := Substitute(x, input, env);
      forall i | 0 <= i < |fields| ensures FieldDenotes(s.fields[i], other, elsewhere, v.members[i]) {
        assert FieldDenotes(fields[i], input, env, v.members[i]);
        SubstituteDenotes(fields[i].item, input, env, v.members[i].value, other, elsewhere);
      }
    case Array(items) =>
      var s := Substitute(x, input, env);
      forall i | 0 <= i < |items| ensures Denotes(s.items[i], other, elsewhere, v.values[i]) {
        SubstituteDenotes(items[i], input, env, v.values[i], other, elsewhere);
      }
    case _ =>
  }

  /** Replacing every name and the input by the literal of its value changes nothing: what
      is left has the same value with any other input and any other names. */
  lemma SubstituteEvaluates(x: Expression, input: Value, env: Environment, other: Value, elsewhere: Environment)
    requires Reads(x) <= Available(env)
    ensures Evaluate(Substitute(x, input, env), other, elsewhere) == Evaluate(x, input, env)
  {
    EvaluateNeeds(x, input, env);
    var v := Evaluate(x, input, env).value;
    EvaluateExactly(x, input, env, v);
    SubstituteDenotes(x, input, env, v, other, elsewhere);
    EvaluateExactly(Substitute(x, input, env), other, elsewhere, v);
  }

  // ----- the recursive engine

  /** What the world answers, one answer for each moment. */
  type Answers = nat -> Option<Value>

  /** How a region ends, and when. */
  datatype Ending = Returned(value: Value, at: nat) | Halted(state: State, at: nat)

  /** What a step leaves behind. */
  datatype Passage = Past(env: Environment, at: nat) | Ended(state: State, at: nat)

  ghost function Bind(env: Environment, bind: Option<Id>, answer: Option<Value>, at: nat): Passage {
    match bind
    case None => Past(env, at)
    case Some(name) => if name in env then Ended(Stuck(Rebound(name)), at) else Past(env[name := answer], at)
  }

  /** A region's steps one after the other and then its result. Nested regions run where
      they stand, with the names and the input around them; an invoked body runs on its
      evaluated input alone, and its result is what the invocation binds. */
  ghost function RunRegion(e: Engine, c: Candidate, order: seq<Id>, k: nat, steps: seq<Step>, result: Expression,
                           input: Value, env: Environment, w: Answers, t: nat): (r: Ending)
    ensures r.at > t && (r.Halted? ==> !r.state.Running?)
    decreases k, 1, steps
  {
    if steps == [] then
      var v := Evaluate(result, input, env);
      if v.Ok? then Returned(v.value, t + 1) else Halted(Stuck(v.reason), t + 1)
    else
      var p := RunStep(e, c, order, k, steps[0], input, env, w, t);
      if p.Ended? then Halted(p.state, p.at)
      else RunRegion(e, c, order, k, steps[1..], result, input, p.env, w, p.at)
  }

  ghost function RunStep(e: Engine, c: Candidate, order: seq<Id>, k: nat, step: Step,
                         input: Value, env: Environment, w: Answers, t: nat): (p: Passage)
    ensures p.at > t && (p.Ended? ==> !p.state.Running?)
    decreases k, 1, step
  {
    match step.operation
    case Call(component, x, bind) =>
      var v := Evaluate(x, input, env);
      if v.Err? then Ended(Stuck(v.reason), t + 1)
      else if component !in ComponentIds(c) then Ended(Stuck(Missing(component)), t + 1)
      else if w(t).None? then Ended(Failed, t + 1)
      else Bind(env, bind, w(t), t + 1)
    case Invoke(definition, x, bind) =>
      var v := Evaluate(x, input, env);
      if v.Err? then Ended(Stuck(v.reason), t + 1)
      else if Find(c.definitions, definition).None? then Ended(Stuck(Missing(definition)), t + 1)
      else
        var r := RunBody(e, c, order, k, definition, v.value, w, t + 1);
        if r.Halted? then Ended(r.state, r.at) else Bind(env, bind, Some(r.value), r.at)
    case Wait(_, bind) =>
      if e.suspends then Ended(Suspended, t + 1)
      else if w(t).None? then Ended(Failed, t + 1)
      else Bind(env, bind, w(t), t + 1)
    case Effect(effect, x, _, bind) =>
      var v := Evaluate(x, input, env);
      if v.Err? then Ended(Stuck(v.reason), t + 1)
      else if effect !in EffectIds(c) then Ended(Stuck(Missing(effect)), t + 1)
      else if e.stopsUnapplied && bind.Some? && w(t).None? then Ended(NotApplied, t + 1)
      else Bind(env, bind, w(t), t + 1)
    case Scope(body, bind) =>
      var r := RunRegion(e, c, order, k, body.steps, body.result, input, env, w, t + 1);
      if r.Halted? then Ended(r.state, r.at) else Bind(env, bind, Some(r.value), r.at)
  }

  ghost function RunBody(e: Engine, c: Candidate, order: seq<Id>, k: nat, definition: Id, input: Value, w: Answers, t: nat): (r: Ending)
    ensures r.at > t && (r.Halted? ==> !r.state.Running?)
    decreases k, 0
  {
    if definition in order && Index(order, definition) < k && Find(c.definitions, definition).Some? then
      var body := Find(c.definitions, definition).value;
      RunRegion(e, c, order, Index(order, definition), body.steps, body.result, input, map[], w, t)
    else Halted(Stuck(Missing(definition)), t + 1)
  }

  // ----- the step machine over time

  ghost function After(e: Engine, c: Candidate, s: State, w: Answers, t: nat, n: nat): State
    decreases n
  {
    if n == 0 then s else After(e, c, Next(e, c, s, w(t)), w, t + 1, n - 1)
  }

  ghost predicate Busy(e: Engine, c: Candidate, s: State, w: Answers, t: nat, n: nat) {
    forall j: nat :: j < n ==> After(e, c, s, w, t, j).Running?
  }

  lemma {:induction false} AfterJoins(e: Engine, c: Candidate, s: State, w: Answers, t: nat, n: nat, m: nat)
    ensures After(e, c, s, w, t, n + m) == After(e, c, After(e, c, s, w, t, n), w, t + n, m)
    decreases n
  {
    if n > 0 { AfterJoins(e, c, Next(e, c, s, w(t)), w, t + 1, n - 1, m); }
  }

  lemma BusyJoins(e: Engine, c: Candidate, s: State, w: Answers, t: nat, n: nat, m: nat)
    requires Busy(e, c, s, w, t, n) && Busy(e, c, After(e, c, s, w, t, n), w, t + n, m)
    ensures Busy(e, c, s, w, t, n + m)
  {
    forall j: nat | j < n + m ensures After(e, c, s, w, t, j).Running? {
      if j >= n { AfterJoins(e, c, s, w, t, n, j - n); }
    }
  }

  /** From `s` at `t` the machine is busy until `at`, when it is in `next`. */
  ghost predicate Reaches(e: Engine, c: Candidate, s: State, w: Answers, t: nat, next: State, at: nat) {
    t <= at && Busy(e, c, s, w, t, at - t) && After(e, c, s, w, t, at - t) == next
  }

  lemma ReachesInOne(e: Engine, c: Candidate, s: State, w: Answers, t: nat)
    requires s.Running?
    ensures Reaches(e, c, s, w, t, Next(e, c, s, w(t)), t + 1)
  {
    assert After(e, c, s, w, t, 0) == s;
    assert After(e, c, s, w, t, 1) == After(e, c, Next(e, c, s, w(t)), w, t + 1, 0);
  }

  lemma ReachesOn(e: Engine, c: Candidate, s: State, w: Answers, t: nat, mid: State, m: nat, next: State, at: nat)
    requires Reaches(e, c, s, w, t, mid, m) && Reaches(e, c, mid, w, m, next, at)
    ensures Reaches(e, c, s, w, t, next, at)
  {
    BusyJoins(e, c, s, w, t, m - t, at - m);
    AfterJoins(e, c, s, w, t, m - t, at - m);
  }

  ghost function Handed(top: Frame, callers: seq<Frame>, r: Ending): State {
    if r.Halted? then r.state
    else if callers == [] then Done(r.value)
    else Resume(callers[0], top.bind, Some(r.value), callers[1..])
  }

  ghost function Passed(rest: Frame, callers: seq<Frame>, p: Passage): State {
    if p.Ended? then p.state else Running(rest.(env := p.env), callers)
  }

  lemma BindIsResume(f: Frame, bind: Option<Id>, answer: Option<Value>, callers: seq<Frame>, at: nat)
    ensures Resume(f, bind, answer, callers) == Passed(f, callers, Bind(f.env, bind, answer, at))
  {
    assert f.(env := f.env) == f;
  }

  /** The machine does to a frame what the recursive engine does to its region. */
  lemma {:induction false} RegionRuns(e: Engine, c: Candidate, order: seq<Id>, k: nat, top: Frame, callers: seq<Frame>, w: Answers, t: nat)
    requires Ordered(c, order) && InvokesBefore(order, k, Invoked(top.steps))
    ensures var r := RunRegion(e, c, order, k, top.steps, top.result, top.input, top.env, w, t);
      Reaches(e, c, Running(top, callers), w, t, Handed(top, callers, r), r.at)
    decreases k, 1, top.steps
  {
    hide Reaches;
    hide Evaluate;
    hide Ordered;
    hide Resume;
    var s := Running(top, callers);
    ReachesInOne(e, c, s, w, t);
    if top.steps != [] {
      var rest := top.(steps := top.steps[1..]);
      StepRuns(e, c, order, k, top, callers, w, t);
      hide RunStep;
      var p := RunStep(e, c, order, k, top.steps[0], top.input, top.env, w, t);
      if p.Past? {
        var on := rest.(env := p.env);
        RegionRuns(e, c, order, k, on, callers, w, p.at);
        var r := RunRegion(e, c, order, k, on.steps, on.result, on.input, on.env, w, p.at);
        ReachesOn(e, c, s, w, t, Running(on, callers), p.at, Handed(on, callers, r), r.at);
      }
    }
  }

  lemma {:induction false} StepRuns(e: Engine, c: Candidate, order: seq<Id>, k: nat, top: Frame, callers: seq<Frame>, w: Answers, t: nat)
    requires Ordered(c, order) && top.steps != [] && InvokesBefore(order, k, InvokedBy(top.steps[0]))
    ensures var p := RunStep(e, c, order, k, top.steps[0], top.input, top.env, w, t);
      Reaches(e, c, Running(top, callers), w, t, Passed(top.(steps := top.steps[1..]), callers, p), p.at)
    decreases k, 1, top.steps[0]
  {
    hide Reaches;
    hide Evaluate;
    var s, rest := Running(top, callers), top.(steps := top.steps[1..]);
    ReachesInOne(e, c, s, w, t);
    match top.steps[0].operation
    case Call(_, _, bind) => BindIsResume(rest, bind, w(t), callers, t + 1);
    case Wait(_, bind) => BindIsResume(rest, bind, w(t), callers, t + 1);
    case Effect(_, _, _, bind) => BindIsResume(rest, bind, w(t), callers, t + 1);
    case Invoke(definition, x, bind) =>
      var v := Evaluate(x, top.input, top.env);
      if v.Ok? && Find(c.definitions, definition).Some? {
        var body := Find(c.definitions, definition).value;
        var next, at := NestedRuns(e, c, order, Index(order, definition), body, v.value, map[], bind, rest, callers, w, t + 1);
        ReachesOn(e, c, s, w, t, EnterRegion(body, map[], v.value, bind, rest, callers), t + 1, next, at);
      }
    case Scope(body, bind) =>
      var next, at := NestedRuns(e, c, order, k, body, rest.input, rest.env, bind, rest, callers, w, t + 1);
      ReachesOn(e, c, s, w, t, EnterRegion(body, rest.env, rest.input, bind, rest, callers), t + 1, next, at);
  }

  lemma {:induction false} NestedRuns(e: Engine, c: Candidate, order: seq<Id>, k: nat, body: Region, input: Value, env: Environment,
                     bind: Option<Id>, caller: Frame, callers: seq<Frame>, w: Answers, t: nat)
    returns (next: State, at: nat)
    requires Ordered(c, order) && InvokesBefore(order, k, Invoked(body.steps))
    ensures var r := RunRegion(e, c, order, k, body.steps, body.result, input, env, w, t);
      at == r.at && next == if r.Halted? then r.state else Passed(caller, callers, Bind(caller.env, bind, Some(r.value), r.at))
    ensures Reaches(e, c, EnterRegion(body, env, input, bind, caller, callers), w, t, next, at)
    decreases k, 1, body
  {
    hide Reaches;
    var top := Frame(body.steps, body.result, env, input, bind);
    var all := [caller] + callers;
    assert all[0] == caller && all[1..] == callers;
    RegionRuns(e, c, order, k, top, all, w, t);
    var r := RunRegion(e, c, order, k, body.steps, body.result, input, env, w, t);
    if r.Returned? { BindIsResume(caller, bind, Some(r.value), callers, r.at); }
    next, at := Handed(top, all, r), r.at;
  }

  // ----- whole runs

  lemma {:induction false} RunIsAfter(e: Engine, c: Candidate, s: State, w: Answers, t: nat, answers: seq<Option<Value>>)
    requires forall i :: 0 <= i < |answers| ==> answers[i] == w(t + i)
    ensures Run(e, c, s, answers) == After(e, c, s, w, t, |answers|)
    decreases |answers|
  {
    if answers != [] {
      var rest := answers[1..];
      assert forall i :: 0 <= i < |rest| ==> rest[i] == answers[i + 1];
      RunIsAfter(e, c, Next(e, c, s, answers[0]), w, t + 1, rest);
    }
  }

  lemma {:induction false} AfterEnd(e: Engine, c: Candidate, s: State, w: Answers, t: nat, n: nat)
    requires !s.Running?
    ensures After(e, c, s, w, t, n) == s
    decreases n
  {
    if n > 0 { AfterEnd(e, c, s, w, t + 1, n - 1); }
  }

  /** Every run of the step machine is the run of the recursive engine, entered with the
      entry definition and its input: busy until that ends, and then for ever in its end. */
  lemma RunsAsWritten(e: Engine, c: Candidate, order: seq<Id>, input: Value, w: Answers, answers: seq<Option<Value>>)
    requires Ordered(c, order) && Find(c.definitions, c.entry).Some?
    requires forall i :: 0 <= i < |answers| ==> answers[i] == w(i)
    ensures var r := RunBody(e, c, order, |order|, c.entry, input, w, 0);
      var s := Run(e, c, Start(c, input), answers);
      if |answers| < r.at then s.Running? else s == Final(r)
  {
    hide RunBody;
    hide Reaches;
    hide After;
    hide Ordered;
    hide Final;
    hide Run;
    hide Start;
    var r := RunBody(e, c, order, |order|, c.entry, input, w, 0);
    var s := Start(c, input);
    EntryRuns(e, c, order, input, w);
    RunIsAfter(e, c, s, w, 0, answers);
    FinalIsOver(r);
    ReachesForGood(e, c, s, w, Final(r), r.at, |answers|);
  }

  lemma ReachesForGood(e: Engine, c: Candidate, s: State, w: Answers, next: State, at: nat, n: nat)
    requires Reaches(e, c, s, w, 0, next, at) && !next.Running?
    ensures if n < at then After(e, c, s, w, 0, n).Running? else After(e, c, s, w, 0, n) == next
  {
    hide After;
    if n >= at {
      AfterJoins(e, c, s, w, 0, at, n - at);
      AfterEnd(e, c, next, w, at, n - at);
    }
  }

  /** The state a whole run ends in. */
  ghost function Final(r: Ending): State { if r.Returned? then Done(r.value) else r.state }

  lemma FinalIsOver(r: Ending)
    requires r.Halted? ==> !r.state.Running?
    ensures !Final(r).Running?
  {
  }

  lemma EntryRuns(e: Engine, c: Candidate, order: seq<Id>, input: Value, w: Answers)
    requires Ordered(c, order) && Find(c.definitions, c.entry).Some?
    ensures var r := RunBody(e, c, order, |order|, c.entry, input, w, 0);
      Reaches(e, c, Start(c, input), w, 0, Final(r), r.at)
  {
    hide Reaches;
    hide RunRegion;
    var body := Find(c.definitions, c.entry).value;
    var top := Frame(body.steps, body.result, map[], input, None);
    RegionRuns(e, c, order, Index(order, c.entry), top, [], w, 0);
  }

  /** For an accepted candidate: no run but this one is possible, and each ends as its
      answers make the recursive engine end. */
  lemma AcceptedRunsAsWritten(e: Engine, checks: Checks, c: Candidate, input: Value, w: Answers) returns (order: seq<Id>)
    requires Accepted(checks, c)
    ensures Ordered(c, order) && Find(c.definitions, c.entry).Some?
    ensures forall answers | (forall i :: 0 <= i < |answers| ==> answers[i] == w(i)) ::
      var r := RunBody(e, c, order, |order|, c.entry, input, w, 0);
      var s := Run(e, c, Start(c, input), answers);
      if |answers| < r.at then s.Running? else s == Final(r)
  {
    order := AcceptedIsOrdered(checks, c);
    KnownBody(checks, c, c.entry);
    hide Accepted;
    forall answers: seq<Option<Value>> | (forall i :: 0 <= i < |answers| ==> answers[i] == w(i))
      ensures var r := RunBody(e, c, order, |order|, c.entry, input, w, 0);
        var s := Run(e, c, Start(c, input), answers);
        if |answers| < r.at then s.Running? else s == Final(r)
    {
      RunsAsWritten(e, c, order, input, w, answers);
    }
  }
}
