/** The language-neutral Plan and its validation (crates/cymule-core/src/ir.rs). */
module Plan {
  import opened Wrappers
  import opened Graphs
  import opened InvocationGraph

  const IR_VERSION := "cymule.ir/3"

  datatype Value = Scalar(text: string) | Record(members: seq<Member>) | List(values: seq<Value>)
  datatype Member = Member(key: string, value: Value)

  /** Fields of an object stand in the ascending key order of the source's map. */
  datatype Expression =
    | Input
    | Literal(value: Value)
    | Binding(name: Id)
    | Object(fields: seq<Field>)
    | Array(items: seq<Expression>)
  datatype Field = Field(key: string, item: Expression)

  datatype WaitSpec = Signal(key: Id) | Timer(timer: Id) | InputWait(correlation: Id, schema: Value)

  datatype Operation =
    | Call(component: Id, input: Expression, bind: Option<Id>)
    | Invoke(definition: Id, input: Expression, bind: Option<Id>)
    | Wait(wait: WaitSpec, bind: Option<Id>)
    | Effect(effect: Id, input: Expression, occurrence: Id, bind: Option<Id>)
    | Scope(body: Region, bind: Option<Id>)
  datatype Step = Step(id: Id, operation: Operation)
  datatype Region = Region(steps: seq<Step>, result: Expression)

  datatype Mutation = Observational | Mutating
  datatype Dispatch = Eager | OnScopeCommit | Explicit
  datatype Profile = Profile(mutation: Mutation, dispatch: Dispatch)

  datatype ComponentContract = ComponentContract(id: Id, inputSchema: Value, outputSchema: Value, artifactKind: string)
  datatype EffectContract = EffectContract(id: Id, inputSchema: Value, outputSchema: Value, profile: Profile)
  datatype Definition = Definition(id: Id, inputSchema: Value, outputSchema: Value, body: Region)
  datatype Candidate = Candidate(irVersion: string, name: Id, entry: Id, components: seq<ComponentContract>,
                                 effects: seq<EffectContract>, definitions: seq<Definition>)

  /** The JSON Schema compiler and the artifact-kind grammar, both outside this model. */
  datatype Checks = Checks(schema: Value -> bool, artifactKind: string -> bool)

  /** What a region may refer to. */
  datatype Known = Known(components: set<Id>, effects: map<Id, Profile>, definitions: set<Id>)

  // ----- identifiers

  ghost predicate IdCharacter(c: char) {
    c in "._-/:" || 'a' <= c <= 'z' || 'A' <= c <= 'Z' || '0' <= c <= '9'
  }

  ghost predicate SemanticId(id: Id) {
    1 <= |id.text| <= 160 && forall c :: c in id.text ==> IdCharacter(c)
  }

  /** One to 160 ASCII letters, digits and marks. */
  method ValidateSemanticId(id: Id) returns (ok: bool)
    ensures ok <==> SemanticId(id)
  {
    if id.text == "" || |id.text| > 160 { return false; }
    for i := 0 to |id.text|
      invariant forall k :: 0 <= k < i ==> IdCharacter(id.text[k])
    {
      var c := id.text[i];
      if !('a' <= c <= 'z' || 'A' <= c <= 'Z' || '0' <= c <= '9' || c in "._-/:") {
        assert c in id.text;
        return false;
      }
    }
    ok := true;
  }

  /** Every identifier well formed, none twice, none used before. */
  ghost predicate Fresh(ids: seq<Id>, used: set<Id>) {
    (forall i :: 0 <= i < |ids| ==> SemanticId(ids[i]) && ids[i] !in used)
    && forall i, j :: 0 <= i < j < |ids| ==> ids[i] != ids[j]
  }

  function Elements(ids: seq<Id>): set<Id> {
    set id | id in ids
  }

  lemma FreshSplits(a: seq<Id>, b: seq<Id>, used: set<Id>)
    ensures Fresh(a + b, used) <==> Fresh(a, used) && Fresh(b, used + Elements(a))
    ensures Elements(a + b) == Elements(a) + Elements(b)
  {
    var ids := a + b;
    assert forall i :: 0 <= i < |a| ==> ids[i] == a[i];
    assert forall i :: 0 <= i < |b| ==> ids[|a| + i] == b[i];
    if Fresh(ids, used) {
      forall i | 0 <= i < |b| ensures SemanticId(b[i]) && b[i] !in used + Elements(a) {
        assert ids[|a| + i] == b[i];
      }
      forall i, j | 0 <= i < j < |b| ensures b[i] != b[j] {
        assert ids[|a| + i] != ids[|a| + j];
      }
    }
    if Fresh(a, used) && Fresh(b, used + Elements(a)) {
      forall i, j | 0 <= i < j < |ids| ensures ids[i] != ids[j] {
        if i < |a| <= j {
          assert a[i] in Elements(a);
        }
      }
    }
  }

  // ----- expressions

  function Reads(e: Expression): set<Id> {
    match e
    case Input => {}
    case Literal(_) => {}
    case Binding(name) => {name}
    case Object(fields) => FieldReads(fields)
    case Array(items) => ItemReads(items)
  }

  function FieldReads(fields: seq<Field>): set<Id> {
    if fields == [] then {} else Reads(fields[0].item) + FieldReads(fields[1..])
  }

  function ItemReads(items: seq<Expression>): set<Id> {
    if items == [] then {} else Reads(items[0]) + ItemReads(items[1..])
  }

  /** Every binding the expression names is in `bindings`, checked left to right. */
  predicate ValidateExpression(e: Expression, bindings: set<Id>)
    ensures ValidateExpression(e, bindings) <==> Reads(e) <= bindings
  {
    match e
    case Input => true
    case Literal(_) => true
    case Binding(name) => name in bindings
    case Object(fields) => ValidateFields(fields, bindings)
    case Array(items) => ValidateItems(items, bindings)
  }

  predicate ValidateFields(fields: seq<Field>, bindings: set<Id>)
    ensures ValidateFields(fields, bindings) <==> FieldReads(fields) <= bindings
  {
    fields == [] || (ValidateExpression(fields[0].item, bindings) && ValidateFields(fields[1..], bindings))
  }

  predicate ValidateItems(items: seq<Expression>, bindings: set<Id>)
    ensures ValidateItems(items, bindings) <==> ItemReads(items) <= bindings
  {
    items == [] || (ValidateExpression(items[0], bindings) && ValidateItems(items[1..], bindings))
  }

  // ----- regions

  function Bound(bind: Option<Id>): set<Id> {
    if bind.Some? then {bind.value} else {}
  }

  /** Whatever a wait names is well formed, and so is the schema of an input. */
  ghost predicate WaitOk(checks: Checks, wait: WaitSpec) {
    && (wait.Signal? ==> SemanticId(wait.key))
    && (wait.Timer? ==> SemanticId(wait.timer))
    && (wait.InputWait? ==> SemanticId(wait.correlation) && checks.schema(wait.schema))
  }

  method ValidateWait(checks: Checks, wait: WaitSpec) returns (ok: bool)
    ensures ok <==> WaitOk(checks, wait)
  {
    match wait
    case Signal(key) => ok := ValidateSemanticId(key);
    case Timer(timer) => ok := ValidateSemanticId(timer);
    case InputWait(correlation, schema) =>
      ok := ValidateSemanticId(correlation);
      ok := ok && checks.schema(schema);
  }

  /** The step refers to known contracts and reads only `visible` names. */
  ghost predicate StepScoped(checks: Checks, known: Known, step: Step, visible: set<Id>)
    decreases step
  {
    match step.operation
    case Call(component, input, _) => component in known.components && Reads(input) <= visible
    case Invoke(definition, input, _) => definition in known.definitions && Reads(input) <= visible
    case Wait(wait, _) => WaitOk(checks, wait)
    case Effect(effect, input, occurrence, bind) =>
      && effect in known.effects
      && (bind.Some? ==> known.effects[effect] == Profile(Observational, Eager))
      && SemanticId(occurrence)
      && Reads(input) <= visible
    case Scope(body, _) => RegionScoped(checks, known, body.steps, body.result, visible)
  }

  /** Each step in turn reads only names bound before it in this or an enclosing
      region, and binds a name not visible there. */
  ghost predicate RegionScoped(checks: Checks, known: Known, steps: seq<Step>, result: Expression, visible: set<Id>)
    decreases steps
  {
    if steps == [] then Reads(result) <= visible
    else
      var op := steps[0].operation;
      && StepScoped(checks, known, steps[0], visible)
      && (op.bind.Some? ==> SemanticId(op.bind.value) && op.bind.value !in visible)
      && RegionScoped(checks, known, steps[1..], result, visible + Bound(op.bind))
  }

  /** Site identifiers in the order validation meets them. */
  function Sites(steps: seq<Step>): seq<Id>
    decreases steps
  {
    if steps == [] then []
    else [steps[0].id] + NestedSites(steps[0]) + Sites(steps[1..])
  }

  function NestedSites(step: Step): seq<Id>
    decreases step
  {
    if step.operation.Scope? then Sites(step.operation.body.steps) else []
  }

  /** One step: its own site, its references, then any nested region. */
  method ValidateStep(checks: Checks, known: Known, step: Step, sites0: set<Id>, visible: set<Id>)
    returns (ok: bool, sites: set<Id>)
    ensures ok <==> StepScoped(checks, known, step, visible) && Fresh([step.id] + NestedSites(step), sites0)
    ensures ok ==> sites == sites0 + Elements([step.id] + NestedSites(step))
    decreases step, 0
  {
    hide Fresh;
    sites := sites0;
    FreshSplits([step.id], NestedSites(step), sites);
    FreshOne(step.id, sites);
    FreshNone(sites + {step.id});
    ok := ValidateSemanticId(step.id);
    if !ok || step.id in sites { return false, sites; }
    sites := sites + {step.id};
    match step.operation
    case Call(component, input, _) =>
      ok := component in known.components && ValidateExpression(input, visible);
    case Invoke(definition, input, _) =>
      ok := definition in known.definitions && ValidateExpression(input, visible);
    case Wait(wait, _) =>
      ok := ValidateWait(checks, wait);
    case Effect(effect, input, occurrence, bind) =>
      if effect !in known.effects { return false, sites; }
      var profile := known.effects[effect];
      if bind.Some? && (profile.mutation != Observational || profile.dispatch != Eager) { return false, sites; }
      ok := ValidateSemanticId(occurrence);
      ok := ok && ValidateExpression(input, visible);
    case Scope(body, _) =>
      ok, sites := ValidateRegion(checks, known, body, sites, visible);
  }

  /** Walks one region, adding its sites to `sites0`. */
  method ValidateRegion(checks: Checks, known: Known, region: Region, sites0: set<Id>, inherited: set<Id>)
    returns (ok: bool, sites: set<Id>)
    ensures ok <==> RegionScoped(checks, known, region.steps, region.result, inherited) && Fresh(Sites(region.steps), sites0)
    ensures ok ==> sites == sites0 + Elements(Sites(region.steps))
    decreases region, 1
  {
    hide Fresh;
    hide StepScoped;
    hide NestedSites;
    sites := sites0;
    var bindings := inherited;
    ghost var all := Sites(region.steps);
    for i := 0 to |region.steps|
      invariant RegionScoped(checks, known, region.steps, region.result, inherited)
        <==> RegionScoped(checks, known, region.steps[i..], region.result, bindings)
      invariant Fresh(all, sites0) <==> Fresh(Sites(region.steps[i..]), sites)
      invariant sites0 + Elements(all) == sites + Elements(Sites(region.steps[i..]))
    {
      var step := region.steps[i];
      ghost var rest := region.steps[i..];
      assert rest[0] == step && rest[1..] == region.steps[i + 1..];
      FreshSplits([step.id] + NestedSites(step), Sites(rest[1..]), sites);
      ghost var visible := bindings;
      var here;
      here, sites := ValidateStep(checks, known, step, sites, bindings);
      if !here { return false, sites; }
      if step.operation.bind.Some? {
        var binding := step.operation.bind.value;
        ok := ValidateSemanticId(binding);
        if !ok || binding in bindings { return false, sites; }
        bindings := bindings + {binding};
      }
      assert bindings == visible + Bound(step.operation.bind);
    }
    FreshNone(sites);
    ok := ValidateExpression(region.result, bindings);
  }

  lemma FreshNone(used: set<Id>)
    ensures Fresh([], used) && Elements([]) == {}
  {
  }

  lemma FreshOne(id: Id, used: set<Id>)
    ensures Fresh([id], used) <==> SemanticId(id) && id !in used
    ensures Elements([id]) == {id}
  {
    assert [id][0] == id;
  }

  // ----- the whole candidate

  function ComponentIds(c: Candidate): seq<Id> { seq(|c.components|, i requires 0 <= i < |c.components| => c.components[i].id) }
  function EffectIds(c: Candidate): seq<Id> { seq(|c.effects|, i requires 0 <= i < |c.effects| => c.effects[i].id) }
  function DefinitionIds(c: Candidate): seq<Id> { seq(|c.definitions|, i requires 0 <= i < |c.definitions| => c.definitions[i].id) }

  /** The profile recorded for each effect; a later contract replaces an earlier one. */
  function Profiles(effects: seq<EffectContract>): map<Id, Profile> {
    if effects == [] then map[]
    else Profiles(effects[..|effects| - 1])[effects[|effects| - 1].id := effects[|effects| - 1].profile]
  }

  function KnownTo(c: Candidate): Known {
    Known(Elements(ComponentIds(c)), Profiles(c.effects), Elements(DefinitionIds(c)))
  }

  function AllSites(definitions: seq<Definition>): seq<Id> {
    if definitions == [] then [] else Sites(definitions[0].body.steps) + AllSites(definitions[1..])
  }

  /** Definitions a region invokes, nested regions included. */
  function Invoked(steps: seq<Step>): set<Id>
    decreases steps
  {
    if steps == [] then {} else InvokedBy(steps[0]) + Invoked(steps[1..])
  }

  function InvokedBy(step: Step): set<Id>
    decreases step
  {
    match step.operation
    case Invoke(definition, _, _) => {definition}
    case Scope(body, _) => Invoked(body.steps)
    case _ => {}
  }

  /** The invocation graph: each definition with everything its body invokes. A
      repeated identifier keeps its last body, as collecting into a map does. */
  function InvocationEdges(definitions: seq<Definition>): Graph<Id> {
    if definitions == [] then map[]
    else
      var last := definitions[|definitions| - 1];
      InvocationEdges(definitions[..|definitions| - 1])[last.id := Invoked(last.body.steps)]
  }

  ghost predicate ComponentOk(checks: Checks, contract: ComponentContract) {
    checks.schema(contract.inputSchema) && checks.schema(contract.outputSchema) && checks.artifactKind(contract.artifactKind)
  }

  ghost predicate EffectOk(checks: Checks, contract: EffectContract) {
    checks.schema(contract.inputSchema) && checks.schema(contract.outputSchema)
    && !(contract.profile.mutation.Mutating? && contract.profile.dispatch.Eager?)
  }

  ghost predicate DefinitionOk(checks: Checks, known: Known, definition: Definition) {
    checks.schema(definition.inputSchema) && checks.schema(definition.outputSchema)
    && RegionScoped(checks, known, definition.body.steps, definition.body.result, {})
  }

  /** One closed, executable graph. */
  ghost predicate Accepted(checks: Checks, c: Candidate) {
    && c.irVersion == IR_VERSION && SemanticId(c.name)
    && Fresh(ComponentIds(c), {}) && Fresh(EffectIds(c), {}) && Fresh(DefinitionIds(c), {})
    && (forall i :: 0 <= i < |c.components| ==> ComponentOk(checks, c.components[i]))
    && (forall i :: 0 <= i < |c.effects| ==> EffectOk(checks, c.effects[i]))
    && c.entry in Elements(DefinitionIds(c))
    && (forall i :: 0 <= i < |c.definitions| ==> DefinitionOk(checks, KnownTo(c), c.definitions[i]))
    && Fresh(AllSites(c.definitions), {})
    && !Cyclic(InvocationEdges(c.definitions))
  }

  lemma IdsAreListed(c: Candidate)
    ensures |ComponentIds(c)| == |c.components| && |EffectIds(c)| == |c.effects| && |DefinitionIds(c)| == |c.definitions|
    ensures forall i :: 0 <= i < |c.components| ==> ComponentIds(c)[i] == c.components[i].id
    ensures forall i :: 0 <= i < |c.effects| ==> EffectIds(c)[i] == c.effects[i].id
    ensures forall i :: 0 <= i < |c.definitions| ==> DefinitionIds(c)[i] == c.definitions[i].id
  {
  }

  /** Identifiers are well formed and distinct exactly when those of the contracts are. */
  lemma UniqueExactly(c: Candidate)
    ensures Fresh(ComponentIds(c), {}) <==>
      && (forall i :: 0 <= i < |c.components| ==> SemanticId(c.components[i].id))
      && forall i, j :: 0 <= i < j < |c.components| ==> c.components[i].id != c.components[j].id
    ensures Fresh(EffectIds(c), {}) <==>
      && (forall i :: 0 <= i < |c.effects| ==> SemanticId(c.effects[i].id))
      && forall i, j :: 0 <= i < j < |c.effects| ==> c.effects[i].id != c.effects[j].id
    ensures Fresh(DefinitionIds(c), {}) <==>
      && (forall i :: 0 <= i < |c.definitions| ==> SemanticId(c.definitions[i].id))
      && forall i, j :: 0 <= i < j < |c.definitions| ==> c.definitions[i].id != c.definitions[j].id
  {
    hide SemanticId;
    IdsAreListed(c);
    hide ComponentIds;
    hide EffectIds;
    hide DefinitionIds;
  }

  /** A region may refer to just the contracts there are, and an effect has its own profile. */
  lemma KnownExactly(c: Candidate)
    ensures forall id :: id in KnownTo(c).components <==> exists i :: 0 <= i < |c.components| && c.components[i].id == id
    ensures forall id :: id in KnownTo(c).definitions <==> exists i :: 0 <= i < |c.definitions| && c.definitions[i].id == id
    ensures forall id :: id in KnownTo(c).effects <==> exists i :: 0 <= i < |c.effects| && c.effects[i].id == id
    ensures Fresh(EffectIds(c), {}) ==> forall i :: 0 <= i < |c.effects| ==>
      c.effects[i].id in KnownTo(c).effects && KnownTo(c).effects[c.effects[i].id] == c.effects[i].profile
  {
    UniqueExactly(c);
    ProfilesExactly(c.effects);
    IdsAreListed(c);
    hide Fresh;
    hide ComponentIds;
    hide EffectIds;
    hide DefinitionIds;
  }

  lemma {:induction false} ProfilesExactly(effects: seq<EffectContract>)
    ensures forall id :: id in Profiles(effects) <==> exists i :: 0 <= i < |effects| && effects[i].id == id
    ensures (forall i, j :: 0 <= i < j < |effects| ==> effects[i].id != effects[j].id) ==>
      forall i :: 0 <= i < |effects| ==> effects[i].id in Profiles(effects) && Profiles(effects)[effects[i].id] == effects[i].profile
  {
    if effects != [] {
      var front := effects[..|effects| - 1];
      ProfilesExactly(front);
      assert forall i :: 0 <= i < |front| ==> front[i] == effects[i];
    }
  }

  /** Collects identifiers, refusing a malformed or repeated one. */
  method UniqueContractIds(ids: seq<Id>) returns (ok: bool, unique: set<Id>)
    ensures ok <==> Fresh(ids, {})
    ensures ok ==> unique == Elements(ids)
  {
    unique := {};
    for i := 0 to |ids|
      invariant unique == Elements(ids[..i]) && Fresh(ids[..i], {})
    {
      FreshSplits(ids[..i], [ids[i]], {});
      FreshOne(ids[i], {} + unique);
      assert ids[..i + 1] == ids[..i] + [ids[i]];
      FreshSplits(ids[..i + 1], ids[i + 1..], {});
      assert ids == ids[..i + 1] + ids[i + 1..];
      ok := ValidateSemanticId(ids[i]);
      if !ok || ids[i] in unique { return false, unique; }
      unique := unique + {ids[i]};
    }
    assert ids[..|ids|] == ids;
    ok := true;
  }

  /** Adds everything the region invokes to `targets0`. */
  method CollectInvocations(region: Region, targets0: set<Id>) returns (targets: set<Id>)
    ensures targets == targets0 + Invoked(region.steps)
    decreases region
  {
    targets := targets0;
    for i := 0 to |region.steps|
      invariant targets + Invoked(region.steps[i..]) == targets0 + Invoked(region.steps)
    {
      var step := region.steps[i];
      assert region.steps[i..][0] == step && region.steps[i..][1..] == region.steps[i + 1..];
      match step.operation
      case Invoke(definition, _, _) => targets := targets + {definition};
      case Scope(body, _) => targets := CollectInvocations(body, targets);
      case _ =>
    }
  }

  /** The members of a set in some order. */
  method Listing(s: set<Id>) returns (list: seq<Id>)
    ensures Lists(list, s)
  {
    list := [];
    var rest := s;
    while rest != {}
      invariant rest <= s && forall id :: id in list <==> id in s && id !in rest
    {
      var id :| id in rest;
      list := list + [id];
      rest := rest - {id};
    }
  }

  method ValidateInvocationGraph(definitions: seq<Definition>) returns (ok: bool)
    requires Closed(InvocationEdges(definitions))
    ensures ok <==> !Cyclic(InvocationEdges(definitions))
  {
    ghost var g := InvocationEdges(definitions);
    var targets: map<Id, seq<Id>> := map[];
    for i := 0 to |definitions|
      invariant Edges(targets) == InvocationEdges(definitions[..i])
    {
      var invoked := CollectInvocations(definitions[i].body, {});
      var list := Listing(invoked);
      ghost var before := targets;
      targets := targets[definitions[i].id := list];
      assert definitions[..i + 1][..i] == definitions[..i];
      assert (set t | t in list) == Invoked(definitions[i].body.steps);
      assert Edges(targets) == Edges(before)[definitions[i].id := set t | t in list];
    }
    assert definitions[..|definitions|] == definitions;
    var keys := Listing(targets.Keys);
    assert Edges(targets).Keys == targets.Keys;
    var verdict := ValidateAcyclicGraph(keys, targets);
    ok := verdict.Acyclic?;
  }

  // ----- a scoped plan's invocation graph is closed

  lemma {:induction false} ScopedInvokesKnown(checks: Checks, known: Known, steps: seq<Step>, result: Expression, visible: set<Id>)
    requires RegionScoped(checks, known, steps, result, visible)
    ensures Invoked(steps) <= known.definitions
    decreases steps
  {
    if steps != [] {
      StepInvokesKnown(checks, known, steps[0], visible);
      ScopedInvokesKnown(checks, known, steps[1..], result, visible + Bound(steps[0].operation.bind));
    }
  }

  lemma {:induction false} StepInvokesKnown(checks: Checks, known: Known, step: Step, visible: set<Id>)
    requires StepScoped(checks, known, step, visible)
    ensures InvokedBy(step) <= known.definitions
    decreases step
  {
    if step.operation.Scope? {
      ScopedInvokesKnown(checks, known, step.operation.body.steps, step.operation.body.result, visible);
    }
  }

  lemma {:induction false} EdgesKeys(definitions: seq<Definition>, id: Id)
    ensures id in InvocationEdges(definitions) <==> exists i :: 0 <= i < |definitions| && definitions[i].id == id
  {
    if definitions != [] {
      var front := definitions[..|definitions| - 1];
      EdgesKeys(front, id);
      assert forall i :: 0 <= i < |front| ==> front[i] == definitions[i];
    }
  }

  lemma {:induction false} EdgesOf(definitions: seq<Definition>, id: Id) returns (i: nat)
    requires id in InvocationEdges(definitions)
    ensures i < |definitions| && definitions[i].id == id
    ensures InvocationEdges(definitions)[id] == Invoked(definitions[i].body.steps)
  {
    i := |definitions| - 1;
    if definitions[i].id != id {
      i := EdgesOf(definitions[..|definitions| - 1], id);
    }
  }

  lemma ScopedGraphCloses(checks: Checks, c: Candidate)
    requires forall i :: 0 <= i < |c.definitions| ==> DefinitionOk(checks, KnownTo(c), c.definitions[i])
    ensures Closed(InvocationEdges(c.definitions))
    ensures InvocationEdges(c.definitions).Keys == Elements(DefinitionIds(c))
  {
    var g := InvocationEdges(c.definitions);
    forall id ensures id in g <==> id in Elements(DefinitionIds(c)) {
      EdgesKeys(c.definitions, id);
      if i :| 0 <= i < |c.definitions| && c.definitions[i].id == id {
        assert DefinitionIds(c)[i] == id;
      }
    }
    forall id | id in g ensures g[id] <= g.Keys {
      var i := EdgesOf(c.definitions, id);
      var d := c.definitions[i];
      ScopedInvokesKnown(checks, KnownTo(c), d.body.steps, d.body.result, {});
    }
  }

  // ----- validation

  method ValidateContracts(checks: Checks, c: Candidate) returns (ok: bool)
    ensures ok <==> (
      && (forall i :: 0 <= i < |c.components| ==> ComponentOk(checks, c.components[i]))
      && (forall i :: 0 <= i < |c.effects| ==> EffectOk(checks, c.effects[i])))
  {
    for i := 0 to |c.components|
      invariant forall k :: 0 <= k < i ==> ComponentOk(checks, c.components[k])
    {
      var contract := c.components[i];
      if !checks.schema(contract.inputSchema) || !checks.schema(contract.outputSchema)
         || !checks.artifactKind(contract.artifactKind) {
        assert !ComponentOk(checks, c.components[i]);
        return false;
      }
    }
    for i := 0 to |c.effects|
      invariant forall k :: 0 <= k < i ==> EffectOk(checks, c.effects[k])
    {
      var contract := c.effects[i];
      if !checks.schema(contract.inputSchema) || !checks.schema(contract.outputSchema)
         || (contract.profile.mutation.Mutating? && contract.profile.dispatch.Eager?) {
        assert !EffectOk(checks, c.effects[i]);
        return false;
      }
    }
    ok := true;
  }

  /** Checks every definition, threading one set of sites through all of them. */
  method ValidateDefinitions(checks: Checks, known: Known, definitions: seq<Definition>) returns (ok: bool)
    ensures ok <==> (
      && (forall i :: 0 <= i < |definitions| ==> DefinitionOk(checks, known, definitions[i]))
      && Fresh(AllSites(definitions), {}))
  {
    hide Fresh;
    hide RegionScoped;
    var sites: set<Id> := {};
    for i := 0 to |definitions|
      invariant forall k :: 0 <= k < i ==> DefinitionOk(checks, known, definitions[k])
      invariant Fresh(AllSites(definitions), {}) <==> Fresh(AllSites(definitions[i..]), sites)
    {
      var definition := definitions[i];
      assert definitions[i..][0] == definition && definitions[i..][1..] == definitions[i + 1..];
      FreshSplits(Sites(definition.body.steps), AllSites(definitions[i + 1..]), sites);
      if !checks.schema(definition.inputSchema) || !checks.schema(definition.outputSchema) {
        assert !DefinitionOk(checks, known, definitions[i]);
        return false;
      }
      var here;
      here, sites := ValidateRegion(checks, known, definition.body, sites, {});
      if !here {
        assert DefinitionOk(checks, known, definitions[i]) ==> !Fresh(AllSites(definitions), {});
        return false;
      }
    }
    FreshNone(sites);
    ok := true;
  }

  /** Accepts exactly the candidates that are one closed, executable graph. */
  method Validate(checks: Checks, c: Candidate) returns (ok: bool)
    ensures ok <==> Accepted(checks, c)
  {
    hide Fresh;
    hide ComponentOk;
    hide EffectOk;
    hide DefinitionOk;
    hide InvocationEdges;
    ok := ValidateSemanticId(c.name);
    if c.irVersion != IR_VERSION || !ok { return false; }
    var unique;
    var components, effects, definitions;
    unique, components := UniqueContractIds(ComponentIds(c));
    if !unique { return false; }
    unique, effects := UniqueContractIds(EffectIds(c));
    if !unique { return false; }
    ok := ValidateContracts(checks, c);
    if !ok { return; }
    unique, definitions := UniqueContractIds(DefinitionIds(c));
    if !unique || c.entry !in definitions { return false; }
    ok := ValidateDefinitions(checks, Known(components, Profiles(c.effects), definitions), c.definitions);
    if !ok { return; }
    ScopedGraphCloses(checks, c);
    ok := ValidateInvocationGraph(c.definitions);
  }
}
