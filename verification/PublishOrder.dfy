/** The dependency-first release order
    (scripts/crates_release.py, deterministic_publish_order, and its twin
    deterministic_release_catalog_order in scripts/version_domains.py). */
module PublishOrder {
  import opened Graphs

  datatype Name = Name(text: string)

  datatype Result =
    | Ordered(order: seq<Name>)
    | UnknownDependencies(names: set<Name>)
    | IncompletePreference
    | Cycle(names: set<Name>)

  function Elements(order: seq<Name>): set<Name> {
    set n | n in order
  }

  ghost predicate NoRepeats(order: seq<Name>) {
    forall i, j :: 0 <= i < j < |order| ==> order[i] != order[j]
  }

  function Unknown(deps: Graph<Name>): set<Name> {
    set n, d | n in deps && d in deps[n] && d !in deps :: d
  }

  /** Something depends on `d`. */
  ghost predicate Required(deps: Graph<Name>, d: Name) { exists n :: n in deps && d in deps[n] }

  ghost predicate Complete(deps: Graph<Name>, preference: seq<Name>) {
    NoRepeats(preference) && Lists(preference, deps.Keys)
  }

  /** Every name once, each after everything it depends on. */
  ghost predicate DependencyFirst(deps: Graph<Name>, order: seq<Name>) {
    Complete(deps, order) && SuccessorsFirst(deps, order)
  }

  ghost function Position(preference: seq<Name>, n: Name): nat
    requires n in preference
    ensures Position(preference, n) < |preference| && preference[Position(preference, n)] == n
  {
    var i :| 0 <= i < |preference| && preference[i] == n;
    i
  }

  /** `a` comes before `b` in the order of positions in `preference`. */
  ghost predicate Precedes(preference: seq<Name>, a: seq<Name>, b: seq<Name>) {
    exists i :: DiffersAt(preference, a, b, i)
  }

  ghost predicate DiffersAt(preference: seq<Name>, a: seq<Name>, b: seq<Name>, i: nat) {
    && i < |a| && i < |b| && a[..i] == b[..i]
    && a[i] in preference && b[i] in preference
    && Position(preference, a[i]) < Position(preference, b[i])
  }

  ghost predicate DependsOnCycle(deps: Graph<Name>, n: Name) {
    exists c :: Reaches(deps, c, c) && (n == c || Reaches(deps, n, c))
  }

  /** Each pick is the first in preference among everything then publishable. */
  ghost predicate Greedy(deps: Graph<Name>, preference: seq<Name>, order: seq<Name>) {
    forall i, n :: 0 <= i < |order| ==> NotPassedOver(deps, preference, order, i, n)
  }

  ghost predicate NotPassedOver(deps: Graph<Name>, preference: seq<Name>, order: seq<Name>, i: nat, n: Name)
    requires i < |order|
  {
    n !in order[..i] && Publishable(deps, Elements(order[..i]), n) ==> PositionLe(preference, order[i], n)
  }

  /** Everything `n` depends on is placed. */
  ghost predicate Publishable(deps: Graph<Name>, placed: set<Name>, n: Name) {
    n in deps && deps[n] <= placed
  }

  ghost predicate PositionLe(preference: seq<Name>, a: Name, b: Name) {
    a in preference && b in preference && Position(preference, a) <= Position(preference, b)
  }

  // ----- counting

  lemma {:induction false} CountAtMost(order: seq<Name>)
    ensures |Elements(order)| <= |order|
    ensures NoRepeats(order) ==> |Elements(order)| == |order|
  {
    if order != [] {
      var last, rest := order[|order| - 1], order[..|order| - 1];
      CountAtMost(rest);
      assert order == rest + [last];
      assert Elements(order) == Elements(rest) + {last};
    }
  }

  lemma ElementsCount(order: seq<Name>)
    ensures |Elements(order)| <= |order|
    ensures |Elements(order)| == |order| <==> NoRepeats(order)
  {
    CountAtMost(order);
    if i, j :| 0 <= i < j < |order| && order[i] == order[j] {
      var rest := order[..j] + order[j + 1..];
      assert rest[i] == order[j];
      forall n | n in order ensures n in rest {
        var k :| 0 <= k < |order| && order[k] == n;
        assert n == rest[if k < j then k else if k == j then i else k - 1];
      }
      assert Elements(order) == Elements(rest);
      CountAtMost(rest);
    }
  }

  lemma PositionAt(preference: seq<Name>, i: nat)
    requires NoRepeats(preference) && i < |preference|
    ensures Position(preference, preference[i]) == i
  {
    var j := Position(preference, preference[i]);
    assert preference[j] == preference[i];
  }

  // ----- what the greedy order means

  lemma PrefixHasNoLater(order: seq<Name>, i: nat)
    requires NoRepeats(order) && i < |order|
    ensures order[i] !in order[..i]
  {
  }

  lemma PickIsPublishable(deps: Graph<Name>, order: seq<Name>, i: nat)
    requires DependencyFirst(deps, order) && i < |order|
    ensures order[i] !in order[..i] && Publishable(deps, Elements(order[..i]), order[i])
  {
    PrefixHasNoLater(order, i);
  }

  /** Where two orders part, the greedy one took the name preferred. */
  lemma GreedyPick(deps: Graph<Name>, preference: seq<Name>, order: seq<Name>, other: seq<Name>, i: nat)
    requires DependencyFirst(deps, other) && Greedy(deps, preference, order)
    requires i < |order| && i < |other| && order[..i] == other[..i] && order[i] != other[i]
    ensures DiffersAt(preference, order, other, i)
  {
    hide DependencyFirst;
    hide Publishable;
    PickIsPublishable(deps, other, i);
    assert NotPassedOver(deps, preference, order, i, other[i]);
    assert preference[Position(preference, order[i])] != preference[Position(preference, other[i])];
  }

  /** Until they part, both orders have placed the same names, so the greedy pick
      is the earlier one where they part. */
  lemma {:induction false} GreedyPrecedes(deps: Graph<Name>, preference: seq<Name>, order: seq<Name>, other: seq<Name>, i: nat)
    requires DependencyFirst(deps, other) && Greedy(deps, preference, order)
    requires |order| == |other| && i <= |order| && order[..i] == other[..i]
    ensures other == order || Precedes(preference, order, other)
    decreases |order| - i
  {
    hide DependencyFirst;
    hide Greedy;
    if i == |order| {
      assert order == order[..i] && other == other[..i];
    } else if order[i] == other[i] {
      assert order[..i + 1] == order[..i] + [order[i]];
      assert other[..i + 1] == other[..i] + [other[i]];
      GreedyPrecedes(deps, preference, order, other, i + 1);
    } else {
      GreedyPick(deps, preference, order, other, i);
    }
  }

  /** No order without repeats comes before the preference itself. */
  lemma PreferenceComesFirst(preference: seq<Name>, order: seq<Name>, i: nat)
    requires NoRepeats(preference) && NoRepeats(order)
    requires i < |order| && i < |preference| && order[..i] == preference[..i] && order[i] in preference
    ensures Position(preference, order[i]) >= i == Position(preference, preference[i])
  {
    PositionAt(preference, i);
    PrefixHasNoLater(order, i);
    forall j | 0 <= j < i ensures preference[j] != order[i] {
      assert order[..i][j] == preference[..i][j];
    }
  }

  /** The greedy order is the least one, so it is the preference exactly when the
      preference will do. */
  lemma GreedyIsLeast(deps: Graph<Name>, preference: seq<Name>, order: seq<Name>)
    requires Complete(deps, preference) && DependencyFirst(deps, order) && Greedy(deps, preference, order)
    ensures forall other | DependencyFirst(deps, other) :: other == order || Precedes(preference, order, other)
    ensures order == preference <==> DependencyFirst(deps, preference)
  {
    forall other | DependencyFirst(deps, other)
      ensures other == order || Precedes(preference, order, other)
    {
      ElementsCount(order);
      ElementsCount(other);
      assert Elements(order) == deps.Keys == Elements(other);
      GreedyPrecedes(deps, preference, order, other, 0);
    }
    if DependencyFirst(deps, preference) && order != preference {
      var i :| DiffersAt(preference, order, preference, i);
      PreferenceComesFirst(preference, order, i);
    }
  }

  /** Where nothing more is publishable, exactly the names left over sit on a
      cycle or depend on one. */
  lemma LeftoverDependsOnCycle(deps: Graph<Name>, order: seq<Name>)
    requires Closed(deps) && SuccessorsFirst(deps, order)
    requires forall n :: n in deps && n !in order ==> !(deps[n] <= Elements(order))
    ensures forall n :: n in deps ==> (n !in order <==> DependsOnCycle(deps, n))
  {
    var rest := set n | n in deps && n !in order;
    forall n | n in rest ensures deps[n] * rest != {} {
      var d :| d in deps[n] && d !in Elements(order);
      assert d in deps[n] * rest;
    }
    forall n | n in deps ensures n !in order <==> DependsOnCycle(deps, n) {
      if n !in order {
        var c := NoSinkReachesCycle(deps, rest, n);
      } else if DependsOnCycle(deps, n) {
        PlacedIsFree(deps, order, n);
      }
    }
  }

  lemma PlacedIsFree(deps: Graph<Name>, order: seq<Name>, n: Name)
    requires Closed(deps) && SuccessorsFirst(deps, order) && n in order
    ensures !DependsOnCycle(deps, n)
  {
    hide Closed;
    hide SuccessorsFirst;
    hide Reaches;
    if DependsOnCycle(deps, n) {
      var c :| Reaches(deps, c, c) && (n == c || Reaches(deps, n, c));
      var k :| 0 <= k < |order| && order[k] == n;
      OrderedReachesNoCycle(deps, order, k, c);
    }
  }

  // ----- the loop

  ghost function Unplaced(deps: Graph<Name>, placed: set<Name>, n: Name): nat {
    if n in deps then |deps[n] - placed| else 0
  }

  /** `remaining` counts the unplaced dependencies of each name, `ready` holds the
      unplaced names with none. */
  ghost predicate Counted(deps: Graph<Name>, placed: set<Name>, remaining: map<Name, int>, ready: set<Name>) {
    && remaining.Keys == deps.Keys
    && (forall n :: n in deps ==> remaining[n] == Unplaced(deps, placed, n))
    && ready <= deps.Keys
    && (forall n :: n in ready <==> n !in placed && Publishable(deps, placed, n))
  }

  /** The order so far: no repeats, dependencies first, each pick the best then. */
  ghost predicate PlacedSoFar(deps: Graph<Name>, preference: seq<Name>, order: seq<Name>) {
    NoRepeats(order) && SuccessorsFirst(deps, order) && Greedy(deps, preference, order)
  }

  lemma UnplacedZero(deps: Graph<Name>, placed: set<Name>, n: Name)
    requires n in deps
    ensures Unplaced(deps, placed, n) == 0 <==> Publishable(deps, placed, n)
  {
    if Unplaced(deps, placed, n) == 0 {
      forall x | x in deps[n] ensures x in placed {
        assert x !in deps[n] - placed;
      }
    } else {
      var x :| x in deps[n] - placed;
    }
  }

  lemma PublishableIsKnown(deps: Graph<Name>, placed: set<Name>)
    ensures forall n :: Publishable(deps, placed, n) ==> n in deps
  {
  }

  lemma UnplacedStep(deps: Graph<Name>, placed: set<Name>, p: Name, n: Name)
    requires p !in placed && n in deps
    ensures Unplaced(deps, placed, n) == Unplaced(deps, placed + {p}, n) + if p in deps[n] then 1 else 0
    ensures Publishable(deps, placed, n) <==> p !in deps[n] && Publishable(deps, placed + {p}, n)
  {
    if p in deps[n] {
      assert deps[n] - placed == (deps[n] - (placed + {p})) + {p};
    } else {
      assert deps[n] - placed == deps[n] - (placed + {p});
    }
  }

  lemma NothingPlacedFor(deps: Graph<Name>, n: Name)
    requires n in deps
    ensures Unplaced(deps, {}, n) == |deps[n]|
    ensures |deps[n]| == 0 <==> Publishable(deps, {}, n)
  {
    assert deps[n] - {} == deps[n];
    UnplacedZero(deps, {}, n);
  }

  lemma CountedAtStart(deps: Graph<Name>, remaining: map<Name, int>, ready: set<Name>)
    requires remaining == map n | n in deps :: |deps[n]|
    requires ready == set n | n in deps && remaining[n] == 0
    ensures Counted(deps, {}, remaining, ready)
  {
    hide Unplaced;
    hide Publishable;
    PublishableIsKnown(deps, {});
    forall n | n in deps
      ensures remaining[n] == Unplaced(deps, {}, n) && (remaining[n] == 0 <==> Publishable(deps, {}, n))
    {
      NothingPlacedFor(deps, n);
    }
  }

  /** Counts `p` off every dependent and readies those with nothing left. */
  method Release(deps: Graph<Name>, ghost preference: seq<Name>, rank: map<Name, nat>, ghost placed: set<Name>, p: Name, dependents: set<Name>,
                 remaining0: map<Name, int>, ready0: set<Name>)
    returns (remaining: map<Name, int>, ready: set<Name>)
    requires p in ready0 && RankIs(deps, preference, rank)
    requires Counted(deps, placed, remaining0, ready0)
    requires dependents == set n | n in deps && p in deps[n]
    requires forall n :: n in placed + {p} ==> Publishable(deps, placed, n)
    ensures Counted(deps, placed + {p}, remaining, ready)
  {
    hide Unplaced;
    hide Publishable;
    ghost var after := placed + {p};
    forall n | n in deps
      ensures remaining0[n] == Unplaced(deps, after, n) + if n in dependents then 1 else 0
      ensures Publishable(deps, placed, n) <==> n !in dependents && Publishable(deps, after, n)
      ensures Unplaced(deps, after, n) == 0 <==> Publishable(deps, after, n)
    {
      UnplacedStep(deps, placed, p, n);
      UnplacedZero(deps, after, n);
    }
    PublishableIsKnown(deps, placed);
    PublishableIsKnown(deps, after);
    remaining, ready := remaining0, ready0 - {p};
    var todo := dependents;
    while todo != {}
      invariant todo <= dependents && remaining.Keys == deps.Keys
      invariant forall n :: n in deps ==> remaining[n] == Unplaced(deps, after, n) + if n in todo then 1 else 0
      invariant forall n :: n in ready <==> n !in after && n !in todo && Publishable(deps, after, n)
    {
      LeastExists(rank, todo);
      var dependent :| dependent in todo && forall m :: m in todo ==> rank[dependent] <= rank[m];
      remaining := remaining[dependent := remaining[dependent] - 1];
      todo := todo - {dependent};
      if remaining[dependent] == 0 {
        ready := ready + {dependent};
      }
    }
  }

  lemma {:induction false} LeastExists(rank: map<Name, nat>, s: set<Name>)
    requires s != {} && s <= rank.Keys
    ensures exists n :: n in s && forall m :: m in s ==> rank[n] <= rank[m]
    decreases s
  {
    var n :| n in s;
    if s != {n} {
      LeastExists(rank, s - {n});
      var k :| k in s - {n} && forall m :: m in s - {n} ==> rank[k] <= rank[m];
      var least := if rank[n] <= rank[k] then n else k;
      forall m | m in s ensures rank[least] <= rank[m] {
        if m != n { assert m in s - {n}; }
      }
    }
  }

  /** `rank` holds every name's index in the preference. */
  ghost predicate RankIs(deps: Graph<Name>, preference: seq<Name>, rank: map<Name, nat>) {
    rank.Keys == deps.Keys && forall n :: n in rank ==> n in preference && rank[n] == Position(preference, n)
  }

  /** Pops the heap of ready names: the one ranked first. */
  method LeastReady(deps: Graph<Name>, ghost preference: seq<Name>, rank: map<Name, nat>, ready: set<Name>)
    returns (name: Name)
    requires ready != {} && ready <= deps.Keys && RankIs(deps, preference, rank)
    ensures name in ready && forall m :: m in ready ==> PositionLe(preference, name, m)
  {
    LeastExists(rank, ready);
    name :| name in ready && forall m :: m in ready ==> rank[name] <= rank[m];
  }

  /** Records every name as a dependent of each of its dependencies. */
  method Dependents(deps: Graph<Name>) returns (dependents: map<Name, set<Name>>)
    requires Closed(deps)
    ensures dependents.Keys == deps.Keys
    ensures forall d :: d in deps ==> dependents[d] == set n | n in deps && d in deps[n]
  {
    dependents := map n | n in deps :: {};
    var names := deps.Keys;
    while names != {}
      invariant names <= deps.Keys && dependents.Keys == deps.Keys
      invariant forall d :: d in deps ==> dependents[d] == set n | n in deps && n !in names && d in deps[n]
    {
      var name :| name in names;
      names := names - {name};
      var required := deps[name];
      while required != {}
        invariant required <= deps[name] && dependents.Keys == deps.Keys
        invariant forall d :: d in deps ==>
          dependents[d] == set n | n in deps && n !in names && d in deps[n] && !(n == name && d in required)
      {
        var dependency :| dependency in required;
        assert dependency in deps.Keys;
        dependents := dependents[dependency := dependents[dependency] + {name}];
        required := required - {dependency};
      }
    }
  }

  /** Numbers the preference. */
  method RankOf(preference: seq<Name>) returns (rank: map<Name, nat>)
    requires NoRepeats(preference)
    ensures rank.Keys == Elements(preference)
    ensures forall n :: n in rank ==> rank[n] == Position(preference, n)
  {
    rank := map[];
    for i := 0 to |preference|
      invariant rank.Keys == Elements(preference[..i])
      invariant forall n :: n in rank ==> n in preference && rank[n] == Position(preference, n)
    {
      PositionAt(preference, i);
      assert preference[..i + 1] == preference[..i] + [preference[i]];
      rank := rank[preference[i] := i];
    }
    assert preference[..|preference|] == preference;
  }

  /** Places names until none is ready. */
  method PlaceAll(deps: Graph<Name>, ghost preference: seq<Name>, rank: map<Name, nat>)
    returns (order: seq<Name>, remaining: map<Name, int>)
    requires Closed(deps) && RankIs(deps, preference, rank)
    ensures PlacedSoFar(deps, preference, order)
    ensures Counted(deps, Elements(order), remaining, {})
  {
    hide Unplaced;
    hide Publishable;
    hide PlacedSoFar;
    hide PositionLe;
    hide RankIs;
    remaining := map n | n in deps :: |deps[n]|;
    var dependents := Dependents(deps);
    var ready := set n | n in deps && remaining[n] == 0;
    order := [];
    CountedAtStart(deps, remaining, ready);
    assert Elements(order) == {};
    NothingPlaced(deps, preference);
    while ready != {}
      invariant PlacedSoFar(deps, preference, order)
      invariant Counted(deps, Elements(order), remaining, ready)
      decreases deps.Keys - Elements(order)
    {
      ghost var placed := Elements(order);
      PlacedArePublishable(deps, preference, order);
      var name := LeastReady(deps, preference, rank, ready);
      PlaceNext(deps, preference, order, name);
      remaining, ready := Release(deps, preference, rank, placed, name, dependents[name], remaining, ready);
      order := order + [name];
    }
  }

  lemma NothingPlaced(deps: Graph<Name>, preference: seq<Name>)
    ensures PlacedSoFar(deps, preference, [])
  {
  }

  lemma PlacedArePublishable(deps: Graph<Name>, preference: seq<Name>, order: seq<Name>)
    requires PlacedSoFar(deps, preference, order)
    ensures forall n :: n in Elements(order) ==> Publishable(deps, Elements(order), n)
  {
    forall n | n in Elements(order) ensures Publishable(deps, Elements(order), n) {
      var k :| 0 <= k < |order| && order[k] == n;
    }
  }

  lemma PlaceNext(deps: Graph<Name>, preference: seq<Name>, order: seq<Name>, name: Name)
    requires PlacedSoFar(deps, preference, order)
    requires name !in Elements(order) && Publishable(deps, Elements(order), name)
    requires forall n :: n !in Elements(order) && Publishable(deps, Elements(order), n) ==> PositionLe(preference, name, n)
    ensures PlacedSoFar(deps, preference, order + [name])
    ensures Elements(order + [name]) == Elements(order) + {name}
  {
    SuccessorsFirstExtends(deps, order, name);
    var next := order + [name];
    forall i, n | 0 <= i < |next| ensures NotPassedOver(deps, preference, next, i, n) {
      assert next[..|order|] == order;
      if i < |order| {
        assert next[..i] == order[..i];
        assert NotPassedOver(deps, preference, order, i, n);
      }
    }
  }

  /** The least dependency-first order in the given preference, or the reason there
      is none. */
  method DeterministicPublishOrder(deps: Graph<Name>, preference: seq<Name>) returns (r: Result)
    ensures r.UnknownDependencies? <==> !Closed(deps)
    ensures r.UnknownDependencies? ==> r.names == Unknown(deps)
    ensures r.UnknownDependencies? ==> forall d :: d in r.names <==> d !in deps && Required(deps, d)
    ensures r.IncompletePreference? <==> Closed(deps) && !Complete(deps, preference)
    ensures r.Cycle? <==> Closed(deps) && Complete(deps, preference) && Cyclic(deps)
    ensures r.Cycle? ==> forall n :: n in r.names <==> n in deps && DependsOnCycle(deps, n)
    ensures r.Ordered? ==> DependencyFirst(deps, r.order)
    ensures r.Ordered? ==> forall other | DependencyFirst(deps, other) ::
              other == r.order || Precedes(preference, r.order, other)
    ensures r.Ordered? ==> (r.order == preference <==> DependencyFirst(deps, preference))
  {
    var unknown := Unknown(deps);
    UnknownOpens(deps);
    if unknown != {} {
      return UnknownDependencies(unknown);
    }
    CompleteByCounting(deps, preference);
    if |preference| != |deps.Keys| || Elements(preference) != deps.Keys {
      return IncompletePreference;
    }
    var rank := RankOf(preference);
    var order, remaining := PlaceAll(deps, preference, rank);
    LeftoverIsCounted(deps, preference, order, remaining);
    if |order| != |deps.Keys| {
      r := Cycle(set n | n in deps && remaining[n] > 0);
    } else {
      GreedyIsLeast(deps, preference, order);
      r := Ordered(order);
    }
  }

  lemma UnknownOpens(deps: Graph<Name>)
    ensures Unknown(deps) == {} <==> Closed(deps)
  {
    if Unknown(deps) == {} {
      forall n, d | n in deps && d in deps[n] ensures d in deps {
        assert d !in Unknown(deps);
      }
    } else {
      var d :| d in Unknown(deps);
    }
  }

  lemma CompleteByCounting(deps: Graph<Name>, preference: seq<Name>)
    ensures Complete(deps, preference) <==> |preference| == |deps.Keys| && Elements(preference) == deps.Keys
  {
    ElementsCount(preference);
    if Complete(deps, preference) {
      assert Elements(preference) == deps.Keys;
    }
  }

  /** With nothing ready, the names whose count never reached zero are the ones a
      cycle holds back, and the order is short exactly when there are any. */
  lemma LeftoverIsCounted(deps: Graph<Name>, preference: seq<Name>, order: seq<Name>, remaining: map<Name, int>)
    requires Closed(deps) && PlacedSoFar(deps, preference, order)
    requires Counted(deps, Elements(order), remaining, {})
    ensures forall n :: n in deps ==> (remaining[n] > 0 <==> DependsOnCycle(deps, n))
    ensures |order| == |deps.Keys| <==> Lists(order, deps.Keys)
    ensures |order| == |deps.Keys| <==> !Cyclic(deps)
  {
    hide Counted;
    hide Greedy;
    hide NoRepeats;
    hide DependsOnCycle;
    HeldBack(deps, preference, order, remaining);
    LeftoverDependsOnCycle(deps, order);
    ElementsCount(order);
    assert Elements(order) <= deps.Keys;
    CycleHolds(deps, order);
    if Elements(order) != deps.Keys {
      ProperIsSmaller(Elements(order), deps.Keys);
    }
  }

  lemma HeldBack(deps: Graph<Name>, preference: seq<Name>, order: seq<Name>, remaining: map<Name, int>)
    requires PlacedSoFar(deps, preference, order) && Counted(deps, Elements(order), remaining, {})
    ensures forall n :: n in deps ==> (remaining[n] > 0 <==> n !in order)
    ensures forall n :: n in deps && n !in order ==> !(deps[n] <= Elements(order))
  {
    hide Unplaced;
    hide PlacedSoFar;
    PlacedArePublishable(deps, preference, order);
    forall n | n in deps
      ensures remaining[n] > 0 <==> n !in order
      ensures n !in order ==> !(deps[n] <= Elements(order))
    {
      UnplacedZero(deps, Elements(order), n);
      assert n in order <==> n in Elements(order);
    }
  }

  lemma CycleHolds(deps: Graph<Name>, order: seq<Name>)
    requires forall n :: n in deps ==> (n !in order <==> DependsOnCycle(deps, n))
    requires Elements(order) <= deps.Keys
    ensures Elements(order) != deps.Keys <==> Cyclic(deps)
  {
    forall c | Reaches(deps, c, c) ensures c in deps && c !in order {
      var b := ReachesFirstStep(deps, c, c);
      assert DependsOnCycle(deps, c);
    }
    if Elements(order) != deps.Keys {
      var n :| n in deps && n !in Elements(order);
      assert DependsOnCycle(deps, n);
    }
  }

  lemma ProperIsSmaller(a: set<Name>, b: set<Name>)
    requires a < b
    ensures |a| < |b|
  {
    assert b == a + (b - a);
    assert b - a != {};
  }
}
