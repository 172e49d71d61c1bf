/** The terminal release controller against a remote that loses mutations, refuses
    reads and is changed by others (scripts/finalize_release.py, `converge_release`). */
module ReleaseConvergence {
  import opened Wrappers
  import opened ReleaseVersion
  import opened ReleaseInventory

  /** What one controller is to publish. `inputsOk` is the outcome of the local checks:
      notes that are not blank, a regular asset file and a plain asset name. */
  datatype Plan = Plan(tag: string, title: string, notes: string, assetName: string, content: string, inputsOk: bool)

  // ----- the checks of one release

  datatype Exam = Refused | Missing | Present(asset: Asset)

  predicate MetadataExact(p: Plan, r: Release) {
    r.tag == p.tag && r.title == p.title && !r.prerelease && r.immutable != r.draft && r.notes == p.notes
  }

  /** No asset but the planned one, and that one unless it may be missing. */
  predicate AssetScope(p: Plan, r: Release, allowMissing: bool) {
    && (forall i, j :: 0 <= i < j < |r.assets| ==> r.assets[i].name != r.assets[j].name)
    && (forall i :: 0 <= i < |r.assets| ==> r.assets[i].name == p.assetName)
    && (!allowMissing ==> |r.assets| == 1)
  }

  predicate ExactAsset(p: Plan, a: Asset) {
    a.id > 0 && a.name == p.assetName && a.content == p.content && a.uploaded
  }

  predicate UploadedAssets(r: Release) {
    && (forall i :: 0 <= i < |r.assets| ==> r.assets[i].id > 0 && r.assets[i].uploaded)
    && (forall i, j :: 0 <= i < j < |r.assets| ==> r.assets[i].id != r.assets[j].id && r.assets[i].name != r.assets[j].name)
  }

  function ExactReleaseAsset(p: Plan, r: Release, allowMissing: bool): Exam {
    if !UploadedAssets(r) then Refused
    else if r.assets == [] && allowMissing then Missing
    else if |r.assets| != 1 || !ExactAsset(p, r.assets[0]) then Refused
    else Present(r.assets[0])
  }

  function Examine(p: Plan, r: Release, allowMissing: bool): Exam {
    if !MetadataExact(p, r) || !AssetScope(p, r, allowMissing) then Refused
    else ExactReleaseAsset(p, r, allowMissing)
  }

  ghost predicate HasExactAsset(p: Plan, r: Release) {
    |r.assets| == 1 && ExactAsset(p, r.assets[0])
  }

  /** The three checks together find the planned asset, its absence, or a refusal. */
  lemma ExamineExactly(p: Plan, r: Release, allowMissing: bool)
    ensures var e := Examine(p, r, allowMissing);
      && (e == Missing <==> MetadataExact(p, r) && allowMissing && r.assets == [])
      && (e.Present? <==> MetadataExact(p, r) && HasExactAsset(p, r))
      && (e.Present? ==> r.assets == [e.asset])
  {
  }

  /** A published release as it was planned, field by field. */
  ghost predicate CarriesPlan(p: Plan, r: Release) {
    && r.tag == p.tag && r.title == p.title && r.notes == p.notes
    && !r.draft && !r.prerelease && r.immutable
    && exists id: nat :: id > 0 && r.assets == [Asset(id, p.assetName, p.content, true)]
  }

  /** A draft as it was planned, with or without its asset. */
  ghost predicate DraftsPlan(p: Plan, r: Release) {
    && r.tag == p.tag && r.title == p.title && r.notes == p.notes
    && r.draft && !r.prerelease && !r.immutable
    && (r.assets == [] || exists id: nat :: id > 0 && r.assets == [Asset(id, p.assetName, p.content, true)])
  }

  lemma ExactAssetFields(p: Plan, r: Release)
    ensures HasExactAsset(p, r) <==> exists id: nat :: id > 0 && r.assets == [Asset(id, p.assetName, p.content, true)]
  {
    if HasExactAsset(p, r) {
      var a := r.assets[0];
      assert a == Asset(a.id, p.assetName, p.content, true) && r.assets == [a];
    }
  }

  /** The releases a run takes for its target are exactly those with the plan's fields. */
  lemma TargetFields(p: Plan, r: Release)
    ensures !r.draft ==> (MetadataExact(p, r) && HasExactAsset(p, r) <==> CarriesPlan(p, r))
    ensures TargetOk(p, r) <==> CarriesPlan(p, r) || DraftsPlan(p, r)
  {
    ExactAssetFields(p, r);
    hide HasExactAsset;
  }

  // ----- mutations and their effect on the remote

  datatype Mutation = CreateDraft | Upload | Publish(latest: bool) | MoveLatest(tag: string)

  /** Whatever changes the remote: a mutation applied, with what the controller had read
      and whether it took effect completely, or a change made by others. */
  datatype Event =
    | Applied(mutation: Mutation, read: seq<Release>, before: seq<Release>, after: seq<Release>, complete: bool)
    | Changed(before: seq<Release>, after: seq<Release>)

  function Draft(p: Plan, id: nat): Release {
    Release(id, p.tag, p.title, p.notes, true, false, false, false, [])
  }

  function Uploaded(p: Plan, r: Release, a: Asset): Release {
    if r.tag == p.tag && r.draft && (forall i :: 0 <= i < |r.assets| ==> r.assets[i].name != a.name)
    then r.(assets := r.assets + [a]) else r
  }

  function Published(tag: string, latest: bool, r: Release): Release {
    if r.tag == tag then r.(draft := false, immutable := true, latest := latest)
    else r.(latest := r.latest && !latest)
  }

  function Pointed(tag: string, r: Release): Release { r.(latest := r.tag == tag) }

  ghost predicate UploadedEach(p: Plan, a: Asset, before: seq<Release>, after: seq<Release>) {
    |after| == |before| && forall i :: 0 <= i < |before| ==> after[i] == Uploaded(p, before[i], a)
  }

  ghost predicate PublishedEach(tag: string, latest: bool, before: seq<Release>, after: seq<Release>) {
    |after| == |before| && forall i :: 0 <= i < |before| ==> after[i] == Published(tag, latest, before[i])
  }

  ghost predicate PointedEach(tag: string, before: seq<Release>, after: seq<Release>) {
    |after| == |before| && forall i :: 0 <= i < |before| ==> after[i] == Pointed(tag, before[i])
  }

  ghost predicate Fresh(rs: seq<Release>, id: nat) {
    id > 0 && forall i :: 0 <= i < |rs| ==> rs[i].id != id
  }

  /** What the remote does with a mutation. It never makes a second release for a tag,
      never replaces an asset and never adds one to a published release. */
  ghost predicate Effect(p: Plan, m: Mutation, before: seq<Release>, after: seq<Release>, complete: bool) {
    match m
    case CreateDraft =>
      if InventoryRecord(before, p.tag).Some? then after == before
      else exists id :: Fresh(before, id) && after == before + [Draft(p, id)]
    case Upload =>
      exists id: nat :: id > 0 && UploadedEach(p, Asset(id, p.assetName, p.content, complete), before, after)
    case Publish(latest) =>
      if InventoryRecord(before, p.tag).None? then after == before
      else PublishedEach(p.tag, latest, before, after)
    case MoveLatest(tag) =>
      if InventoryRecord(before, tag).None? then after == before
      else PointedEach(tag, before, after)
  }

  // ----- what every decision rests on

  ghost predicate NoneAbove(rs: seq<Release>, tag: string) {
    StableTagVersion(tag).Some? && forall s :: s in rs && IsStable(s) ==> !Less(StableTagVersion(tag).value, VersionOf(s))
  }

  /** The mutation is warranted by what the controller read. */
  ghost predicate Warranted(p: Plan, m: Mutation, read: seq<Release>) {
    InventoryOk(read) &&
    var target := InventoryRecord(read, p.tag);
    match m
    case CreateDraft => target.None?
    case Upload => target.Some? && MetadataExact(p, target.value) && target.value.draft && target.value.assets == []
    case Publish(latest) =>
      && target.Some? && MetadataExact(p, target.value) && HasExactAsset(p, target.value)
      && StableTagVersion(p.tag).Some? && (latest <==> NoneAbove(read, p.tag))
      && (target.value.draft || target.value.latest != latest)
    case MoveLatest(tag) =>
      exists r: Release :: r.tag == tag && IsHighest(read, r) && !LatestIsHighest(read)
  }

  /** A release stays the release it was: only drafts are published, only an empty
      draft gains an asset, and releases of other tags change in Latest alone. */
  ghost predicate Kept(p: Plan, r: Release, s: Release) {
    && s.id == r.id && s.tag == r.tag && s.title == r.title && s.notes == r.notes && s.prerelease == r.prerelease
    && (!r.draft ==> !s.draft && s.assets == r.assets)
    && (r.assets != [] ==> s.assets == r.assets)
    && (r.tag != p.tag ==> s == r.(latest := s.latest))
  }

  ghost predicate AllKept(p: Plan, before: seq<Release>, after: seq<Release>) {
    |before| <= |after| && forall i :: 0 <= i < |before| ==> Kept(p, before[i], after[i])
  }

  // ----- where a run can end

  ghost predicate TargetOk(p: Plan, r: Release) {
    MetadataExact(p, r) && (HasExactAsset(p, r) || (r.draft && r.assets == []))
  }

  /** The inputs and the remote let a run finish. */
  ghost predicate Convergible(p: Plan, rs: seq<Release>) {
    && p.inputsOk && StableTagVersion(p.tag).Some? && InventoryOk(rs)
    && (InventoryRecord(rs, p.tag).Some? ==> TargetOk(p, InventoryRecord(rs, p.tag).value))
  }

  /** The terminal state: the target is published with exactly its asset, and Latest is
      the highest stable release. */
  ghost predicate Converged(p: Plan, rs: seq<Release>) {
    && Convergible(p, rs) && LatestIsHighest(rs)
    && InventoryRecord(rs, p.tag).Some?
    && !InventoryRecord(rs, p.tag).value.draft
  }

  lemma ConvergedIsPublished(p: Plan, rs: seq<Release>)
    requires Converged(p, rs)
    ensures var r := InventoryRecord(rs, p.tag).value; MetadataExact(p, r) && r.immutable && HasExactAsset(p, r) && IsStable(r)
    ensures exists l :: l in rs && l.latest && IsHighest(rs, l) && forall m :: m in rs && m.latest ==> m == l
  {
    hide StableTagVersion;
    var l :| l in rs && l.latest && IsHighest(rs, l);
    forall m | m in rs && m.latest ensures m == l {
      var i :| 0 <= i < |rs| && rs[i] == m;
      var j :| 0 <= j < |rs| && rs[j] == l;
    }
  }

  // ----- effects keep releases and convergibility

  lemma RecordIsUnique(rs: seq<Release>, tag: string, r: Release)
    requires DistinctIdentities(rs) && r in rs && r.tag == tag
    ensures InventoryRecord(rs, tag) == Some(r)
  {
    var i :| 0 <= i < |rs| && rs[i] == r;
    var s := InventoryRecord(rs, tag).value;
    var j :| 0 <= j < |rs| && rs[j] == s;
  }

  lemma WarrantedKeeps(p: Plan, m: Mutation, before: seq<Release>, after: seq<Release>, complete: bool)
    requires Warranted(p, m, before) && Effect(p, m, before, after, complete)
    ensures AllKept(p, before, after)
  {
    hide StableTagVersion;
    hide IsHighest;
    hide LatestIsHighest;
    hide NoneAbove;
    match m
    case CreateDraft =>
    case Upload =>
      forall i | 0 <= i < |before| ensures Kept(p, before[i], after[i]) {
        if before[i].tag == p.tag { RecordIsUnique(before, p.tag, before[i]); }
      }
    case Publish(latest) =>
      forall i | 0 <= i < |before| ensures Kept(p, before[i], after[i]) {
        if before[i].tag == p.tag { RecordIsUnique(before, p.tag, before[i]); }
      }
    case MoveLatest(tag) =>
  }

  /** A terminal state warrants no mutation. */
  lemma NothingLeftToDo(p: Plan, m: Mutation, read: seq<Release>)
    requires Warranted(p, m, read)
    ensures !Converged(p, read)
  {
    if Converged(p, read) {
      hide StableTagVersion;
      var r := InventoryRecord(read, p.tag).value;
      if m.Publish? {
        var l :| l in read && l.latest && IsHighest(read, l);
        if r.latest {
          SameLatest(read, r, l);
        } else if NoneAbove(read, p.tag) {
          assert IsHighest(read, r);
          HighestIsUnique(read, r, l);
        }
      }
      assert false;
    }
  }

  lemma SameLatest(rs: seq<Release>, r: Release, l: Release)
    requires LatestIsSound(rs) && r in rs && l in rs && r.latest && l.latest
    ensures r == l
  {
    var i :| 0 <= i < |rs| && rs[i] == r;
    var j :| 0 <= j < |rs| && rs[j] == l;
  }

  // ----- a warranted, complete mutation keeps a run able to finish

  /** Identities carry over when every release keeps its identity. */
  lemma IdentitiesCarry(before: seq<Release>, after: seq<Release>)
    requires |before| == |after| && forall i :: 0 <= i < |before| ==> after[i].id == before[i].id && after[i].tag == before[i].tag
    ensures DistinctIdentities(before) ==> DistinctIdentities(after)
    ensures NamedIdentities(before) ==> NamedIdentities(after)
  {
  }

  lemma {:induction false} RecordCarries(before: seq<Release>, after: seq<Release>, tag: string, i: nat)
    requires DistinctIdentities(before) && DistinctIdentities(after) && |before| == |after| && i < |before|
    requires before[i].tag == tag && after[i].tag == tag
    ensures InventoryRecord(before, tag) == Some(before[i]) && InventoryRecord(after, tag) == Some(after[i])
  {
    RecordIsUnique(before, tag, before[i]);
    RecordIsUnique(after, tag, after[i]);
  }

  lemma TargetIndex(rs: seq<Release>, tag: string) returns (i: nat)
    requires InventoryRecord(rs, tag).Some?
    ensures i < |rs| && rs[i] == InventoryRecord(rs, tag).value && rs[i].tag == tag
  {
    i :| 0 <= i < |rs| && rs[i] == InventoryRecord(rs, tag).value;
  }

  ghost predicate CanFinishFrom(p: Plan, before: seq<Release>, after: seq<Release>) {
    Convergible(p, before) <==> Convergible(p, after)
  }

  lemma CreateKeepsFinish(p: Plan, before: seq<Release>, after: seq<Release>)
    requires Warranted(p, CreateDraft, before) && Effect(p, CreateDraft, before, after, true)
    ensures CanFinishFrom(p, before, after)
  {
    hide StableTagVersion;
    hide IsStable;
    var id :| Fresh(before, id) && after == before + [Draft(p, id)];
    if p.tag != "" {
      assert DistinctIdentities(after);
      assert NamedIdentities(after);
      DraftIsNotStable(p, id);
      assert LatestIsSound(after);
      RecordIsUnique(after, p.tag, after[|before|]);
      assert TargetOk(p, after[|before|]);
    } else {
      EmptyTagIsNotStable();
    }
  }

  lemma DraftIsNotStable(p: Plan, id: nat)
    ensures !IsStable(Draft(p, id)) && !Draft(p, id).latest
  {
  }

  lemma EmptyTagIsNotStable()
    ensures StableTagVersion("").None?
  {
  }

  lemma UploadKeepsFinish(p: Plan, before: seq<Release>, after: seq<Release>)
    requires Warranted(p, Upload, before) && Effect(p, Upload, before, after, true)
    ensures CanFinishFrom(p, before, after)
  {
    hide StableTagVersion;
    var id: nat :| id > 0 && UploadedEach(p, Asset(id, p.assetName, p.content, true), before, after);
    var i := TargetIndex(before, p.tag);
    UploadKeepsInventory(p, Asset(id, p.assetName, p.content, true), before, after);
    RecordCarries(before, after, p.tag, i);
    assert before[i].assets == [];
    hide InventoryOk;
    hide InventoryRecord;
    assert after[i].assets == [Asset(id, p.assetName, p.content, true)];
    assert TargetOk(p, after[i]);
  }

  lemma UploadKeepsInventory(p: Plan, a: Asset, before: seq<Release>, after: seq<Release>)
    requires InventoryOk(before) && UploadedEach(p, a, before, after)
    ensures InventoryOk(after)
  {
    hide StableTagVersion;
    assert forall i :: 0 <= i < |before| ==> after[i].latest == before[i].latest && IsStable(after[i]) == IsStable(before[i]);
    IdentitiesCarry(before, after);
    hide IsStable;
    assert LatestIsSound(after);
  }

  lemma PublishKeepsInventory(tag: string, latest: bool, before: seq<Release>, after: seq<Release>, i: nat)
    requires InventoryOk(before) && PublishedEach(tag, latest, before, after)
    requires i < |before| && before[i].tag == tag && !before[i].prerelease && StableTagVersion(tag).Some?
    ensures InventoryOk(after)
  {
    hide StableTagVersion;
    forall k | 0 <= k < |before| && k != i ensures after[k] == before[k].(latest := before[k].latest && !latest) {
      assert before[k].tag != before[i].tag;
    }
    IdentitiesCarry(before, after);
    assert IsStable(after[i]);
    assert LatestIsSound(after);
  }

  lemma PublishKeepsFinish(p: Plan, latest: bool, before: seq<Release>, after: seq<Release>)
    requires Warranted(p, Publish(latest), before) && Effect(p, Publish(latest), before, after, true)
    ensures CanFinishFrom(p, before, after)
    ensures InventoryOk(after) && InventoryRecord(after, p.tag).Some?
    ensures var s := InventoryRecord(after, p.tag).value;
      !s.draft && s.immutable && s.latest == latest && s.assets == InventoryRecord(before, p.tag).value.assets
  {
    hide StableTagVersion;
    hide NoneAbove;
    var i := TargetIndex(before, p.tag);
    PublishKeepsInventory(p.tag, latest, before, after, i);
    RecordCarries(before, after, p.tag, i);
    hide InventoryRecord;
    hide InventoryOk;
    assert TargetOk(p, before[i]) && TargetOk(p, after[i]);
  }

  lemma MoveKeepsInventory(tag: string, before: seq<Release>, after: seq<Release>, h: nat)
    requires InventoryOk(before) && PointedEach(tag, before, after) && h < |before| && IsHighest(before, before[h]) && before[h].tag == tag
    ensures InventoryOk(after) && LatestIsHighest(after)
  {
    hide StableTagVersion;
    IdentitiesCarry(before, after);
    forall k | 0 <= k < |before| && k != h ensures !after[k].latest {
      assert before[k].tag != before[h].tag;
    }
    assert IsStable(after[h]) && after[h].latest;
    assert LatestIsSound(after);
    MovedIsHighest(before, after, h);
  }

  lemma MoveKeepsFinish(p: Plan, tag: string, before: seq<Release>, after: seq<Release>)
    requires Warranted(p, MoveLatest(tag), before) && Effect(p, MoveLatest(tag), before, after, true)
    ensures CanFinishFrom(p, before, after)
    ensures InventoryOk(after) && LatestIsHighest(after)
    ensures PointedEach(tag, before, after)
  {
    hide StableTagVersion;
    hide LatestIsHighest;
    hide LatestIsSound;
    hide IsHighest;
    var r: Release :| r.tag == tag && IsHighest(before, r);
    assert r in before by { StableHighest(before, r); }
    RecordIsUnique(before, tag, r);
    var h :| 0 <= h < |before| && before[h] == r;
    MoveKeepsInventory(tag, before, after, h);
    MoveKeepsTarget(p, tag, before, after);
    hide InventoryOk;
    hide InventoryRecord;
    hide PointedEach;
  }

  lemma MoveKeepsTarget(p: Plan, tag: string, before: seq<Release>, after: seq<Release>)
    requires PointedEach(tag, before, after) && DistinctIdentities(before) && DistinctIdentities(after)
    ensures var r, s := InventoryRecord(before, p.tag), InventoryRecord(after, p.tag);
      (r.Some? <==> s.Some?) && (r.Some? ==> (TargetOk(p, r.value) <==> TargetOk(p, s.value)))
  {
    if InventoryRecord(before, p.tag).Some? {
      var i := TargetIndex(before, p.tag);
      RecordCarries(before, after, p.tag, i);
    }
    if InventoryRecord(after, p.tag).Some? {
      var i := TargetIndex(after, p.tag);
      RecordCarries(before, after, p.tag, i);
    }
  }

  lemma MovedIsHighest(before: seq<Release>, after: seq<Release>, h: nat)
    requires h < |before| == |after| && IsHighest(before, before[h]) && after[h].latest
    requires forall i :: 0 <= i < |before| ==> after[i] == before[i].(latest := after[i].latest)
    ensures LatestIsHighest(after)
  {
    hide StableTagVersion;
    assert after[h] in after && IsStable(after[h]);
    forall s | s in after && IsStable(s) ensures !Less(VersionOf(after[h]), VersionOf(s)) {
      var k :| 0 <= k < |after| && after[k] == s;
      assert before[k] in before && IsStable(before[k]);
    }
    assert IsHighest(after, after[h]);
  }

  // ----- runs

  /** The remote together with what has happened to it: the mutations applied, the
      faults met (lost mutations, refused reads, failed fences), the incomplete uploads
      among them, and the changes made by others. */
  datatype World = World(releases: seq<Release>, events: seq<Event>, faults: nat, partial: nat, foreign: nat)

  /** Every mutation applied since `from` was warranted by what the controller read. */
  ghost predicate NewWarranted(p: Plan, from: nat, events: seq<Event>) {
    forall i :: from <= i < |events| && events[i].Applied? ==> Warranted(p, events[i].mutation, events[i].read)
  }

  /** Since `from` nobody else changed the remote, so every mutation met what the
      controller had read. */
  ghost predicate NewCurrent(from: nat, events: seq<Event>) {
    forall i :: from <= i < |events| ==> events[i].Applied? && events[i].before == events[i].read
  }

  /** The state before event `i`, and after the last of them. */
  function StateAt(events: seq<Event>, end: seq<Release>, i: nat): seq<Release> {
    if i < |events| then events[i].before else end
  }

  /** What the remote does at one event. */
  ghost predicate Happens(p: Plan, e: Event, after: seq<Release>) {
    e.after == after && (e.Applied? ==> Effect(p, e.mutation, e.before, after, e.complete))
  }

  /** The events since `from` are all that happened between `start` and `end`: each
      begins where the one before it ended. */
  ghost predicate Traces(p: Plan, start: seq<Release>, from: nat, events: seq<Event>, end: seq<Release>) {
    && StateAt(events, end, from) == start
    && forall i :: from <= i < |events| ==> Happens(p, events[i], StateAt(events, end, i + 1))
  }

  ghost predicate Later(a: World, b: World) {
    && a.events <= b.events && a.faults <= b.faults && a.partial <= b.partial && a.foreign <= b.foreign
    && (a.faults == b.faults ==> a.partial == b.partial)
  }

  /** Nobody else changed the remote between `a` and `b`. */
  ghost predicate Quiet(a: World, b: World) { a.foreign == b.foreign }

  /** What a run that has got from `a` to `b` has kept. `on` says it can go on. */
  ghost predicate Progress(p: Plan, a: World, b: World, on: bool) {
    && Later(a, b) && NewWarranted(p, |a.events|, b.events)
    && Traces(p, a.releases, |a.events|, b.events, b.releases)
    && (Quiet(a, b) ==> NewCurrent(|a.events|, b.events) && AllKept(p, a.releases, b.releases))
    && (Quiet(a, b) && a.partial == b.partial ==> CanFinishFrom(p, a.releases, b.releases))
    && (Quiet(a, b) && a.faults == b.faults && Convergible(p, a.releases) ==> on)
    && (Quiet(a, b) && Converged(p, a.releases) ==> b.releases == a.releases && b.events == a.events)
  }

  lemma KeptChains(p: Plan, a: seq<Release>, b: seq<Release>, c: seq<Release>)
    requires AllKept(p, a, b) && AllKept(p, b, c)
    ensures AllKept(p, a, c)
  {
    forall i | 0 <= i < |a| ensures Kept(p, a[i], c[i]) {
      assert Kept(p, a[i], b[i]) && Kept(p, b[i], c[i]);
    }
  }

  lemma EventsChain(p: Plan, a: seq<Event>, b: seq<Event>, c: seq<Event>)
    requires a <= b <= c && NewWarranted(p, |a|, b) && NewWarranted(p, |b|, c)
    ensures NewWarranted(p, |a|, c)
    ensures NewCurrent(|a|, b) && NewCurrent(|b|, c) ==> NewCurrent(|a|, c)
  {
    hide Warranted;
    forall i | |a| <= i < |c| && c[i].Applied? ensures Warranted(p, c[i].mutation, c[i].read) {
      if i < |b| { assert c[i] == b[i]; }
    }
    if NewCurrent(|a|, b) && NewCurrent(|b|, c) {
      forall i | |a| <= i < |c| ensures c[i].Applied? && c[i].before == c[i].read {
        if i < |b| { assert c[i] == b[i]; }
      }
    }
  }

  lemma TracesChain(p: Plan, a: World, b: World, c: World)
    requires a.events <= b.events <= c.events
    requires Traces(p, a.releases, |a.events|, b.events, b.releases)
    requires Traces(p, b.releases, |b.events|, c.events, c.releases)
    ensures Traces(p, a.releases, |a.events|, c.events, c.releases)
  {
    hide Happens;
    forall i: nat | i <= |b.events| ensures StateAt(c.events, c.releases, i) == StateAt(b.events, b.releases, i) {
      if i < |b.events| { assert c.events[i] == b.events[i]; }
    }
    forall i | |a.events| <= i < |c.events| ensures Happens(p, c.events[i], StateAt(c.events, c.releases, i + 1)) {
      if i < |b.events| { assert c.events[i] == b.events[i]; }
    }
  }

  /** Runs follow one another, however the first of them ended. */
  lemma Chains(p: Plan, a: World, b: World, c: World, ended: bool, on: bool)
    requires Progress(p, a, b, ended) && Progress(p, b, c, on)
    ensures Progress(p, a, c, on)
  {
    hide Warranted;
    hide Convergible;
    hide Converged;
    hide AllKept;
    hide NewWarranted;
    hide NewCurrent;
    hide Traces;
    EventsChain(p, a.events, b.events, c.events);
    TracesChain(p, a, b, c);
    if Quiet(a, c) { KeptChains(p, a.releases, b.releases, c.releases); }
  }

  lemma Stays(p: Plan, a: World)
    ensures Progress(p, a, a, true)
  {
    AllKeptItself(p, a.releases);
    hide AllKept;
    hide Warranted;
    hide Convergible;
    hide Converged;
  }

  lemma Stops(p: Plan, a: World, b: World)
    requires Progress(p, a, b, true)
    requires !(Quiet(a, b) && a.faults == b.faults && Convergible(p, b.releases))
    ensures Progress(p, a, b, false)
  {
    hide Convergible;
    hide Converged;
    hide NewWarranted;
    hide NewCurrent;
    hide Traces;
    hide AllKept;
  }

  /** Others leave the remote alone or change it once. */
  ghost predicate Disturbs(a: World, b: World) {
    if b.foreign == a.foreign then b == a
    else b == a.(releases := b.releases, events := a.events + [Changed(a.releases, b.releases)], foreign := a.foreign + 1)
  }

  /** A read, whether answered or refused. */
  ghost predicate Reads(a: World, b: World, r: Option<seq<Release>>) {
    && a.faults <= b.faults && Disturbs(a, b.(faults := a.faults))
    && (r.Some? ==> r.value == b.releases && InventoryOk(b.releases))
    && (a.faults == b.faults ==> (r.Some? <==> InventoryOk(b.releases)))
  }

  /** A mutation, applied or lost, of whatever others have made of the remote by then. */
  ghost predicate Mutates(p: Plan, a: World, b: World, m: Mutation, read: seq<Release>) {
    exists met :: MutatesFrom(p, a, met, b, m, read)
  }

  ghost predicate MutatesFrom(p: Plan, a: World, met: World, b: World, m: Mutation, read: seq<Release>) {
    Disturbs(a, met) && (MutationLost(met, b) || MutationApplied(p, met, b, m, read))
  }

  ghost predicate MutationLost(met: World, b: World) {
    b.faults > met.faults && b == met.(faults := b.faults)
  }

  ghost predicate MutationApplied(p: Plan, met: World, b: World, m: Mutation, read: seq<Release>) {
    && b.events == met.events + [Applied(m, read, met.releases, b.releases, b.partial == met.partial)]
    && met.partial <= b.partial && met.faults <= b.faults && (b.partial > met.partial ==> b.faults > met.faults)
    && b.foreign == met.foreign
    && Effect(p, m, met.releases, b.releases, b.partial == met.partial)
  }

  /** How often a draft has been created. */
  function Creations(events: seq<Event>): nat {
    if events == [] then 0
    else
      var last := events[|events| - 1];
      Creations(events[..|events| - 1]) + if last.Applied? && last.mutation.CreateDraft? then 1 else 0
  }

  lemma CreationsAppend(events: seq<Event>, e: Event)
    ensures Creations(events + [e]) == Creations(events) + if e.Applied? && e.mutation.CreateDraft? then 1 else 0
  {
    assert (events + [e])[..|events|] == events;
  }

  lemma ReadCreatesNothing(a: World, b: World, r: Option<seq<Release>>)
    requires Reads(a, b, r)
    ensures Creations(b.events) == Creations(a.events)
  {
    hide InventoryOk;
    if b.foreign != a.foreign { CreationsAppend(a.events, Changed(a.releases, b.releases)); }
  }

  lemma MutationCreatesOnce(p: Plan, a: World, b: World, m: Mutation, read: seq<Release>)
    requires Mutates(p, a, b, m, read)
    ensures Creations(b.events) <= Creations(a.events) + if m.CreateDraft? then 1 else 0
  {
    hide Effect;
    var met :| MutatesFrom(p, a, met, b, m, read);
    if met.foreign != a.foreign { CreationsAppend(a.events, Changed(a.releases, met.releases)); }
    if MutationApplied(p, met, b, m, read) {
      CreationsAppend(met.events, Applied(m, read, met.releases, b.releases, b.partial == met.partial));
    }
  }

  lemma DisturbanceTraces(p: Plan, a: World, b: World)
    requires Disturbs(a, b)
    ensures a.events <= b.events && NewWarranted(p, |a.events|, b.events)
    ensures Traces(p, a.releases, |a.events|, b.events, b.releases)
    ensures Quiet(a, b) ==> b == a && NewCurrent(|a.events|, b.events)
  {
  }

  lemma ReadProgresses(p: Plan, a: World, b: World, r: Option<seq<Release>>)
    requires Reads(a, b, r)
    ensures Progress(p, a, b, r.Some?)
  {
    hide Warranted;
    hide Converged;
    hide InventoryOk;
    hide AllKept;
    AllKeptItself(p, a.releases);
    DisturbanceTraces(p, a, b.(faults := a.faults));
  }

  lemma AllKeptItself(p: Plan, rs: seq<Release>)
    ensures AllKept(p, rs, rs)
  {
    forall i | 0 <= i < |rs| ensures Kept(p, rs[i], rs[i]) {
      assert rs[i].(latest := rs[i].latest) == rs[i];
    }
  }

  lemma MutationProgresses(p: Plan, a: World, b: World, m: Mutation, read: seq<Release>)
    requires Mutates(p, a, b, m, read) && Warranted(p, m, read) && read == a.releases
    ensures Progress(p, a, b, true)
  {
    hide Warranted;
    hide Converged;
    hide Convergible;
    hide Effect;
    hide AllKept;
    var met :| MutatesFrom(p, a, met, b, m, read);
    AllKeptItself(p, a.releases);
    DisturbanceTraces(p, a, met);
    if MutationApplied(p, met, b, m, read) {
      NothingLeftToDo(p, m, read);
      AppliedTraces(p, a, met, b, m, read);
      if Quiet(a, b) {
        WarrantedKeeps(p, m, met.releases, b.releases, b.partial == met.partial);
        if a.partial == b.partial { KeepsFinish(p, m, met.releases, b.releases); }
      }
    }
  }

  lemma AppliedTraces(p: Plan, a: World, met: World, b: World, m: Mutation, read: seq<Release>)
    requires Disturbs(a, met) && MutationApplied(p, met, b, m, read) && Warranted(p, m, read) && read == a.releases
    ensures a.events <= b.events && NewWarranted(p, |a.events|, b.events)
    ensures Traces(p, a.releases, |a.events|, b.events, b.releases)
    ensures Quiet(a, b) ==> NewCurrent(|a.events|, b.events)
  {
    hide Warranted;
    hide Effect;
  }

  lemma KeepsFinish(p: Plan, m: Mutation, before: seq<Release>, after: seq<Release>)
    requires Warranted(p, m, before) && Effect(p, m, before, after, true)
    ensures CanFinishFrom(p, before, after)
  {
    hide Warranted;
    hide Effect;
    hide Convergible;
    match m
    case CreateDraft => CreateKeepsFinish(p, before, after);
    case Upload => UploadKeepsFinish(p, before, after);
    case Publish(latest) => PublishKeepsFinish(p, latest, before, after);
    case MoveLatest(tag) => MoveKeepsFinish(p, tag, before, after);
  }

  // ----- what a mutation that is not lost achieves

  /** The mutation was applied to what the controller had read. */
  lemma AppliedAsRead(p: Plan, a: World, b: World, m: Mutation, read: seq<Release>)
    requires Mutates(p, a, b, m, read) && read == a.releases && Quiet(a, b) && a.faults == b.faults
    ensures Effect(p, m, read, b.releases, true)
  {
    hide Effect;
    var met :| MutatesFrom(p, a, met, b, m, read);
  }

  lemma CreatedIsThere(p: Plan, before: seq<Release>, after: seq<Release>)
    requires Effect(p, CreateDraft, before, after, true)
    ensures InventoryRecord(after, p.tag).Some?
  {
    if InventoryRecord(before, p.tag).None? {
      assert after[|before|].tag == p.tag && after[|before|] in after;
    }
  }

  lemma UploadedIsThere(p: Plan, before: seq<Release>, after: seq<Release>)
    requires Warranted(p, Upload, before) && Effect(p, Upload, before, after, true)
    ensures InventoryRecord(after, p.tag).Some? && HasExactAsset(p, InventoryRecord(after, p.tag).value)
  {
    var id: nat :| id > 0 && UploadedEach(p, Asset(id, p.assetName, p.content, true), before, after);
    var i := TargetIndex(before, p.tag);
    IdentitiesCarry(before, after);
    RecordCarries(before, after, p.tag, i);
  }

  /** A convergible remote passes the checks of the target. */
  lemma ConvergiblePasses(p: Plan, rs: seq<Release>)
    requires Convergible(p, rs) && InventoryRecord(rs, p.tag).Some?
    ensures var r := InventoryRecord(rs, p.tag).value;
      && MetadataExact(p, r)
      && (Examine(p, r, r.draft) == Missing <==> r.draft && r.assets == [])
      && Examine(p, r, r.draft) != Refused
      && (HasExactAsset(p, r) ==> Examine(p, r, false) == Present(r.assets[0]) && ExactReleaseAsset(p, r, false) == Present(r.assets[0]))
  {
    var r := InventoryRecord(rs, p.tag).value;
    ExamineExactly(p, r, r.draft);
    ExamineExactly(p, r, false);
  }

  /** Whenever a mutation grants Latest, the release granted it is the highest stable
      one then, its own publication included; and only a release that is not the
      highest is published without it. */
  lemma LatestOnlyToHighest(p: Plan, m: Mutation, before: seq<Release>, after: seq<Release>)
    requires Warranted(p, m, before) && Effect(p, m, before, after, true) && (m.Publish? || m.MoveLatest?)
    ensures (m.MoveLatest? || m.latest) ==> LatestIsHighest(after)
    ensures m.Publish? && !m.latest ==> exists s :: s in after && IsStable(s) && Less(StableTagVersion(p.tag).value, VersionOf(s))
  {
    hide StableTagVersion;
    if m.MoveLatest? {
      hide LatestIsHighest;
      MoveKeepsFinish(p, m.tag, before, after);
    } else {
      var i := TargetIndex(before, p.tag);
      assert after[i] in after && IsStable(after[i]);
      if m.latest {
        forall s | s in after && IsStable(s) ensures !Less(VersionOf(after[i]), VersionOf(s)) {
          var k :| 0 <= k < |after| && after[k] == s;
          StableBefore(p, before, after, k, i);
        }
        assert after[i].latest && IsHighest(after, after[i]);
      } else {
        var s :| s in before && IsStable(s) && Less(StableTagVersion(p.tag).value, VersionOf(s));
        var k :| 0 <= k < |before| && before[k] == s;
        assert after[k] in after && IsStable(after[k]) && VersionOf(after[k]) == VersionOf(s);
      }
    }
  }

  lemma StableBefore(p: Plan, before: seq<Release>, after: seq<Release>, k: nat, i: nat)
    requires PublishedEach(p.tag, true, before, after) && k < |before| && i < |before| && IsStable(after[k])
    requires before[i].tag == p.tag && NoneAbove(before, p.tag)
    ensures !Less(StableTagVersion(p.tag).value, VersionOf(after[k]))
  {
    hide StableTagVersion;
    if before[k].tag != p.tag {
      assert before[k] in before && IsStable(before[k]);
    }
  }
}
