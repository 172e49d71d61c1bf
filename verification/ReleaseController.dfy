/** The release controller as it runs: each step a read of the whole inventory or one
    mutation whose own outcome it never looks at (scripts/finalize_release.py). */
module ReleaseController {
  import opened Wrappers
  import opened ReleaseVersion
  import opened ReleaseInventory
  import opened ReleaseConvergence
  import opened ReleaseRuns

  /** The remote as the controller meets it. Others may change it before any step, any
      read may be refused and any mutation lost. */
  class Remote {
    var releases: seq<Release>
    ghost var events: seq<Event>
    ghost var faults: nat
    ghost var partial: nat
    ghost var foreign: nat

    ghost function Now(): World
      reads this
    {
      World(releases, events, faults, partial, foreign)
    }

    method Others()
      modifies this
      ensures Disturbs(old(Now()), Now())
    {
      if * {
        releases := *;
        events := events + [Changed(old(releases), releases)];
        foreign := foreign + 1;
      }
    }

    method Snapshot() returns (r: Option<seq<Release>>)
      modifies this
      ensures Reads(old(Now()), Now(), r)
    {
      hide InventoryOk;
      Others();
      if * {
        faults := faults + 1;
        return None;
      }
      var ok := ValidateReleaseInventory(releases, false);
      r := if ok then Some(releases) else None;
    }

    /** Passes the fences, then issues the mutation. */
    method Mutate(p: Plan, m: Mutation, ghost read: seq<Release>) returns (fenced: bool)
      modifies this
      ensures Mutates(p, old(Now()), Now(), m, read)
      ensures !fenced ==> faults > old(faults)
    {
      hide Effect;
      if * {
        faults := faults + 1;
        assert MutatesFrom(p, old(Now()), old(Now()), Now(), m, read);
        return false;
      }
      Others();
      ghost var met := Now();
      fenced := true;
      if * {
        faults := faults + 1;
      } else {
        var complete := Apply(p, m);
        if !complete {
          faults := faults + 1;
          partial := partial + 1;
        }
        events := events + [Applied(m, read, met.releases, releases, complete)];
      }
      assert MutatesFrom(p, old(Now()), met, Now(), m, read);
    }

    method Apply(p: Plan, m: Mutation) returns (complete: bool)
      modifies this`releases
      ensures Effect(p, m, old(releases), releases, complete)
    {
      complete := true;
      match m
      case CreateDraft =>
        if InventoryRecord(releases, p.tag).None? {
          var id := NextId(releases);
          assert Fresh(releases, id);
          releases := releases + [Draft(p, id)];
        }
      case Upload =>
        if * { complete := false; }
        var id := |releases| + 1;
        var asset := Asset(id, p.assetName, p.content, complete);
        var held := releases;
        releases := seq(|held|, i requires 0 <= i < |held| => Uploaded(p, held[i], asset));
        assert id > 0 && UploadedEach(p, Asset(id, p.assetName, p.content, complete), held, releases);
      case Publish(latest) =>
        if InventoryRecord(releases, p.tag).Some? {
          var held := releases;
          releases := seq(|held|, i requires 0 <= i < |held| => Published(p.tag, latest, held[i]));
        }
      case MoveLatest(tag) =>
        if InventoryRecord(releases, tag).Some? {
          var held := releases;
          releases := seq(|held|, i requires 0 <= i < |held| => Pointed(tag, held[i]));
        }
    }

    /** Reads on a run from `start`. */
    method Read(p: Plan, ghost start: World) returns (r: Option<seq<Release>>)
      requires Progress(p, start, Now(), true)
      modifies this
      ensures Reads(old(Now()), Now(), r) && Later(old(Now()), Now()) && Progress(p, start, Now(), r.Some?)
      ensures Creations(events) == Creations(old(events))
    {
      hide Progress;
      r := Snapshot();
      ReadCreatesNothing(old(Now()), Now(), r);
      ReadProgresses(p, old(Now()), Now(), r);
      Chains(p, start, old(Now()), Now(), true, r.Some?);
    }

    /** The last fences, after everything has been read back. */
    method Fences(p: Plan, ghost start: World) returns (fenced: bool)
      requires Progress(p, start, Now(), true)
      modifies this`faults
      ensures Progress(p, start, Now(), fenced)
    {
      hide Progress;
      fenced := true;
      if * {
        faults := faults + 1;
        FenceFails(p, start, old(Now()), Now());
        return false;
      }
    }

    /** Mutates on a run from `start`, as what was read warrants. */
    method Act(p: Plan, m: Mutation, ghost start: World) returns (fenced: bool)
      requires Progress(p, start, Now(), true) && Warranted(p, m, releases)
      modifies this
      ensures Mutates(p, old(Now()), Now(), m, old(releases)) && Later(old(Now()), Now()) && Progress(p, start, Now(), fenced)
      ensures !fenced ==> faults > old(faults)
      ensures Creations(events) <= Creations(old(events)) + if m.CreateDraft? then 1 else 0
    {
      hide Warranted;
      hide Effect;
      fenced := Mutate(p, m, releases);
      MutationCreatesOnce(p, old(Now()), Now(), m, old(releases));
      MutationProgresses(p, old(Now()), Now(), m, old(releases));
      Chains(p, start, old(Now()), Now(), true, true);
      if !fenced { Stops(p, start, Now()); }
    }
  }

  lemma FenceFails(p: Plan, start: World, a: World, b: World)
    requires Progress(p, start, a, true) && b == a.(faults := a.faults + 1)
    ensures Progress(p, start, b, false)
  {
    hide Convergible;
    hide Converged;
    hide AllKept;
    hide NewWarranted;
    hide NewCurrent;
    hide Traces;
  }

  function HighestId(rs: seq<Release>): (id: nat)
    ensures forall i :: 0 <= i < |rs| ==> rs[i].id <= id
  {
    if rs == [] then 0
    else
      var id := HighestId(rs[..|rs| - 1]);
      if rs[|rs| - 1].id > id then rs[|rs| - 1].id else id
  }

  function NextId(rs: seq<Release>): (id: nat)
    ensures Fresh(rs, id)
  {
    HighestId(rs) + 1
  }

  /** Creates the draft when there is no release of the tag, and reads it back. */
  method EnsureDraft(remote: Remote, p: Plan, ghost start: World) returns (r: Option<seq<Release>>)
    requires Progress(p, start, remote.Now(), true)
    modifies remote
    ensures Progress(p, start, remote.Now(), r.Some?)
    ensures r.Some? ==> r.value == remote.releases && InventoryOk(r.value) && InventoryRecord(r.value, p.tag).Some?
    ensures Creations(remote.events) <= Creations(old(remote.events)) + 1
  {
    hide Creations;
    hide Progress;
    hide InventoryOk;
    hide Mutates;
    hide Effect;
    hide Convergible;
    r := remote.Read(p, start);
    if r.None? { return; }
    if InventoryRecord(r.value, p.tag).None? {
      ghost var before := remote.Now();
      var fenced := remote.Act(p, CreateDraft, start);
      if !fenced { return None; }
      ghost var after := remote.Now();
      r := remote.Read(p, start);
      if r.None? { return; }
      if InventoryRecord(r.value, p.tag).None? {
        if Quiet(before, remote.Now()) && before.faults == remote.faults {
          AppliedAsRead(p, before, after, CreateDraft, before.releases);
          CreatedIsThere(p, before.releases, after.releases);
        }
        StopsLate(p, start, before, remote.Now());
        return None;
      }
    }
  }

  /** A run stops rightly when something since an intermediate point was disturbed or
      faulty, or the remote is one that no run can finish on. */
  lemma StopsLate(p: Plan, start: World, middle: World, now: World)
    requires Progress(p, start, middle, true) && Progress(p, start, now, true) && Later(middle, now)
    requires !(Quiet(middle, now) && middle.faults == now.faults && Convergible(p, now.releases))
    ensures Progress(p, start, now, false)
  {
    hide Convergible;
    Stops(p, start, now);
  }

  /** What a phase hands on: the target is in the inventory with the planned asset. */
  ghost predicate TargetHas(p: Plan, rs: seq<Release>, asset: Asset) {
    && InventoryOk(rs) && InventoryRecord(rs, p.tag).Some?
    && InventoryRecord(rs, p.tag).value.assets == [asset] && ExactAsset(p, asset)
  }

  /** Uploads the asset to an empty draft, reads it back, and returns what is there. */
  method EnsureAsset(remote: Remote, p: Plan, inventory: seq<Release>, ghost start: World) returns (r: Option<Asset>)
    requires Progress(p, start, remote.Now(), true)
    requires inventory == remote.releases && InventoryOk(inventory) && InventoryRecord(inventory, p.tag).Some?
    modifies remote
    ensures Progress(p, start, remote.Now(), r.Some?)
    ensures r.Some? ==> TargetHas(p, remote.releases, r.value)
    ensures Creations(remote.events) <= Creations(old(remote.events))
  {
    hide Creations;
    hide Progress;
    hide InventoryOk;
    hide Mutates;
    hide Effect;
    hide Convergible;
    hide Examine;
    hide MetadataExact;
    hide ExactAsset;
    var target := InventoryRecord(inventory, p.tag).value;
    var exam := Examine(p, target, target.draft);
    ExamineExactly(p, target, target.draft);
    if exam.Refused? {
      RefusalStops(p, start, remote.Now(), target.draft);
      return None;
    }
    if exam.Present? { return Some(exam.asset); }
    r := UploadAsset(remote, p, start);
  }

  lemma RefusalStops(p: Plan, start: World, now: World, allowMissing: bool)
    requires Progress(p, start, now, true) && InventoryRecord(now.releases, p.tag).Some?
    requires var r := InventoryRecord(now.releases, p.tag).value; allowMissing == r.draft && Examine(p, r, allowMissing) == Refused
    ensures Progress(p, start, now, false)
  {
    hide Convergible;
    hide Examine;
    hide Progress;
    if Convergible(p, now.releases) { ConvergiblePasses(p, now.releases); }
    Stops(p, start, now);
  }

  method UploadAsset(remote: Remote, p: Plan, ghost start: World) returns (r: Option<Asset>)
    requires Progress(p, start, remote.Now(), true) && InventoryOk(remote.releases)
    requires InventoryRecord(remote.releases, p.tag).Some?
    requires var t := InventoryRecord(remote.releases, p.tag).value; MetadataExact(p, t) && t.draft && t.assets == []
    modifies remote
    ensures Progress(p, start, remote.Now(), r.Some?)
    ensures r.Some? ==> TargetHas(p, remote.releases, r.value)
    ensures Creations(remote.events) <= Creations(old(remote.events))
  {
    hide Creations;
    hide Progress;
    hide InventoryOk;
    hide Mutates;
    hide Effect;
    hide Convergible;
    hide Examine;
    hide MetadataExact;
    hide ExactAsset;
    ghost var first := remote.Now();
    r := None;
    var inventory := remote.Read(p, start);
    if inventory.None? { return; }
    var found := InventoryRecord(inventory.value, p.tag);
    if found.None? {
      StopsLate(p, start, first, remote.Now());
      return;
    }
    var exam := Examine(p, found.value, true);
    ExamineExactly(p, found.value, true);
    if exam != Missing || !found.value.draft {
      StopsLate(p, start, first, remote.Now());
      return;
    }
    ghost var before := remote.Now();
    var fenced := remote.Act(p, Upload, start);
    if !fenced { return; }
    ghost var after := remote.Now();
    inventory := remote.Read(p, start);
    if inventory.None? { return; }
    if Quiet(before, remote.Now()) && before.faults == remote.faults {
      AppliedAsRead(p, before, after, Upload, before.releases);
      UploadedIsThere(p, before.releases, after.releases);
      if Convergible(p, remote.releases) { ConvergiblePasses(p, remote.releases); }
    }
    found := InventoryRecord(inventory.value, p.tag);
    if found.None? {
      StopsLate(p, start, before, remote.Now());
      return;
    }
    exam := Examine(p, found.value, false);
    ExamineExactly(p, found.value, false);
    if !exam.Present? {
      StopsLate(p, start, before, remote.Now());
      return;
    }
    r := Some(exam.asset);
  }

  /** The version that would own Latest were `tag` published. */
  function HighestVersion(rs: seq<Release>, tag: string): Option<Version> {
    var version := StableTagVersion(tag);
    var best := Highest(rs);
    if version.None? then None
    else if best.Some? && IsStable(best.value) && Less(version.value, VersionOf(best.value)) then Some(VersionOf(best.value))
    else version
  }

  lemma HighestVersionIsTarget(rs: seq<Release>, tag: string)
    ensures HighestVersion(rs, tag).Some? <==> StableTagVersion(tag).Some?
    ensures HighestVersion(rs, tag).Some? ==> (HighestVersion(rs, tag) == StableTagVersion(tag) <==> NoneAbove(rs, tag))
  {
    hide StableTagVersion;
    HighestIsHighest(rs);
  }

  /** What publication hands on. */
  ghost predicate PublishedWith(p: Plan, rs: seq<Release>, asset: Asset) {
    TargetHas(p, rs, asset) && StableTagVersion(p.tag).Some? && !InventoryRecord(rs, p.tag).value.draft
  }

  /** Publishes the draft, or corrects its Latest flag, with a flag that says whether it
      is the highest stable version. */
  method EnsurePublished(remote: Remote, p: Plan, asset: Asset, ghost start: World) returns (ok: bool)
    requires Progress(p, start, remote.Now(), true) && TargetHas(p, remote.releases, asset)
    modifies remote
    ensures Progress(p, start, remote.Now(), ok)
    ensures ok ==> PublishedWith(p, remote.releases, asset)
    ensures Creations(remote.events) <= Creations(old(remote.events))
  {
    hide Creations;
    hide Progress;
    hide InventoryOk;
    hide Mutates;
    hide Effect;
    hide Convergible;
    hide Examine;
    hide MetadataExact;
    hide ExactAsset;
    hide StableTagVersion;
    hide NoneAbove;
    hide HighestVersion;
    ghost var first := remote.Now();
    ok := false;
    var inventory := remote.Read(p, start);
    if inventory.None? { return; }
    var found := InventoryRecord(inventory.value, p.tag);
    if found.None? {
      StopsLate(p, start, first, remote.Now());
      return;
    }
    var target := found.value;
    var exam := Examine(p, target, false);
    ExamineExactly(p, target, false);
    if Convergible(p, remote.releases) { ConvergiblePasses(p, remote.releases); }
    if exam != Present(asset) {
      StopsLate(p, start, first, remote.Now());
      return;
    }
    var highest := HighestVersion(inventory.value, p.tag);
    HighestVersionIsTarget(inventory.value, p.tag);
    if highest.None? {
      assert !Convergible(p, remote.releases) by { if Convergible(p, remote.releases) { ConvergibleIsStable(p, remote.releases); } }
      Stops(p, start, remote.Now());
      return;
    }
    var shouldBeLatest := StableTagVersion(p.tag) == highest;
    if !target.draft && target.latest == shouldBeLatest { return true; }
    ok := PublishTarget(remote, p, asset, shouldBeLatest, start);
  }

  lemma ConvergibleIsStable(p: Plan, rs: seq<Release>)
    requires Convergible(p, rs)
    ensures StableTagVersion(p.tag).Some?
  {
  }

  method PublishTarget(remote: Remote, p: Plan, asset: Asset, latest: bool, ghost start: World) returns (ok: bool)
    requires Progress(p, start, remote.Now(), true) && TargetHas(p, remote.releases, asset)
    requires Warranted(p, Publish(latest), remote.releases)
    modifies remote
    ensures Progress(p, start, remote.Now(), ok)
    ensures ok ==> PublishedWith(p, remote.releases, asset)
    ensures Creations(remote.events) <= Creations(old(remote.events))
  {
    hide Creations;
    hide Progress;
    hide InventoryOk;
    hide Mutates;
    hide Effect;
    hide Convergible;
    hide ExactReleaseAsset;
    hide MetadataExact;
    hide ExactAsset;
    hide StableTagVersion;
    hide NoneAbove;
    ghost var before := remote.Now();
    ok := false;
    var fenced := remote.Act(p, Publish(latest), start);
    if !fenced { return; }
    ghost var after := remote.Now();
    var inventory := remote.Read(p, start);
    if inventory.None? { return; }
    if Quiet(before, remote.Now()) && before.faults == remote.faults {
      AppliedAsRead(p, before, after, Publish(latest), before.releases);
      PublishKeepsFinish(p, latest, before.releases, after.releases);
      if Convergible(p, remote.releases) { ConvergiblePasses(p, remote.releases); }
    }
    var found := InventoryRecord(inventory.value, p.tag);
    if found.None? || found.value.draft || found.value.latest != latest || !found.value.immutable {
      StopsLate(p, start, before, remote.Now());
      return;
    }
    var exam := ExactReleaseAsset(p, found.value, false);
    ExactAssetFound(p, found.value, exam);
    if exam != Present(asset) {
      StopsLate(p, start, before, remote.Now());
      return;
    }
    ok := true;
  }

  lemma ExactAssetFound(p: Plan, r: Release, exam: Exam)
    requires exam == ExactReleaseAsset(p, r, false)
    ensures exam.Present? ==> r.assets == [exam.asset] && ExactAsset(p, exam.asset)
    ensures exam == Refused || exam.Present?
  {
  }

  /** Points Latest at the highest stable release unless it is there already, then
      checks the whole terminal state. */
  method EnsureLatest(remote: Remote, p: Plan, asset: Asset, ghost start: World) returns (done: bool)
    requires Progress(p, start, remote.Now(), true) && PublishedWith(p, remote.releases, asset) && p.inputsOk
    modifies remote
    ensures Progress(p, start, remote.Now(), done)
    ensures done ==> Converged(p, remote.releases)
    ensures Creations(remote.events) <= Creations(old(remote.events))
  {
    hide Creations;
    hide Progress;
    hide InventoryOk;
    hide Mutates;
    hide Effect;
    hide Convergible;
    hide Converged;
    hide Highest;
    hide LatestIsHighest;
    hide IsHighest;
    hide TargetHas;
    hide StableTagVersion;
    hide Flagged;
    ghost var first := remote.Now();
    done := false;
    var inventory := remote.Read(p, start);
    if inventory.None? { return; }
    HighestIsHighest(inventory.value);
    var highest := Highest(inventory.value);
    if highest.None? {
      if Quiet(first, remote.Now()) { PublishedMeansStable(p, inventory.value, asset); }
      StopsLate(p, start, first, remote.Now());
      return;
    }
    var latest := Flagged(inventory.value);
    OneLatestAtMost(inventory.value);
    TerminalExactly(inventory.value);
    if |latest| == 1 && latest[0] == highest.value {
      done := CheckTerminal(remote, p, asset, inventory.value, first, start);
    } else {
      StableHighest(inventory.value, highest.value);
      ghost var before := remote.Now();
      var fenced := remote.Act(p, MoveLatest(highest.value.tag), start);
      if !fenced { return; }
      ghost var after := remote.Now();
      inventory := remote.Read(p, start);
      if inventory.None? { return; }
      if Quiet(before, remote.Now()) && before.faults == remote.faults {
        AppliedAsRead(p, before, after, MoveLatest(highest.value.tag), before.releases);
        MoveKeepsFinish(p, highest.value.tag, before.releases, after.releases);
        if Quiet(first, before) { MoveKeepsPublished(p, highest.value.tag, before.releases, after.releases, asset); }
      }
      done := CheckTerminal(remote, p, asset, inventory.value, first, start);
    }
  }

  lemma OneLatestAtMost(rs: seq<Release>)
    requires InventoryOk(rs)
    ensures |Flagged(rs)| <= 1 && DistinctIdentities(rs)
  {
    hide IsStable;
    LatestIsSoundExactly(rs);
  }

  lemma PublishedMeansStable(p: Plan, rs: seq<Release>, asset: Asset)
    requires PublishedWith(p, rs, asset) && Highest(rs).None?
    ensures !Convergible(p, rs)
  {
    hide StableTagVersion;
    HighestIsHighest(rs);
    var r := InventoryRecord(rs, p.tag).value;
    assert r in rs && !IsStable(r);
  }

  lemma MoveKeepsPublished(p: Plan, tag: string, before: seq<Release>, after: seq<Release>, asset: Asset)
    requires PublishedWith(p, before, asset) && PointedEach(tag, before, after) && InventoryOk(after)
    ensures PublishedWith(p, after, asset)
  {
    hide StableTagVersion;
    var i := TargetIndex(before, p.tag);
    RecordCarries(before, after, p.tag, i);
  }

  method CheckTerminal(remote: Remote, p: Plan, asset: Asset, inventory: seq<Release>, ghost first: World, ghost start: World) returns (done: bool)
    requires Progress(p, start, remote.Now(), true) && Progress(p, start, first, true) && Later(first, remote.Now())
    requires inventory == remote.releases && p.inputsOk && StableTagVersion(p.tag).Some?
    requires Quiet(first, remote.Now()) && first.faults == remote.faults ==>
      PublishedWith(p, inventory, asset) && LatestIsHighest(inventory)
    modifies remote
    ensures Progress(p, start, remote.Now(), done)
    ensures done ==> Converged(p, remote.releases)
    ensures Creations(remote.events) <= Creations(old(remote.events))
  {
    hide Creations;
    hide Progress;
    hide InventoryOk;
    hide Convergible;
    hide LatestIsHighest;
    hide StableTagVersion;
    hide Examine;
    hide MetadataExact;
    hide ExactAsset;
    hide ExactReleaseAsset;
    done := false;
    if Convergible(p, inventory) { ConvergibleInventory(p, inventory); }
    var terminal := ValidateReleaseInventory(inventory, true);
    if !terminal {
      StopsLate(p, start, first, remote.Now());
      return;
    }
    var final := InventoryRecord(inventory, p.tag);
    if final.None? {
      StopsLate(p, start, first, remote.Now());
      return;
    }
    var exam := Examine(p, final.value, false);
    ExamineExactly(p, final.value, false);
    if Convergible(p, inventory) {
      ConvergiblePasses(p, inventory);
      PublishedIsImmutable(p, final.value);
    }
    if exam != Present(asset) || final.value.draft || !final.value.immutable {
      StopsLate(p, start, first, remote.Now());
      return;
    }
    var fenced := remote.Fences(p, start);
    if !fenced { return; }
    done := true;
    TerminalIsConverged(p, inventory);
  }

  lemma ConvergibleInventory(p: Plan, rs: seq<Release>)
    requires Convergible(p, rs)
    ensures InventoryOk(rs)
  {
  }

  lemma PublishedIsImmutable(p: Plan, r: Release)
    requires MetadataExact(p, r)
    ensures r.immutable != r.draft
  {
  }

  lemma TerminalIsConverged(p: Plan, rs: seq<Release>)
    requires p.inputsOk && StableTagVersion(p.tag).Some? && InventoryOk(rs) && LatestIsHighest(rs)
    requires InventoryRecord(rs, p.tag).Some?
    requires var r := InventoryRecord(rs, p.tag).value; !r.draft && MetadataExact(p, r) && HasExactAsset(p, r)
    ensures Converged(p, rs)
  {
  }

  /** One run of the controller against a remote that others may change and that may
      refuse or lose anything. Whatever happens it issues only warranted mutations, and
      the log of events is all that happened to the remote; it reports success only in
      the terminal state. Undisturbed it is safe wherever it was cut, mutates nothing if
      there was nothing left to do, and without a fault succeeds exactly when its inputs
      and the remote allow it. */
  method Converge(remote: Remote, p: Plan) returns (done: bool)
    modifies remote
    ensures done ==> Converged(p, remote.releases)
    ensures done ==> LatestIsMaximum(remote.releases) && exists r :: r in remote.releases && CarriesPlan(p, r)
    ensures Progress(p, old(remote.Now()), remote.Now(), done)
    ensures Quiet(old(remote.Now()), remote.Now()) ==> Safe(p, old(remote.releases), remote.releases)
    ensures Quiet(old(remote.Now()), remote.Now()) ==> forall i: nat ::
      i < |remote.releases| && !remote.releases[i].draft && !WasPublished(old(remote.releases), i) ==> CarriesPlan(p, remote.releases[i])
    ensures Quiet(old(remote.Now()), remote.Now()) && Converged(p, old(remote.releases)) ==>
      remote.releases == old(remote.releases) && remote.events == old(remote.events)
    ensures Quiet(old(remote.Now()), remote.Now()) && old(remote.faults) == remote.faults ==>
      (done <==> Convergible(p, old(remote.releases)))
    ensures Creations(remote.events) <= Creations(old(remote.events)) + 1
  {
    hide Creations;
    hide Progress;
    hide Safe;
    hide Convergible;
    hide Converged;
    hide CarriesPlan;
    hide LatestIsMaximum;
    hide WasPublished;
    done := ConvergeFrom(remote, p, remote.Now());
    Concludes(p, old(remote.Now()), remote.Now(), done);
  }

  lemma ConvergedCarries(p: Plan, rs: seq<Release>)
    requires Converged(p, rs)
    ensures LatestIsMaximum(rs) && exists r :: r in rs && CarriesPlan(p, r)
  {
    hide LatestIsHighest;
    hide StableTagVersion;
    LatestByNumber(rs);
    hide LatestIsMaximum;
    TargetFields(p, InventoryRecord(rs, p.tag).value);
  }

  lemma Concludes(p: Plan, a: World, b: World, done: bool)
    requires Progress(p, a, b, done) && (done ==> Converged(p, b.releases))
    ensures done ==> LatestIsMaximum(b.releases) && exists r :: r in b.releases && CarriesPlan(p, r)
    ensures Quiet(a, b) ==> forall i: nat ::
      i < |b.releases| && !b.releases[i].draft && !WasPublished(a.releases, i) ==> CarriesPlan(p, b.releases[i])
    ensures Quiet(a, b) ==> Safe(p, a.releases, b.releases)
    ensures Quiet(a, b) && Converged(p, a.releases) ==> b.releases == a.releases && b.events == a.events
    ensures Quiet(a, b) && a.faults == b.faults ==> (done <==> Convergible(p, a.releases))
  {
    hide Safe;
    FinishesExactly(p, a, b, done);
    hide CarriesPlan;
    hide LatestIsMaximum;
    hide WasPublished;
    if done { ConvergedCarries(p, b.releases); }
    if Quiet(a, b) {
      RunIsSafe(p, a, b, done, |b.events|);
      forall i: nat | i < |b.releases| && !b.releases[i].draft && !WasPublished(a.releases, i)
        ensures CarriesPlan(p, b.releases[i])
      {
        PublishedCarriesPlan(p, a.releases, b.releases, i);
      }
    }
    hide Convergible;
    hide Converged;
  }

  method ConvergeFrom(remote: Remote, p: Plan, ghost start: World) returns (done: bool)
    requires start == remote.Now()
    modifies remote
    ensures done ==> Converged(p, remote.releases)
    ensures Progress(p, start, remote.Now(), done)
    ensures Creations(remote.events) <= Creations(old(remote.events)) + 1
  {
    hide Creations;
    hide Progress;
    hide Convergible;
    hide Converged;
    hide PublishedWith;
    hide TargetHas;
    hide InventoryOk;
    Stays(p, start);
    done := false;
    if !p.inputsOk {
      BadInputsStop(p, start);
      return;
    }
    var inventory := EnsureDraft(remote, p, start);
    if inventory.None? { return; }
    var asset := EnsureAsset(remote, p, inventory.value, start);
    if asset.None? { return; }
    var published := EnsurePublished(remote, p, asset.value, start);
    if !published { return; }
    done := EnsureLatest(remote, p, asset.value, start);
  }

  lemma BadInputsStop(p: Plan, start: World)
    requires !p.inputsOk && Progress(p, start, start, true)
    ensures Progress(p, start, start, false)
  {
    Stops(p, start, start);
  }
}
