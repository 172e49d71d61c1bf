/** What every run of the release controller keeps, wherever it is cut, and what chains
    of runs come to (scripts/finalize_release.py, `converge_release`). */
module ReleaseRuns {
  import opened Wrappers
  import opened ReleaseVersion
  import opened ReleaseInventory
  import opened ReleaseConvergence

  predicate WasPublished(start: seq<Release>, i: nat) { i < |start| && !start[i].draft }

  predicate WasLatest(start: seq<Release>, i: nat) { i < |start| && start[i].latest }

  /** Every release published since `start` carries exactly the planned metadata and asset. */
  ghost predicate PublishedExact(p: Plan, start: seq<Release>, now: seq<Release>) {
    forall i: nat :: i < |now| && !now[i].draft && !WasPublished(start, i) ==> MetadataExact(p, now[i]) && HasExactAsset(p, now[i])
  }

  /** A release that has become Latest since `start` is the highest stable one. */
  ghost predicate LatestGrantedHighest(start: seq<Release>, now: seq<Release>) {
    forall i: nat :: i < |now| && now[i].latest && !WasLatest(start, i) ==> IsHighest(now, now[i])
  }

  /** The safety of what began at `start`, in any state it can be left in. */
  ghost predicate Safe(p: Plan, start: seq<Release>, now: seq<Release>) {
    AllKept(p, start, now) && PublishedExact(p, start, now) && LatestGrantedHighest(start, now)
  }

  lemma SafeAtStart(p: Plan, start: seq<Release>)
    ensures Safe(p, start, start)
  {
    AllKeptItself(p, start);
  }

  /** So what was published since `start` carries the plan, field by field. */
  lemma PublishedCarriesPlan(p: Plan, start: seq<Release>, now: seq<Release>, i: nat)
    requires Safe(p, start, now) && i < |now| && !now[i].draft && !WasPublished(start, i)
    ensures CarriesPlan(p, now[i])
  {
    hide IsHighest;
    TargetFields(p, now[i]);
  }

  // ----- one mutation keeps it

  lemma StepKeepsPublished(p: Plan, m: Mutation, start: seq<Release>, now: seq<Release>, after: seq<Release>, complete: bool)
    requires PublishedExact(p, start, now) && Warranted(p, m, now) && Effect(p, m, now, after, complete)
    ensures PublishedExact(p, start, after)
  {
    hide StableTagVersion;
    hide IsHighest;
    hide LatestIsHighest;
    hide NoneAbove;
    hide LatestIsSound;
    forall i: nat | i < |after| && !after[i].draft && !WasPublished(start, i)
      ensures MetadataExact(p, after[i]) && HasExactAsset(p, after[i])
    {
      if m.Publish? && i < |now| && now[i].tag == p.tag {
        RecordIsUnique(now, p.tag, now[i]);
      }
    }
  }

  /** Granting Latest to a release that is highest afterwards, and to none other. */
  lemma PublishKeepsLatest(p: Plan, latest: bool, start: seq<Release>, now: seq<Release>, after: seq<Release>)
    requires LatestGrantedHighest(start, now) && Warranted(p, Publish(latest), now) && PublishedEach(p.tag, latest, now, after)
    ensures LatestGrantedHighest(start, after)
  {
    hide StableTagVersion;
    var t := TargetIndex(now, p.tag);
    forall i: nat | i < |after| && after[i].latest && !WasLatest(start, i) ensures IsHighest(after, after[i]) {
      if latest {
        TargetIsHighest(p, now, after, t, i);
      } else {
        OtherStaysHighest(p, now, after, i);
      }
    }
  }

  lemma TargetIsHighest(p: Plan, now: seq<Release>, after: seq<Release>, t: nat, i: nat)
    requires Warranted(p, Publish(true), now) && PublishedEach(p.tag, true, now, after)
    requires t < |now| && now[t].tag == p.tag && i < |after| && after[i].latest
    ensures IsHighest(after, after[i])
  {
    hide StableTagVersion;
    assert now[i].tag == p.tag;
    RecordIsUnique(now, p.tag, now[i]);
    assert after[i] in after && IsStable(after[i]);
    forall s | s in after && IsStable(s) ensures !Less(VersionOf(after[i]), VersionOf(s)) {
      var k :| 0 <= k < |after| && after[k] == s;
      StableBefore(p, now, after, k, t);
    }
  }

  /** Publishing below the highest leaves it the highest. */
  lemma OtherStaysHighest(p: Plan, now: seq<Release>, after: seq<Release>, i: nat)
    requires Warranted(p, Publish(false), now) && PublishedEach(p.tag, false, now, after)
    requires i < |after| && after[i].latest && IsHighest(now, now[i])
    ensures IsHighest(after, after[i])
  {
    hide StableTagVersion;
    assert after[i] == now[i] && after[i] in after;
    var above :| above in now && IsStable(above) && Less(StableTagVersion(p.tag).value, VersionOf(above));
    forall s | s in after && IsStable(s) ensures !Less(VersionOf(after[i]), VersionOf(s)) {
      var k :| 0 <= k < |after| && after[k] == s;
      if now[k].tag != p.tag { assert now[k] in now && IsStable(now[k]); }
    }
  }

  lemma StepKeepsLatest(p: Plan, m: Mutation, start: seq<Release>, now: seq<Release>, after: seq<Release>, complete: bool)
    requires LatestGrantedHighest(start, now) && Warranted(p, m, now) && Effect(p, m, now, after, complete)
    ensures LatestGrantedHighest(start, after)
  {
    hide StableTagVersion;
    hide LatestIsHighest;
    hide NoneAbove;
    match m
    case CreateDraft => DraftKeepsLatest(p, start, now, after);
    case Upload =>
      var id: nat :| id > 0 && UploadedEach(p, Asset(id, p.assetName, p.content, complete), now, after);
      UploadKeepsLatest(p, Asset(id, p.assetName, p.content, complete), start, now, after);
    case Publish(latest) => PublishKeepsLatest(p, latest, start, now, after);
    case MoveLatest(tag) =>
      forall i: nat | i < |after| && after[i].latest ensures IsHighest(after, after[i]) {
        MovedToHighest(p, tag, now, after, i);
      }
  }

  lemma DraftKeepsLatest(p: Plan, start: seq<Release>, now: seq<Release>, after: seq<Release>)
    requires LatestGrantedHighest(start, now) && Warranted(p, CreateDraft, now) && Effect(p, CreateDraft, now, after, true)
    ensures LatestGrantedHighest(start, after)
  {
    hide StableTagVersion;
    var id :| Fresh(now, id) && after == now + [Draft(p, id)];
    DraftIsNotStable(p, id);
    hide IsStable;
    forall i: nat | i < |after| && after[i].latest && !WasLatest(start, i) ensures IsHighest(after, after[i]) {
      assert after[i] == now[i] && IsHighest(now, now[i]);
    }
  }

  lemma UploadKeepsLatest(p: Plan, a: Asset, start: seq<Release>, now: seq<Release>, after: seq<Release>)
    requires LatestGrantedHighest(start, now) && UploadedEach(p, a, now, after)
    ensures LatestGrantedHighest(start, after)
  {
    hide StableTagVersion;
    forall i: nat | i < |after| && after[i].latest && !WasLatest(start, i) ensures IsHighest(after, after[i]) {
      assert IsHighest(now, now[i]) && after[i] == now[i];
      forall s | s in after && IsStable(s) ensures s in now {
        var k :| 0 <= k < |after| && after[k] == s;
      }
    }
  }

  lemma MovedToHighest(p: Plan, tag: string, now: seq<Release>, after: seq<Release>, i: nat)
    requires Warranted(p, MoveLatest(tag), now) && Effect(p, MoveLatest(tag), now, after, true) && i < |after| && after[i].latest
    ensures IsHighest(after, after[i])
  {
    hide StableTagVersion;
    MoveKeepsFinish(p, tag, now, after);
    var r :| r in after && r.latest && IsHighest(after, r);
    SameLatest(after, after[i], r);
  }

  lemma StepIsSafe(p: Plan, m: Mutation, start: seq<Release>, now: seq<Release>, after: seq<Release>, complete: bool)
    requires Safe(p, start, now) && Warranted(p, m, now) && Effect(p, m, now, after, complete)
    ensures Safe(p, start, after)
  {
    StepKeepsPublished(p, m, start, now, after, complete);
    StepKeepsLatest(p, m, start, now, after, complete);
    WarrantedKeeps(p, m, now, after, complete);
    KeptChains(p, start, now, after);
  }

  // ----- one run

  /** Each event of an undisturbed run is a warranted mutation of the state it met. */
  lemma EventAt(p: Plan, a: World, b: World, on: bool, i: nat)
    requires Progress(p, a, b, on) && Quiet(a, b) && |a.events| <= i < |b.events|
    ensures var e, after := b.events[i], StateAt(b.events, b.releases, i + 1);
      e.Applied? && e.before == StateAt(b.events, b.releases, i) && Warranted(p, e.mutation, e.before)
      && Effect(p, e.mutation, e.before, after, e.complete)
  {
    hide Effect;
    hide Warranted;
    hide Convergible;
    hide Converged;
    hide AllKept;
    assert Happens(p, b.events[i], StateAt(b.events, b.releases, i + 1));
  }

  lemma FirstState(p: Plan, a: World, b: World, on: bool)
    requires Progress(p, a, b, on)
    ensures |a.events| <= |b.events| && StateAt(b.events, b.releases, |a.events|) == a.releases
  {
    hide Convergible;
    hide Converged;
    hide AllKept;
  }

  /** In every state of an undisturbed run, cut where it may be, the run is safe. */
  lemma {:induction false} RunIsSafe(p: Plan, a: World, b: World, on: bool, i: nat)
    requires Progress(p, a, b, on) && Quiet(a, b) && |a.events| <= i <= |b.events|
    ensures Safe(p, a.releases, StateAt(b.events, b.releases, i))
    decreases i
  {
    hide Progress;
    hide Effect;
    hide Warranted;
    hide Safe;
    if i == |a.events| {
      SafeAtStart(p, a.releases);
      FirstState(p, a, b, on);
    } else {
      RunIsSafe(p, a, b, on, i - 1);
      EventAt(p, a, b, on, i - 1);
      var e := b.events[i - 1];
      StepIsSafe(p, e.mutation, a.releases, e.before, StateAt(b.events, b.releases, i), e.complete);
    }
  }

  /** A run that nobody disturbed and that met no fault has finished exactly when the
      inputs and the remote it started from allowed it. */
  lemma FinishesExactly(p: Plan, a: World, b: World, done: bool)
    requires Progress(p, a, b, done) && (done ==> Converged(p, b.releases))
    ensures Quiet(a, b) && a.faults == b.faults ==> (done <==> Convergible(p, a.releases))
  {
    hide NewWarranted;
    hide NewCurrent;
    hide Traces;
    hide AllKept;
  }

  // ----- chains of runs

  /** A run, whether it ended well, failed or was cut. */
  ghost predicate Ran(p: Plan, a: World, b: World) { Progress(p, a, b, true) || Progress(p, a, b, false) }

  /** The worlds between runs that follow one another. */
  ghost predicate Runs(p: Plan, ws: seq<World>) {
    |ws| > 0 && forall i :: 0 <= i < |ws| - 1 ==> Ran(p, ws[i], ws[i + 1])
  }

  lemma {:induction false} RunsCompose(p: Plan, ws: seq<World>, i: nat, j: nat)
    requires Runs(p, ws) && i <= j < |ws|
    ensures Ran(p, ws[i], ws[j])
    decreases j
  {
    hide Progress;
    if i == j {
      Stays(p, ws[i]);
    } else {
      RunsCompose(p, ws, i, j - 1);
      assert Ran(p, ws[j - 1], ws[j]);
      Chains(p, ws[i], ws[j - 1], ws[j], Progress(p, ws[i], ws[j - 1], true), Progress(p, ws[j - 1], ws[j], true));
    }
  }

  /** Any number of undisturbed runs, each cut where it may be, are safe in every state
      the remote went through. */
  lemma RunsAreSafe(p: Plan, ws: seq<World>, k: nat)
    requires Runs(p, ws) && Quiet(ws[0], ws[|ws| - 1]) && |ws[0].events| <= k <= |ws[|ws| - 1].events|
    ensures Safe(p, ws[0].releases, StateAt(ws[|ws| - 1].events, ws[|ws| - 1].releases, k))
  {
    hide Progress;
    hide Safe;
    var a, b := ws[0], ws[|ws| - 1];
    RunsCompose(p, ws, 0, |ws| - 1);
    RunIsSafe(p, a, b, Progress(p, a, b, true), k);
  }

  /** However many undisturbed runs have been cut short, lost mutations or been refused
      reads, an incomplete upload apart, the next one without a fault finishes, if the
      first could have. */
  lemma RestartsConverge(p: Plan, ws: seq<World>, c: World, done: bool)
    requires Runs(p, ws) && Quiet(ws[0], ws[|ws| - 1]) && ws[0].partial == ws[|ws| - 1].partial
    requires Convergible(p, ws[0].releases)
    requires var b := ws[|ws| - 1]; Progress(p, b, c, done) && Quiet(b, c) && b.faults == c.faults
    requires done ==> Converged(p, c.releases)
    ensures done && Converged(p, c.releases)
  {
    RunsCompose(p, ws, 0, |ws| - 1);
    hide Convergible;
    hide Converged;
    hide Runs;
    hide NewWarranted;
    hide NewCurrent;
    hide Traces;
    hide AllKept;
  }

  /** Once a run has left the terminal state, no later undisturbed run mutates anything. */
  lemma RerunMutatesNothing(p: Plan, ws: seq<World>, i: nat, j: nat)
    requires Runs(p, ws) && i <= j < |ws| && Quiet(ws[i], ws[j]) && Converged(p, ws[i].releases)
    ensures ws[j].releases == ws[i].releases && ws[j].events == ws[i].events
  {
    RunsCompose(p, ws, i, j);
    hide Converged;
    hide Convergible;
    hide Runs;
  }

  /** A release published at any point of a chain of undisturbed runs keeps its assets. */
  lemma PublishedStays(p: Plan, ws: seq<World>, i: nat, j: nat, k: nat)
    requires Runs(p, ws) && i <= j < |ws| && Quiet(ws[i], ws[j]) && k < |ws[i].releases| && !ws[i].releases[k].draft
    ensures k < |ws[j].releases| && !ws[j].releases[k].draft && ws[j].releases[k].assets == ws[i].releases[k].assets
  {
    RunsCompose(p, ws, i, j);
    hide Converged;
    hide Convergible;
    hide Runs;
    assert Kept(p, ws[i].releases[k], ws[j].releases[k]);
  }

  // ----- who is granted Latest

  /** The tag a mutation grants Latest to. */
  function Grantee(p: Plan, m: Mutation): Option<string> {
    match m
    case Publish(latest) => if latest then Some(p.tag) else None
    case MoveLatest(tag) => Some(tag)
    case _ => None
  }

  /** `r` is the one Latest release, and the one highest. */
  ghost predicate OnlyHighest(rs: seq<Release>, r: Release) {
    && r in rs && r.latest && IsHighest(rs, r)
    && forall s :: (s in rs && s.latest) || IsHighest(rs, s) ==> s == r
  }

  lemma OneAndHighest(rs: seq<Release>, r: Release)
    requires DistinctIdentities(rs) && LatestIsSound(rs) && r in rs && r.latest && IsHighest(rs, r)
    ensures OnlyHighest(rs, r)
  {
    hide IsHighest;
    forall s | s in rs && s.latest ensures s == r { SameLatest(rs, s, r); }
    forall s | IsHighest(rs, s) ensures s == r { HighestIsUnique(rs, s, r); }
  }

  ghost predicate NoneGains(before: seq<Release>, after: seq<Release>) {
    forall i: nat :: i < |after| && after[i].latest ==> WasLatest(before, i)
  }

  lemma EffectKeepsSound(p: Plan, m: Mutation, before: seq<Release>, after: seq<Release>, complete: bool)
    requires Warranted(p, m, before) && Effect(p, m, before, after, complete)
    ensures DistinctIdentities(after) && LatestIsSound(after)
  {
    hide StableTagVersion;
    hide IsHighest;
    hide LatestIsHighest;
    hide NoneAbove;
    match m
    case CreateDraft => DraftKeepsSound(p, before, after);
    case Upload =>
      var id: nat :| id > 0 && UploadedEach(p, Asset(id, p.assetName, p.content, complete), before, after);
      UploadKeepsInventory(p, Asset(id, p.assetName, p.content, complete), before, after);
    case Publish(latest) =>
      var i := TargetIndex(before, p.tag);
      PublishKeepsInventory(p.tag, latest, before, after, i);
    case MoveLatest(tag) => MoveKeepsFinish(p, tag, before, after);
  }

  lemma DraftKeepsSound(p: Plan, before: seq<Release>, after: seq<Release>)
    requires Warranted(p, CreateDraft, before) && Effect(p, CreateDraft, before, after, true)
    ensures DistinctIdentities(after) && LatestIsSound(after)
  {
    hide StableTagVersion;
    hide IsStable;
    var id :| Fresh(before, id) && after == before + [Draft(p, id)];
    DraftIsNotStable(p, id);
  }

  /** Where someone is granted Latest, it is the highest release, and it alone then; a
      mutation that grants it to nobody lets nobody gain it. */
  lemma EffectGrants(p: Plan, m: Mutation, before: seq<Release>, after: seq<Release>, complete: bool)
    requires Warranted(p, m, before) && Effect(p, m, before, after, complete)
    ensures Grantee(p, m).Some? ==> exists r: Release :: r.tag == Grantee(p, m).value && OnlyHighest(after, r)
    ensures Grantee(p, m).None? ==> NoneGains(before, after)
  {
    hide StableTagVersion;
    hide IsHighest;
    hide IsStable;
    hide NoneAbove;
    if Grantee(p, m).Some? {
      EffectKeepsSound(p, m, before, after, complete);
      LatestOnlyToHighest(p, m, before, after);
      var r :| r in after && r.latest && IsHighest(after, r);
      OneAndHighest(after, r);
      assert r.tag == Grantee(p, m).value by {
        if m.MoveLatest? { MoveKeepsFinish(p, m.tag, before, after); }
      }
    }
  }

  /** However undisturbed runs are cut: each of their mutations that grants Latest leaves
      its grantee the one Latest and the one highest release, whether it ever was Latest
      before or not, and no other mutation lets a release gain it. */
  lemma GrantsGoToHighest(p: Plan, ws: seq<World>, k: nat)
    requires Runs(p, ws) && Quiet(ws[0], ws[|ws| - 1]) && |ws[0].events| <= k < |ws[|ws| - 1].events|
    ensures var e := ws[|ws| - 1].events[k];
      && e.Applied?
      && (Grantee(p, e.mutation).Some? ==> exists r: Release :: r.tag == Grantee(p, e.mutation).value && OnlyHighest(e.after, r))
      && (Grantee(p, e.mutation).None? ==> NoneGains(e.before, e.after))
  {
    var a, b := ws[0], ws[|ws| - 1];
    RunsCompose(p, ws, 0, |ws| - 1);
    var on := Progress(p, a, b, true);
    AfterEvent(p, a, b, on, k);
    EventAt(p, a, b, on, k);
    hide Runs;
    hide Progress;
    hide Effect;
    hide Warranted;
    hide OnlyHighest;
    hide NoneGains;
    hide Grantee;
    var e := b.events[k];
    EffectGrants(p, e.mutation, e.before, e.after, e.complete);
  }

  lemma AfterEvent(p: Plan, a: World, b: World, on: bool, k: nat)
    requires Progress(p, a, b, on) && |a.events| <= k < |b.events|
    ensures b.events[k].after == StateAt(b.events, b.releases, k + 1)
  {
    hide Effect;
    hide Warranted;
    hide Convergible;
    hide Converged;
    hide AllKept;
    assert Happens(p, b.events[k], StateAt(b.events, b.releases, k + 1));
  }

  lemma StateIsSound(p: Plan, a: World, b: World, on: bool, k: nat)
    requires Progress(p, a, b, on) && Quiet(a, b) && |a.events| < k <= |b.events|
    ensures var now := StateAt(b.events, b.releases, k); DistinctIdentities(now) && LatestIsSound(now)
  {
    hide Progress;
    hide Effect;
    hide Warranted;
    hide DistinctIdentities;
    hide LatestIsSound;
    EventAt(p, a, b, on, k - 1);
    var e := b.events[k - 1];
    EffectKeepsSound(p, e.mutation, e.before, StateAt(b.events, b.releases, k), e.complete);
  }

  lemma NewLatestIsAlone(p: Plan, a: World, b: World, on: bool, k: nat, now: seq<Release>, i: nat)
    requires Progress(p, a, b, on) && Quiet(a, b) && |a.events| <= k <= |b.events| && now == StateAt(b.events, b.releases, k)
    requires i < |now| && now[i].latest && !WasLatest(a.releases, i)
    ensures OnlyHighest(now, now[i])
  {
    hide Progress;
    hide AllKept;
    hide PublishedExact;
    hide IsHighest;
    hide OnlyHighest;
    hide DistinctIdentities;
    hide LatestIsSound;
    RunIsSafe(p, a, b, on, k);
    FirstState(p, a, b, on);
    StateIsSound(p, a, b, on, k);
    OneAndHighest(now, now[i]);
  }

  /** In any state of a chain of undisturbed runs in which Latest is with a release that was
      not Latest at the start, that release is the one Latest and the one highest. */
  lemma LatestMovesToHighest(p: Plan, ws: seq<World>, k: nat, now: seq<Release>, i: nat)
    requires Runs(p, ws) && Quiet(ws[0], ws[|ws| - 1]) && |ws[0].events| <= k <= |ws[|ws| - 1].events|
    requires now == StateAt(ws[|ws| - 1].events, ws[|ws| - 1].releases, k)
    requires i < |now| && now[i].latest && !WasLatest(ws[0].releases, i)
    ensures OnlyHighest(now, now[i])
  {
    hide Progress;
    hide OnlyHighest;
    var a, b := ws[0], ws[|ws| - 1];
    RunsCompose(p, ws, 0, |ws| - 1);
    NewLatestIsAlone(p, a, b, Progress(p, a, b, true), k, now, i);
  }

  // ----- an upload that stays incomplete

  ghost predicate HasIncomplete(r: Release) { exists i :: 0 <= i < |r.assets| && !r.assets[i].uploaded }

  /** Once the target has an asset whose upload stayed incomplete, no later undisturbed run
      reaches the terminal state: the controller never removes it. */
  lemma IncompleteNeverFinishes(p: Plan, ws: seq<World>, k: nat)
    requires Runs(p, ws) && Quiet(ws[0], ws[|ws| - 1])
    requires k < |ws[0].releases| && ws[0].releases[k].tag == p.tag && HasIncomplete(ws[0].releases[k])
    ensures !Converged(p, ws[|ws| - 1].releases)
  {
    var a, b := ws[0], ws[|ws| - 1];
    RunsCompose(p, ws, 0, |ws| - 1);
    hide Runs;
    RanKeeps(p, a, b);
    hide Ran;
    hide Converged;
    assert Kept(p, a.releases[k], b.releases[k]);
    if Converged(p, b.releases) { ConvergedIsComplete(p, b.releases, b.releases[k]); }
  }

  lemma RanKeeps(p: Plan, a: World, b: World)
    requires Ran(p, a, b) && Quiet(a, b)
    ensures AllKept(p, a.releases, b.releases)
  {
    hide NewWarranted;
    hide Traces;
    hide AllKept;
    hide Converged;
    hide Convergible;
  }

  lemma ConvergedIsComplete(p: Plan, rs: seq<Release>, r: Release)
    requires Converged(p, rs) && r in rs && r.tag == p.tag
    ensures !HasIncomplete(r)
  {
    hide StableTagVersion;
    hide LatestIsHighest;
    RecordIsUnique(rs, p.tag, r);
  }

  // ----- the draft is created once

  /** From one event to a later one releases are kept. */
  lemma {:induction false} KeptBetween(p: Plan, a: World, b: World, on: bool, i: nat, j: nat)
    requires Progress(p, a, b, on) && Quiet(a, b) && |a.events| <= i <= j <= |b.events|
    ensures AllKept(p, StateAt(b.events, b.releases, i), StateAt(b.events, b.releases, j))
    decreases j
  {
    hide Progress;
    hide Effect;
    hide Warranted;
    hide AllKept;
    if i == j {
      AllKeptItself(p, StateAt(b.events, b.releases, i));
    } else {
      KeptBetween(p, a, b, on, i, j - 1);
      EventAt(p, a, b, on, j - 1);
      var e := b.events[j - 1];
      WarrantedKeeps(p, e.mutation, e.before, StateAt(b.events, b.releases, j), e.complete);
      KeptChains(p, StateAt(b.events, b.releases, i), e.before, StateAt(b.events, b.releases, j));
    }
  }

  lemma KeptRecord(p: Plan, before: seq<Release>, after: seq<Release>)
    requires AllKept(p, before, after) && InventoryRecord(before, p.tag).Some?
    ensures InventoryRecord(after, p.tag).Some?
  {
    var i := TargetIndex(before, p.tag);
    assert Kept(p, before[i], after[i]) && after[i] in after;
  }

  /** Undisturbed runs create the draft at most once among them. */
  lemma DraftCreatedOnce(p: Plan, ws: seq<World>, i: nat, j: nat)
    requires Runs(p, ws) && Quiet(ws[0], ws[|ws| - 1]) && |ws[0].events| <= i < j < |ws[|ws| - 1].events|
    ensures var es := ws[|ws| - 1].events; !(es[i].Applied? && es[i].mutation.CreateDraft? && es[j].Applied? && es[j].mutation.CreateDraft?)
  {
    var a, b := ws[0], ws[|ws| - 1];
    RunsCompose(p, ws, 0, |ws| - 1);
    hide Runs;
    hide Progress;
    var on := Progress(p, a, b, true);
    if b.events[i].Applied? && b.events[i].mutation.CreateDraft? { OneCreation(p, a, b, on, i, j); }
  }

  lemma OneCreation(p: Plan, a: World, b: World, on: bool, i: nat, j: nat)
    requires Progress(p, a, b, on) && Quiet(a, b) && |a.events| <= i < j < |b.events|
    requires b.events[i].Applied? && b.events[i].mutation.CreateDraft?
    ensures !(b.events[j].Applied? && b.events[j].mutation.CreateDraft?)
  {
    hide Progress;
    hide InventoryOk;
    hide AllKept;
    EventAt(p, a, b, on, i);
    EventAt(p, a, b, on, j);
    KeptBetween(p, a, b, on, i + 1, j);
    var made := StateAt(b.events, b.releases, i + 1);
    CreatedIsThere(p, b.events[i].before, made);
    KeptRecord(p, made, b.events[j].before);
  }
}
