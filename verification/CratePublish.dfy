/** Publishing a catalog of crates to a registry that drops or delays uploads, refuses
    reads and is used by others (scripts/crates_release.py, `publish`). */
module CratePublish {
  import opened Wrappers
  import opened Graphs
  import opened PublishOrder

  const MAX_NEW_CRATE_RATE_LIMIT_RETRIES: nat := 2

  datatype Checksum = Checksum(digest: string)
  type Shown = map<Name, Checksum>

  /** One upload issued: what the registry showed when the crate was last looked up,
      what it showed when the upload was sent, and the answer it retries, if any. */
  datatype Put = Put(crate: Name, checksum: Checksum, read: Shown, shown: Shown, retried: Option<Response>)

  datatype Reading = Unavailable | Malformed | Unlisted | Listed(checksum: Checksum)

  /** What an upload is answered, if at all; a rate limit may name a usable delay. */
  datatype Response = Answered | RateLimited(delay: Option<nat>)

  /** A download and what it gave; None is one that failed or was cut short. */
  datatype Got = Got(crate: Name, bytes: Option<Checksum>)

  datatype Wait = Confirmed | OtherBytes | TimedOutMissing | Ambiguous

  /** The registry and what has happened to it: what it has accepted, what of that it
      shows, the uploads issued, the faults met (unanswered or malformed reads, dropped
      or rate-limited uploads, versions slow to show, failed authority checks and
      downloads) and the versions others have published. */
  datatype World = World(accepted: Shown, visible: Shown, puts: seq<Put>, faults: nat, foreign: nat)

  ghost predicate Within(a: Shown, b: Shown) {
    forall c :: c in a ==> c in b && b[c] == a[c]
  }

  /** An accepted version is immutable and, once shown, stays shown. */
  ghost predicate Later(a: World, b: World) {
    && Within(a.accepted, b.accepted) && Within(a.visible, b.visible) && Within(b.visible, b.accepted)
    && a.puts <= b.puts && a.faults <= b.faults && a.foreign <= b.foreign
  }

  /** Nothing has gone wrong and nobody else has published between `a` and `b`. */
  ghost predicate Clean(a: World, b: World) { a.faults == b.faults && a.foreign == b.foreign }

  lemma LaterChains(a: World, b: World, c: World)
    requires Later(a, b) && Later(b, c)
    ensures Later(a, c)
    ensures Clean(a, c) ==> Clean(a, b) && Clean(b, c)
  {
  }

  lemma LaterItself(a: World)
    requires Within(a.visible, a.accepted)
    ensures Later(a, a)
  {
  }

  lemma WithinLater(start: Shown, a: World, b: World)
    requires Within(start, a.visible) && Later(a, b)
    ensures Within(start, b.visible)
  {
  }

  ghost function WithCrate(accepted: Shown, crate: Name, expected: Checksum): Shown {
    if crate in accepted then accepted else accepted[crate := expected]
  }

  /** While nobody else has published, nothing but these bytes of the crate has been accepted. */
  ghost predicate OwnUpload(crate: Name, expected: Checksum, a: World, b: World) {
    a.foreign == b.foreign ==> Within(b.accepted, WithCrate(a.accepted, crate, expected))
  }

  lemma OwnUploadsChain(crate: Name, expected: Checksum, a: World, b: World, c: World)
    requires Later(a, b) && Later(b, c) && OwnUpload(crate, expected, a, b) && OwnUpload(crate, expected, b, c)
    ensures OwnUpload(crate, expected, a, c)
  {
  }

  class Registry {
    var accepted: Shown
    var visible: Shown
    ghost var puts: seq<Put>
    ghost var readings: seq<Reading>   // what each look at a checksum was answered
    ghost var answers: seq<Response>   // what each upload was answered
    ghost var downloads: seq<Got>      // what was downloaded
    ghost var refusals: nat            // failed checks of the authority
    ghost var faults: nat
    ghost var foreign: nat

    ghost function Now(): World
      reads this
    {
      World(accepted, visible, puts, faults, foreign)
    }

    ghost predicate Valid()
      reads this
    {
      Within(visible, accepted)
    }

    /** Time passes: others may publish, delayed uploads arrive, accepted versions show. */
    method Advance()
      requires Valid()
      modifies this
      ensures Valid() && Later(old(Now()), Now()) && puts == old(puts) && faults == old(faults)
      ensures readings == old(readings) && answers == old(answers) && refusals == old(refusals) && downloads == old(downloads)
      ensures foreign == old(foreign) ==> accepted == old(accepted)
    {
      if * {
        var more: Shown := *;
        accepted := more + accepted;
        foreign := foreign + 1;
      }
      var show: set<Name> := *;
      visible := map c | c in accepted && (c in visible || c in show) :: accepted[c];
    }

    method Fault()
      requires Valid()
      modifies this`faults
      ensures Valid() && faults == old(faults) + 1
    {
      faults := faults + 1;
    }

    /** Reads the checksum the registry shows for a crate. */
    method ReadChecksum(crate: Name) returns (r: Reading)
      requires Valid()
      modifies this
      ensures Valid() && Later(old(Now()), Now()) && puts == old(puts)
      ensures foreign == old(foreign) ==> accepted == old(accepted)
      ensures readings == old(readings) + [r] && answers == old(answers) && refusals == old(refusals) && downloads == old(downloads)
      ensures r == Unlisted ==> crate !in visible
      ensures r.Listed? ==> crate in visible && visible[crate] == r.checksum
      ensures r.Unavailable? || r.Malformed? ==> faults > old(faults)
    {
      Advance();
      if * {
        Fault();
        r := Unavailable;
        if * { r := Malformed; }
      } else {
        r := if crate in visible then Listed(visible[crate]) else Unlisted;
      }
      readings := readings + [r];
    }

    /** One upload. It may be dropped, or accepted without an answer; a version already
        accepted is never replaced. */
    method Upload(crate: Name, checksum: Checksum, ghost read: Shown, ghost retried: Option<Response>) returns (r: Response)
      requires Valid()
      modifies this
      ensures Valid() && Later(old(Now()), Now())
      ensures puts == old(puts) + [Put(crate, checksum, read, visible, retried)]
      ensures readings == old(readings) && answers == old(answers) + [r] && refusals == old(refusals) && downloads == old(downloads)
      ensures Clean(old(Now()), Now()) ==> accepted == if crate in old(accepted) then old(accepted) else old(accepted)[crate := checksum]
      ensures OwnUpload(crate, checksum, old(Now()), Now())
    {
      Advance();
      puts := puts + [Put(crate, checksum, read, visible, retried)];
      if crate !in accepted {
        if * { Fault(); } else { accepted := accepted[crate := checksum]; }
      }
      r := Answered;
      if * {
        var delay: Option<nat> := *;
        r := RateLimited(delay);
      }
      answers := answers + [r];
    }

    /** The wait for a version has run out; for one that was accepted that is a fault. */
    method Expire(crate: Name)
      requires Valid()
      modifies this`faults
      ensures Valid() && faults >= old(faults)
      ensures crate in accepted ==> faults > old(faults)
    {
      if crate in accepted { Fault(); }
    }

    /** Downloads the shown version; None is a failed or short download. */
    method Download(crate: Name) returns (r: Option<Checksum>)
      requires Valid()
      modifies this
      ensures Valid() && Later(old(Now()), Now()) && puts == old(puts)
      ensures foreign == old(foreign) ==> accepted == old(accepted)
      ensures r.Some? ==> crate in visible && visible[crate] == r.value
      ensures readings == old(readings) && answers == old(answers) && refusals == old(refusals)
      ensures downloads == old(downloads) + [Got(crate, r)]
      ensures r.None? && crate in old(visible) ==> faults > old(faults)
    {
      Advance();
      if * {
        Fault();
        r := None;
      } else {
        r := if crate in visible then Some(visible[crate]) else None;
      }
      downloads := downloads + [Got(crate, r)];
    }

    /** Re-reads the release authority before a write. */
    method VerifyAuthority() returns (ok: bool)
      requires Valid()
      modifies this`faults, this`refusals
      ensures Valid() && (if ok then faults == old(faults) else faults > old(faults))
      ensures refusals == old(refusals) + if ok then 0 else 1
    {
      ok := true;
      if * {
        Fault();
        refusals := refusals + 1;
        ok := false;
      }
    }
  }

  /** A look that settles nothing: the wait goes on after it. */
  predicate Inconclusive(r: Reading) { r.Unlisted? || r.Unavailable? }

  /** The outcome of a wait of `polls` further looks that were answered so: the first look
      that is not inconclusive decides it, and if none is, only the look after all the
      polls ends it. */
  ghost predicate WaitedFor(looks: seq<Reading>, expected: Checksum, polls: nat, r: Option<Wait>) {
    && 0 < |looks| <= polls + 1
    && (forall i :: 0 <= i < |looks| - 1 ==> Inconclusive(looks[i]))
    && match looks[|looks| - 1]
       case Malformed => r.None?
       case Listed(checksum) => r == Some(if checksum == expected then Confirmed else OtherBytes)
       case Unlisted => |looks| == polls + 1 && r == Some(TimedOutMissing)
       case Unavailable => |looks| == polls + 1 && r == Some(Ambiguous)
  }

  /** Polls until the registry shows some version of the crate or `polls` runs out; a
      malformed answer aborts at once. None is that abort. */
  method WaitForChecksum(registry: Registry, crate: Name, expected: Checksum, polls: nat) returns (r: Option<Wait>)
    requires registry.Valid()
    modifies registry
    ensures registry.Valid() && Later(old(registry.Now()), registry.Now()) && registry.puts == old(registry.puts)
    ensures registry.foreign == old(registry.foreign) ==> registry.accepted == old(registry.accepted)
    ensures r == Some(Confirmed) ==> crate in registry.visible && registry.visible[crate] == expected
    ensures r == Some(OtherBytes) ==> crate in registry.visible && registry.visible[crate] != expected
    ensures r == Some(TimedOutMissing) ==> crate !in registry.visible
    ensures r.None? || r == Some(Ambiguous) ==> registry.faults > old(registry.faults)
    ensures r == Some(TimedOutMissing) && crate in registry.accepted ==> registry.faults > old(registry.faults)
    ensures old(registry.readings) <= registry.readings && registry.answers == old(registry.answers)
    ensures registry.refusals == old(registry.refusals) && registry.downloads == old(registry.downloads)
    ensures WaitedFor(registry.readings[|old(registry.readings)|..], expected, polls, r)
  {
    ghost var earlier := registry.readings;
    var left := polls;
    while true
      invariant registry.Valid() && Later(old(registry.Now()), registry.Now()) && registry.puts == old(registry.puts)
      invariant registry.foreign == old(registry.foreign) ==> registry.accepted == old(registry.accepted)
      invariant earlier <= registry.readings && |registry.readings| == |earlier| + (polls - left) && 0 <= left <= polls
      invariant registry.refusals == old(registry.refusals) && registry.answers == old(registry.answers)
      invariant registry.downloads == old(registry.downloads)
      invariant forall i :: |earlier| <= i < |registry.readings| ==> Inconclusive(registry.readings[i])
      decreases left
    {
      ghost var before := registry.Now();
      var observed := registry.ReadChecksum(crate);
      LaterChains(old(registry.Now()), before, registry.Now());
      if observed.Malformed? { return None; }
      if observed.Listed? {
        return Some(if observed.checksum != expected then OtherBytes else Confirmed);
      }
      if left == 0 {
        if observed == Unlisted {
          registry.Expire(crate);
          return Some(TimedOutMissing);
        }
        return Some(Ambiguous);
      }
      left := left - 1;
    }
  }

  /** The uploads of one crate since `from`: each of the closed bytes and while nothing
      of the crate was shown, at most three, and all but the first only after the limit
      on new names. */
  ghost predicate OneCratePuts(crate: Name, checksum: Checksum, start: Shown, from: nat, puts: seq<Put>) {
    && from <= |puts| <= from + MAX_NEW_CRATE_RATE_LIMIT_RETRIES + 1
    && forall k :: from <= k < |puts| ==> RightPut(puts[k], crate, checksum, start, k == from)
  }

  ghost predicate RightPut(put: Put, crate: Name, checksum: Checksum, start: Shown, isFirst: bool) {
    && put.crate == crate && put.checksum == checksum
    && crate !in put.read && Within(start, put.read) && Within(put.read, put.shown)
    && (if isFirst then put.retried.None?
        else put.retried.Some? && put.retried.value.RateLimited? && put.retried.value.delay.Some?)
  }

  /** Nothing speaks against publishing these bytes of the crate. */
  ghost predicate NoConflict(accepted: Shown, crate: Name, expected: Checksum) {
    crate in accepted ==> accepted[crate] == expected
  }

  /** One upload and the wait for its readback. */
  method UploadOnce(registry: Registry, crate: Name, expected: Checksum, polls: nat, ghost retried: Option<Response>)
    returns (wait: Option<Wait>, response: Response)
    requires registry.Valid() && crate !in registry.visible
    modifies registry
    ensures registry.Valid() && Later(old(registry.Now()), registry.Now())
    ensures exists shown :: Within(old(registry.visible), shown) &&
              registry.puts == old(registry.puts) + [Put(crate, expected, old(registry.visible), shown, retried)]
    ensures wait == Some(Confirmed) ==> crate in registry.visible && registry.visible[crate] == expected
    ensures wait == Some(TimedOutMissing) ==> crate !in registry.visible
    ensures old(registry.readings) <= registry.readings && registry.answers == old(registry.answers) + [response]
    ensures registry.refusals == old(registry.refusals) && registry.downloads == old(registry.downloads)
    ensures WaitedFor(registry.readings[|old(registry.readings)|..], expected, polls, wait)
    ensures Clean(old(registry.Now()), registry.Now()) ==>
      && registry.accepted == WithCrate(old(registry.accepted), crate, expected)
      && wait == Some(if NoConflict(old(registry.accepted), crate, expected) then Confirmed else OtherBytes)
    ensures OwnUpload(crate, expected, old(registry.Now()), registry.Now())
  {
    hide WaitedFor;
    ghost var before := registry.Now();
    response := registry.Upload(crate, expected, before.visible, retried);
    ghost var uploaded := registry.Now();
    wait := WaitForChecksum(registry, crate, expected, polls);
    WaitedOut(before, uploaded, registry.Now());
    if Clean(before, registry.Now()) {
      assert crate in registry.accepted && registry.accepted == WithCrate(before.accepted, crate, expected);
      assert uploaded.faults == registry.faults;
      assert wait.Some? && !wait.value.Ambiguous? && !wait.value.TimedOutMissing?;
      assert registry.visible[crate] == registry.accepted[crate];
    }
  }

  /** The answer invites another attempt: the limit on new names with a usable delay. */
  predicate Retryable(r: Response) { r.RateLimited? && r.delay.Some? }

  /** The last wait, from look `k` on, confirmed the bytes. */
  ghost predicate Confirms(looks: seq<Reading>, from: nat, expected: Checksum, polls: nat) {
    exists k :: from <= k <= |looks| && WaitedFor(looks[k..], expected, polls, Some(Confirmed))
  }

  /** The last wait did not confirm the bytes; and if it ended with nothing shown, either the
      last upload was not answered so as to be tried again or there have been three. */
  ghost predicate GivesUp(looks: seq<Reading>, from: nat, expected: Checksum, polls: nat, last: Response, uploads: nat) {
    exists k, w :: from <= k <= |looks| && WaitedFor(looks[k..], expected, polls, w)
      && w != Some(Confirmed) && (w == Some(TimedOutMissing) ==> !Retryable(last) || uploads == 3)
  }

  lemma WaitEnds(looks: seq<Reading>, from: nat, k: nat, expected: Checksum, polls: nat, w: Option<Wait>, last: Response, uploads: nat)
    requires from <= k <= |looks| && WaitedFor(looks[k..], expected, polls, w)
    ensures w == Some(Confirmed) ==> Confirms(looks, from, expected, polls)
    ensures w != Some(Confirmed) && (w == Some(TimedOutMissing) ==> !Retryable(last) || uploads == 3) ==>
      GivesUp(looks, from, expected, polls, last, uploads)
  {
    hide WaitedFor;
    hide Retryable;
  }

  /** Uploads one crate's closed bytes, trusting the readback alone and retrying only
      the limit on new names. */
  method PublishCrate(registry: Registry, crate: Name, expected: Checksum, polls: nat, ghost start: Shown) returns (ok: bool)
    requires registry.Valid() && crate !in registry.visible && Within(start, registry.visible)
    modifies registry
    ensures registry.Valid() && Later(old(registry.Now()), registry.Now())
    ensures OneCratePuts(crate, expected, start, |old(registry.puts)|, registry.puts)
    ensures ok ==> crate in registry.visible && registry.visible[crate] == expected && |registry.puts| > |old(registry.puts)|
    ensures |registry.puts| <= |old(registry.puts)| + 3
    ensures old(registry.readings) <= registry.readings && old(registry.answers) <= registry.answers
    ensures |registry.answers| - |old(registry.answers)| == |registry.puts| - |old(registry.puts)|
    ensures registry.downloads == old(registry.downloads)
    ensures ok ==> Confirms(registry.readings, |old(registry.readings)|, expected, polls)
    ensures !ok && registry.refusals == old(registry.refusals) ==>
      |registry.puts| > |old(registry.puts)| &&
      GivesUp(registry.readings, |old(registry.readings)|, expected, polls,
        registry.answers[|registry.answers| - 1], |registry.puts| - |old(registry.puts)|)
    ensures Clean(old(registry.Now()), registry.Now()) ==>
      && registry.accepted == WithCrate(old(registry.accepted), crate, expected)
      && (ok <==> NoConflict(old(registry.accepted), crate, expected))
    ensures OwnUpload(crate, expected, old(registry.Now()), registry.Now())
  {
    hide NoConflict;
    hide WithCrate;
    hide OwnUpload;
    hide OneCratePuts;
    hide WaitedFor;
    hide Confirms;
    hide GivesUp;
    hide Within;
    LaterItself(registry.Now());
    OwnUploadItself(crate, expected, registry.Now());
    NonePut(crate, expected, start, registry.puts);
    ok := false;
    ghost var retried: Option<Response> := None;
    ghost var from := |registry.puts|;
    for attempt := 0 to MAX_NEW_CRATE_RATE_LIMIT_RETRIES + 1
      invariant registry.Valid() && Later(old(registry.Now()), registry.Now())
      invariant crate !in registry.visible && Within(start, registry.visible)
      invariant |registry.puts| == from + attempt && OneCratePuts(crate, expected, start, from, registry.puts)
      invariant attempt == 0 <==> retried.None?
      invariant retried.Some? ==> retried.value.RateLimited? && retried.value.delay.Some?
      invariant attempt == 0 ==> registry.accepted == old(registry.accepted)
      invariant OwnUpload(crate, expected, old(registry.Now()), registry.Now())
      invariant attempt > 0 ==> !Clean(old(registry.Now()), registry.Now())
      invariant attempt <= MAX_NEW_CRATE_RATE_LIMIT_RETRIES
      invariant old(registry.readings) <= registry.readings && old(registry.answers) <= registry.answers
      invariant |registry.answers| == |old(registry.answers)| + attempt && registry.refusals == old(registry.refusals)
      invariant registry.downloads == old(registry.downloads)
    {
      ghost var before := registry.Now();
      var authorized := registry.VerifyAuthority();
      SameUpload(crate, expected, before, registry.Now());
      OwnUploadsChain(crate, expected, old(registry.Now()), before, registry.Now());
      if !authorized { return; }
      ghost var granted, looked := registry.Now(), |registry.readings|;
      var wait, response := UploadOnce(registry, crate, expected, polls, retried);
      PutAppends(crate, expected, start, from, granted.puts, registry.puts, attempt == 0);
      LaterChains(old(registry.Now()), before, registry.Now());
      WithinLater(start, before, registry.Now());
      OwnUploadsChain(crate, expected, old(registry.Now()), granted, registry.Now());
      WaitEnds(registry.readings, |old(registry.readings)|, looked, expected, polls, wait, response, attempt + 1);
      if wait == Some(Confirmed) { return true; }
      if wait != Some(TimedOutMissing) { return; }
      if response.Answered? || response.delay.None? || attempt == MAX_NEW_CRATE_RATE_LIMIT_RETRIES { return; }
      retried := Some(response);
    }
  }

  /** Nothing has been accepted in between. */
  lemma SameUpload(crate: Name, expected: Checksum, a: World, b: World)
    requires Within(a.visible, b.visible) && (a.foreign == b.foreign ==> b.accepted == a.accepted)
    ensures OwnUpload(crate, expected, a, b)
  {
  }

  lemma OwnUploadItself(crate: Name, expected: Checksum, a: World)
    ensures OwnUpload(crate, expected, a, a)
  {
  }

  lemma NonePut(crate: Name, expected: Checksum, start: Shown, puts: seq<Put>)
    ensures OneCratePuts(crate, expected, start, |puts|, puts)
  {
  }

  lemma PutAppends(crate: Name, expected: Checksum, start: Shown, from: nat, before: seq<Put>, after: seq<Put>, isFirst: bool)
    requires OneCratePuts(crate, expected, start, from, before) && |before| <= from + MAX_NEW_CRATE_RATE_LIMIT_RETRIES
    requires |after| == |before| + 1 && before <= after && (isFirst <==> |before| == from)
    requires RightPut(after[|before|], crate, expected, start, isFirst)
    ensures OneCratePuts(crate, expected, start, from, after)
  {
    hide RightPut;
    forall k | from <= k < |after| ensures RightPut(after[k], crate, expected, start, k == from) {
      if k < |before| { assert after[k] == before[k]; }
    }
  }

  lemma WaitedOut(before: World, uploaded: World, now: World)
    requires Later(before, uploaded) && Later(uploaded, now)
    ensures Later(before, now)
    ensures Clean(before, now) ==> Clean(before, uploaded) && Clean(uploaded, now)
  {
  }

  // ----- the whole catalog

  datatype Outcome = Outcome(crate: Name, published: bool)

  datatype PublishResult = Completed(outcomes: seq<Outcome>) | Incomplete

  function PutsFor(crate: Name, puts: seq<Put>): nat {
    if puts == [] then 0
    else PutsFor(crate, puts[..|puts| - 1]) + if puts[|puts| - 1].crate == crate then 1 else 0
  }

  /** The registry shows the closed bytes of each of the crates. */
  ghost predicate AllExact(crates: seq<Name>, closed: map<Name, Checksum>, visible: Shown) {
    forall c :: c in crates ==> c in closed && c in visible && visible[c] == closed[c]
  }

  /** An upload issued in a run over `crates`: of the closed bytes of one of them that
      was missing when last looked up and at the start of the run, after all the crates
      before it were shown with their closed bytes. */
  ghost predicate RunPut(put: Put, crates: seq<Name>, closed: map<Name, Checksum>, start: Shown) {
    && put.crate in closed && put.checksum == closed[put.crate]
    && put.crate !in put.read && put.crate !in start
    && exists i :: 0 <= i < |crates| && crates[i] == put.crate && AllExact(crates[..i], closed, put.shown)
  }

  ghost predicate RunPuts(crates: seq<Name>, closed: map<Name, Checksum>, start: Shown, from: nat, puts: seq<Put>) {
    from <= |puts| && forall k :: from <= k < |puts| ==> RunPut(puts[k], crates, closed, start)
  }

  ghost predicate NoConflicts(crates: seq<Name>, closed: map<Name, Checksum>, accepted: Shown) {
    forall c :: c in crates && c in closed ==> NoConflict(accepted, c, closed[c])
  }

  /** While nobody else has published, only closed bytes of these crates have been accepted. */
  ghost predicate OwnWork(crates: seq<Name>, closed: map<Name, Checksum>, a: World, b: World) {
    a.foreign == b.foreign ==>
      forall c :: c in b.accepted && c !in a.accepted ==> c in crates && c in closed && b.accepted[c] == closed[c]
  }

  lemma OwnWorkNext(crates: seq<Name>, closed: map<Name, Checksum>, crate: Name, a: World, b: World, c: World)
    requires Later(a, b) && Later(b, c) && OwnWork(crates, closed, a, b)
    requires crate in crates && crate in closed && OwnUpload(crate, closed[crate], b, c)
    ensures OwnWork(crates, closed, a, c)
  {
  }

  /** What a run that has got from `a` to `b` has kept, wherever it was cut. */
  ghost predicate Ran(deps: Graph<Name>, crates: seq<Name>, closed: map<Name, Checksum>, a: World, b: World) {
    && Later(a, b) && OwnWork(crates, closed, a, b)
    && RunPuts(crates, closed, a.visible, |a.puts|, b.puts)
    && (|b.puts| > |a.puts| ==> DependencyFirst(deps, crates))
  }

  /** The part of a run that one crate is: looked up, uploaded if missing, downloaded. */
  method PublishOne(registry: Registry, crate: Name, expected: Checksum, polls: nat, ghost start: Shown)
    returns (r: Option<Outcome>)
    requires registry.Valid() && Within(start, registry.visible)
    modifies registry
    ensures registry.Valid() && Later(old(registry.Now()), registry.Now())
    ensures OneCratePuts(crate, expected, start, |old(registry.puts)|, registry.puts)
    ensures |registry.puts| > |old(registry.puts)| ==> forall k :: |old(registry.puts)| <= k < |registry.puts| ==> Within(old(registry.visible), registry.puts[k].shown)
    ensures r.Some? ==> crate in registry.visible && registry.visible[crate] == expected
    ensures r.Some? ==> r.value == Outcome(crate, |registry.puts| > |old(registry.puts)|)
    ensures r.Some? ==> registry.downloads == old(registry.downloads) + [Got(crate, Some(expected))]
    ensures Clean(old(registry.Now()), registry.Now()) ==>
      && (r.Some? <==> NoConflict(old(registry.accepted), crate, expected))
      && Within(registry.accepted, WithCrate(old(registry.accepted), crate, expected))
    ensures OwnUpload(crate, expected, old(registry.Now()), registry.Now())
  {
    hide OwnUpload;
    hide OneCratePuts;
    hide RightPut;
    r := None;
    ghost var first := registry.Now();
    NonePut(crate, expected, start, first.puts);
    var observed := registry.ReadChecksum(crate);
    ghost var seen := registry.Now();
    SameUpload(crate, expected, first, seen);
    var published := false;
    if observed.Unavailable? || observed.Malformed? { return; }
    if observed == Unlisted {
      var ok := PublishCrate(registry, crate, expected, polls, registry.visible);
      LaterChains(first, seen, registry.Now());
      OwnUploadsChain(crate, expected, first, seen, registry.Now());
      PutsSinceEarlier(crate, expected, start, seen.visible, |first.puts|, registry.puts);
      PutsSinceEarlier(crate, expected, first.visible, seen.visible, |first.puts|, registry.puts);
      if !ok { return; }
      published := true;
    } else if observed.checksum != expected {
      assert seen.accepted[crate] != expected;
      return;
    }
    ghost var before := registry.Now();
    var bytes := registry.Download(crate);
    LaterChains(first, before, registry.Now());
    SameUpload(crate, expected, before, registry.Now());
    OwnUploadsChain(crate, expected, first, before, registry.Now());
    assert registry.visible[crate] == before.visible[crate] == expected;
    assert Clean(first, registry.Now()) ==> bytes == Some(expected);
    if bytes != Some(expected) { return; }
    assert registry.accepted[crate] == expected;
    assert NoConflict(first.accepted, crate, expected);
    r := Some(Outcome(crate, published));
  }

  /** What was still missing later was missing earlier. */
  lemma PutsSinceEarlier(crate: Name, expected: Checksum, start: Shown, later: Shown, from: nat, puts: seq<Put>)
    requires OneCratePuts(crate, expected, later, from, puts) && Within(start, later)
    ensures OneCratePuts(crate, expected, start, from, puts)
    ensures forall k :: from <= k < |puts| ==> Within(start, puts[k].shown)
  {
    forall k | from <= k < |puts| ensures RightPut(puts[k], crate, expected, start, k == from) && Within(start, puts[k].shown) {
      assert RightPut(puts[k], crate, expected, later, k == from);
    }
  }

  lemma {:induction false} PutsForAppends(crate: Name, a: seq<Put>, b: seq<Put>)
    ensures PutsFor(crate, a + b) == PutsFor(crate, a) + PutsFor(crate, b)
  {
    if b == [] {
      assert a + b == a;
    } else {
      assert (a + b)[..|a + b| - 1] == a + b[..|b| - 1];
      PutsForAppends(crate, a, b[..|b| - 1]);
    }
  }

  lemma {:induction false} PutsForOne(crate: Name, other: Name, puts: seq<Put>)
    requires forall k :: 0 <= k < |puts| ==> puts[k].crate == crate
    ensures PutsFor(other, puts) == if other == crate then |puts| else 0
  {
    if puts != [] { PutsForOne(crate, other, puts[..|puts| - 1]); }
  }

  /** How often each crate has been uploaded when the first `i` are done. */
  ghost predicate Counted(crates: seq<Name>, i: nat, from: nat, puts: seq<Put>)
    requires i <= |crates| && from <= |puts|
  {
    forall c :: PutsFor(c, puts[from..]) <= (if c in crates[..i] then MAX_NEW_CRATE_RATE_LIMIT_RETRIES + 1 else 0)
  }

  lemma CountedNext(crates: seq<Name>, i: nat, from: nat, before: seq<Put>, after: seq<Put>, checksum: Checksum, start: Shown)
    requires NoRepeats(crates) && i < |crates| && from <= |before| && before <= after && Counted(crates, i, from, before)
    requires OneCratePuts(crates[i], checksum, start, |before|, after)
    ensures Counted(crates, i + 1, from, after)
    ensures PutsFor(crates[i], after[from..]) == |after| - |before|
    ensures forall c :: c != crates[i] ==> PutsFor(c, after[from..]) == PutsFor(c, before[from..])
  {
    var more := after[|before|..];
    assert after[from..] == before[from..] + more;
    assert crates[..i + 1] == crates[..i] + [crates[i]];
    forall c ensures PutsFor(c, after[from..]) == PutsFor(c, before[from..]) + if c == crates[i] then |more| else 0 {
      PutsForAppends(c, before[from..], more);
      PutsForOne(crates[i], c, more);
    }
    assert crates[i] !in crates[..i];
  }

  lemma RunPutsNext(crates: seq<Name>, i: nat, closed: map<Name, Checksum>, start: Shown, shown: Shown, from: nat, before: seq<Put>, after: seq<Put>)
    requires i < |crates| && crates[i] in closed && before <= after
    requires RunPuts(crates, closed, start, from, before) && AllExact(crates[..i], closed, shown)
    requires OneCratePuts(crates[i], closed[crates[i]], start, |before|, after)
    requires forall k :: |before| <= k < |after| ==> Within(shown, after[k].shown)
    ensures RunPuts(crates, closed, start, from, after)
  {
    forall k | from <= k < |after| ensures RunPut(after[k], crates, closed, start) {
      if k < |before| {
        assert after[k] == before[k];
      } else {
        assert RightPut(after[k], crates[i], closed[crates[i]], start, k == |before|);
        assert AllExact(crates[..i], closed, after[k].shown);
        assert crates[i] == after[k].crate;
      }
    }
  }

  /** A run over the catalog. It uploads nothing unless the catalog is dependency-first;
      it uploads each crate at most three times, only while missing, and only once all
      the crates before it are shown exact; it completes only when all are shown exact;
      and if nothing goes wrong it completes exactly when no version is taken by other
      bytes. */
  method Publish(registry: Registry, deps: Graph<Name>, crates: seq<Name>, closed: map<Name, Checksum>, polls: nat) returns (r: PublishResult)
    requires registry.Valid() && forall c :: c in crates ==> c in closed
    modifies registry
    ensures registry.Valid() && Later(old(registry.Now()), registry.Now())
    ensures RunPuts(crates, closed, old(registry.visible), |old(registry.puts)|, registry.puts)
    ensures forall c :: PutsFor(c, registry.puts[|old(registry.puts)|..]) <= MAX_NEW_CRATE_RATE_LIMIT_RETRIES + 1
    ensures |registry.puts| > |old(registry.puts)| ==> DependencyFirst(deps, crates)
    ensures Ran(deps, crates, closed, old(registry.Now()), registry.Now())
    ensures r.Completed? ==> DependencyFirst(deps, crates) && AllExact(crates, closed, registry.visible)
    ensures r.Completed? ==> AllDownloaded(crates, closed, registry.downloads, |old(registry.downloads)|)
    ensures r.Completed? ==> |r.outcomes| == |crates| && forall i :: 0 <= i < |crates| ==>
      r.outcomes[i] == Outcome(crates[i], PutsFor(crates[i], registry.puts[|old(registry.puts)|..]) > 0)
    ensures Clean(old(registry.Now()), registry.Now()) ==>
      (r.Completed? <==> DependencyFirst(deps, crates) && NoConflicts(crates, closed, old(registry.accepted)))
  {
    hide DependencyFirst;
    hide RunPuts;
    hide OneCratePuts;
    hide PutsFor;
    hide Counted;
    hide AllExact;
    hide NoConflicts;
    hide NoConflict;
    hide OnlyThese;
    hide WithCrate;
    hide OwnUpload;
    hide OwnWork;
    hide AllDownloaded;
    r := Incomplete;
    ghost var first := registry.Now();
    ghost var from := |first.puts|;
    NothingPut(crates, closed, first, first.puts);
    assert crates[..0] == [];
    NoneDownloaded(closed, registry.downloads);
    var order := DeterministicPublishOrder(deps, crates);
    CatalogOrder(deps, crates, order);
    if !order.Ordered? || order.order != crates {
      return;
    }
    var outcomes: seq<Outcome> := [];
    for i := 0 to |crates|
      invariant registry.Valid() && Later(first, registry.Now())
      invariant RunPuts(crates, closed, first.visible, from, registry.puts)
      invariant OwnWork(crates, closed, first, registry.Now())
      invariant Counted(crates, i, from, registry.puts)
      invariant AllExact(crates[..i], closed, registry.visible)
      invariant AllDownloaded(crates[..i], closed, registry.downloads, |old(registry.downloads)|)
      invariant |outcomes| == i && forall j :: 0 <= j < i ==>
        outcomes[j] == Outcome(crates[j], PutsFor(crates[j], registry.puts[from..]) > 0)
      invariant Clean(first, registry.Now()) ==>
        NoConflicts(crates[..i], closed, first.accepted) && OnlyThese(crates[..i], first.accepted, registry.accepted)
    {
      ghost var before, downloaded := registry.Now(), registry.downloads;
      var crate := crates[i];
      var outcome := PublishOne(registry, crate, closed[crate], polls, first.visible);
      LaterChains(first, before, registry.Now());
      OwnWorkNext(crates, closed, crate, first, before, registry.Now());
      if Clean(first, registry.Now()) { ConflictCarries(crates, i, closed, first.accepted, before.accepted); }
      RunPutsNext(crates, i, closed, first.visible, before.visible, from, before.puts, registry.puts);
      CountedNext(crates, i, from, before.puts, registry.puts, closed[crate], first.visible);
      CountedBounds(crates, i + 1, from, registry.puts);
      if outcome.None? { return; }
      ExactNext(crates, i, closed, before.visible, registry.visible);
      DownloadNext(crates, i, closed, downloaded, registry.downloads, |old(registry.downloads)|);
      if Clean(first, registry.Now()) { CleanNext(crates, i, closed, first.accepted, before.accepted, registry.accepted); }
      ghost var reported := outcomes;
      outcomes := outcomes + [outcome.value];
      assert forall j :: 0 <= j < i ==> outcomes[j] == reported[j];
    }
    assert crates[..|crates|] == crates;
    CountedBounds(crates, |crates|, from, registry.puts);
    r := Completed(outcomes);
  }

  /** Since `from` the closed bytes of each crate have been downloaded, in order. */
  ghost predicate AllDownloaded(crates: seq<Name>, closed: map<Name, Checksum>, downloads: seq<Got>, from: nat) {
    && |downloads| == from + |crates|
    && forall i :: 0 <= i < |crates| ==> crates[i] in closed && downloads[from + i] == Got(crates[i], Some(closed[crates[i]]))
  }

  lemma NoneDownloaded(closed: map<Name, Checksum>, downloads: seq<Got>)
    ensures AllDownloaded([], closed, downloads, |downloads|)
  {
  }

  lemma DownloadNext(crates: seq<Name>, i: nat, closed: map<Name, Checksum>, before: seq<Got>, after: seq<Got>, from: nat)
    requires i < |crates| && crates[i] in closed && AllDownloaded(crates[..i], closed, before, from)
    requires after == before + [Got(crates[i], Some(closed[crates[i]]))]
    ensures AllDownloaded(crates[..i + 1], closed, after, from)
  {
    assert crates[..i + 1] == crates[..i] + [crates[i]];
  }

  /** Since `first`, only these crates have been accepted. */
  ghost predicate OnlyThese(crates: seq<Name>, first: Shown, now: Shown) {
    forall c :: c in now && c !in crates ==> c in first && first[c] == now[c]
  }

  lemma ConflictCarries(crates: seq<Name>, i: nat, closed: map<Name, Checksum>, first: Shown, before: Shown)
    requires NoRepeats(crates) && i < |crates| && crates[i] in closed
    requires Within(first, before) && OnlyThese(crates[..i], first, before)
    ensures NoConflict(before, crates[i], closed[crates[i]]) <==> NoConflict(first, crates[i], closed[crates[i]])
    ensures !NoConflict(first, crates[i], closed[crates[i]]) ==> !NoConflicts(crates, closed, first)
  {
    assert crates[i] !in crates[..i];
    assert crates[i] in crates;
  }

  lemma ExactNext(crates: seq<Name>, i: nat, closed: map<Name, Checksum>, before: Shown, now: Shown)
    requires i < |crates| && AllExact(crates[..i], closed, before) && Within(before, now)
    requires crates[i] in closed && crates[i] in now && now[crates[i]] == closed[crates[i]]
    ensures AllExact(crates[..i + 1], closed, now)
  {
    assert crates[..i + 1] == crates[..i] + [crates[i]];
  }

  lemma CleanNext(crates: seq<Name>, i: nat, closed: map<Name, Checksum>, first: Shown, before: Shown, now: Shown)
    requires NoRepeats(crates) && i < |crates| && crates[i] in closed && Within(first, before)
    requires NoConflicts(crates[..i], closed, first) && OnlyThese(crates[..i], first, before)
    requires NoConflict(before, crates[i], closed[crates[i]]) && Within(now, WithCrate(before, crates[i], closed[crates[i]]))
    ensures NoConflicts(crates[..i + 1], closed, first) && OnlyThese(crates[..i + 1], first, now)
  {
    ConflictCarries(crates, i, closed, first, before);
    assert crates[..i + 1] == crates[..i] + [crates[i]];
    forall c | c in now && c !in crates[..i + 1] ensures c in first && first[c] == now[c] {
      assert c !in crates[..i] && c in WithCrate(before, crates[i], closed[crates[i]]);
    }
  }

  lemma CountedBounds(crates: seq<Name>, i: nat, from: nat, puts: seq<Put>)
    requires i <= |crates| && from <= |puts| && Counted(crates, i, from, puts)
    ensures forall c :: PutsFor(c, puts[from..]) <= MAX_NEW_CRATE_RATE_LIMIT_RETRIES + 1
  {
    hide PutsFor;
  }

  lemma NothingPut(crates: seq<Name>, closed: map<Name, Checksum>, start: World, puts: seq<Put>)
    ensures RunPuts(crates, closed, start.visible, |puts|, puts)
    ensures AllExact([], closed, start.visible) && NoConflicts([], closed, start.accepted)
    ensures OnlyThese([], start.accepted, start.accepted) && OwnWork(crates, closed, start, start)
    ensures Counted(crates, 0, |puts|, puts)
    ensures forall c :: PutsFor(c, puts[|puts|..]) == 0
  {
  }

  lemma CatalogOrder(deps: Graph<Name>, crates: seq<Name>, r: Result)
    requires r.UnknownDependencies? <==> !Closed(deps)
    requires r.IncompletePreference? <==> Closed(deps) && !Complete(deps, crates)
    requires r.Cycle? <==> Closed(deps) && Complete(deps, crates) && Cyclic(deps)
    requires r.Ordered? ==> (r.order == crates <==> DependencyFirst(deps, crates))
    ensures r.Ordered? && r.order == crates <==> DependencyFirst(deps, crates)
    ensures DependencyFirst(deps, crates) ==> NoRepeats(crates)
  {
    if DependencyFirst(deps, crates) {
      forall n | n in deps ensures deps[n] <= deps.Keys {
        assert n in crates;
        var k :| 0 <= k < |crates| && crates[k] == n;
        forall t | t in deps[n] ensures t in deps {
          assert t in crates[..k] && t in crates;
        }
      }
      if c :| Reaches(deps, c, c) {
        var p :| WalkBetween(deps, p, c, c);
        assert c in deps && c in crates;
        var k :| 0 <= k < |crates| && crates[k] == c;
        OrderedReachesNoCycle(deps, crates, k, c);
      }
    }
  }

  /** Every upload of a run goes out after all the crate's dependencies are shown with
      their closed bytes. */
  lemma DependenciesComeFirst(deps: Graph<Name>, crates: seq<Name>, closed: map<Name, Checksum>, start: Shown, from: nat, puts: seq<Put>, k: nat, d: Name)
    requires DependencyFirst(deps, crates) && RunPuts(crates, closed, start, from, puts) && from <= k < |puts|
    requires puts[k].crate in deps && d in deps[puts[k].crate]
    ensures d in closed && d in puts[k].shown && puts[k].shown[d] == closed[d]
  {
    assert RunPut(puts[k], crates, closed, start);
    var i :| 0 <= i < |crates| && crates[i] == puts[k].crate && AllExact(crates[..i], closed, puts[k].shown);
    assert d in crates[..i];
  }

  /** A run that starts with everything shown exact uploads nothing: so a rerun after a
      completed run does not, and one after a crash uploads only what is still missing. */
  lemma RerunUploadsOnlyMissing(crates: seq<Name>, closed: map<Name, Checksum>, start: Shown, from: nat, puts: seq<Put>)
    requires RunPuts(crates, closed, start, from, puts)
    ensures forall k :: from <= k < |puts| ==> puts[k].crate in crates && puts[k].crate !in start
    ensures AllExact(crates, closed, start) ==> |puts| == from
  {
    forall k | from <= k < |puts| ensures puts[k].crate in crates && puts[k].crate !in start {
      assert RunPut(puts[k], crates, closed, start);
    }
    if |puts| > from {
      assert puts[from].crate in crates && puts[from].crate !in start;
    }
  }
}
