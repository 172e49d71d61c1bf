/** The complete release inventory and its single Latest authority
    (scripts/finalize_release.py). */
module ReleaseInventory {
  import opened Wrappers
  import opened ReleaseVersion

  /** Equal contents stand for equal sizes and digests. */
  datatype Asset = Asset(id: nat, name: string, content: string, uploaded: bool)

  datatype Release = Release(
    id: nat, tag: string, title: string, notes: string,
    draft: bool, prerelease: bool, immutable: bool, latest: bool, assets: seq<Asset>)

  // ----- the inventory

  predicate IsStable(r: Release) {
    !r.draft && !r.prerelease && StableTagVersion(r.tag).Some?
  }

  function VersionOf(r: Release): Version
    requires IsStable(r)
  {
    StableTagVersion(r.tag).value
  }

  ghost predicate DistinctIdentities(rs: seq<Release>) {
    forall i, j :: 0 <= i < j < |rs| ==> rs[i].id != rs[j].id && rs[i].tag != rs[j].tag
  }

  ghost predicate NamedIdentities(rs: seq<Release>) {
    forall i :: 0 <= i < |rs| ==> rs[i].id > 0 && rs[i].tag != ""
  }

  /** At most one release is Latest, and it is a published stable one. */
  ghost predicate LatestIsSound(rs: seq<Release>) {
    && (forall i :: 0 <= i < |rs| && rs[i].latest ==> IsStable(rs[i]))
    && (forall i, j :: 0 <= i < |rs| && 0 <= j < |rs| && rs[i].latest && rs[j].latest ==> i == j)
  }

  ghost predicate InventoryOk(rs: seq<Release>) {
    DistinctIdentities(rs) && NamedIdentities(rs) && LatestIsSound(rs)
  }

  /** `r` is the numerically highest published stable release. */
  ghost predicate IsHighest(rs: seq<Release>, r: Release) {
    && r in rs && IsStable(r)
    && forall s :: s in rs && IsStable(s) ==> !Less(VersionOf(r), VersionOf(s))
  }

  ghost predicate LatestIsHighest(rs: seq<Release>) {
    exists r :: r in rs && r.latest && IsHighest(rs, r)
  }

  /** No other published stable release has a greater number, whatever the base. */
  ghost predicate NumericMaximum(rs: seq<Release>, r: Release) {
    && r in rs && IsStable(r)
    && forall s, n: nat :: s in rs && IsStable(s) && Above(n, VersionOf(r)) && Above(n, VersionOf(s)) ==>
      Number(n, VersionOf(s)) <= Number(n, VersionOf(r))
  }

  ghost predicate LatestIsMaximum(rs: seq<Release>) {
    exists r :: r in rs && r.latest && NumericMaximum(rs, r)
  }

  lemma HighestByNumber(rs: seq<Release>, r: Release)
    ensures IsHighest(rs, r) <==> NumericMaximum(rs, r)
  {
    hide StableTagVersion;
    hide Less;
    hide Number;
    if IsHighest(rs, r) {
      forall s, n: nat | s in rs && IsStable(s) && Above(n, VersionOf(r)) && Above(n, VersionOf(s))
        ensures Number(n, VersionOf(s)) <= Number(n, VersionOf(r))
      {
        LessByNumber(VersionOf(r), VersionOf(s), n);
      }
    }
    if NumericMaximum(rs, r) {
      forall s | s in rs && IsStable(s) ensures !Less(VersionOf(r), VersionOf(s)) {
        var n := CommonBase(VersionOf(r), VersionOf(s));
        LessByNumber(VersionOf(r), VersionOf(s), n);
      }
    }
  }

  function CommonBase(a: Version, b: Version): (n: nat)
    ensures Above(n, a) && Above(n, b)
  {
    a.major + a.minor + a.patch + b.major + b.minor + b.patch + 1
  }

  lemma LatestByNumber(rs: seq<Release>)
    ensures LatestIsHighest(rs) <==> LatestIsMaximum(rs)
  {
    hide IsHighest;
    hide NumericMaximum;
    forall r ensures IsHighest(rs, r) <==> NumericMaximum(rs, r) { HighestByNumber(rs, r); }
  }

  lemma SameVersionSameRelease(rs: seq<Release>, r: Release, s: Release)
    requires DistinctIdentities(rs) && r in rs && s in rs && IsStable(r) && IsStable(s) && VersionOf(r) == VersionOf(s)
    ensures r == s
  {
    hide StableTagVersion;
    VersionTellsTagsApart(r.tag, s.tag);
  }

  lemma HighestIsUnique(rs: seq<Release>, r: Release, s: Release)
    requires DistinctIdentities(rs) && IsHighest(rs, r) && IsHighest(rs, s)
    ensures r == s
  {
    hide StableTagVersion;
    SameVersionSameRelease(rs, r, s);
  }

  /** The releases flagged Latest, in order. */
  function Flagged(rs: seq<Release>): (f: seq<Release>)
    ensures forall r :: r in f <==> r in rs && r.latest
  {
    if rs == [] then []
    else
      var last := rs[|rs| - 1];
      assert rs == rs[..|rs| - 1] + [last];
      if last.latest then Flagged(rs[..|rs| - 1]) + [last] else Flagged(rs[..|rs| - 1])
  }

  ghost predicate OneLatest(rs: seq<Release>) {
    forall i, j :: 0 <= i < j < |rs| ==> !(rs[i].latest && rs[j].latest)
  }

  lemma OneLatestSplits(rs: seq<Release>)
    requires rs != []
    ensures var front, last := rs[..|rs| - 1], rs[|rs| - 1];
      OneLatest(rs) <==> OneLatest(front) && (last.latest ==> forall r :: r in front ==> !r.latest)
  {
    var front, last := rs[..|rs| - 1], rs[|rs| - 1];
    if OneLatest(front) && (last.latest ==> forall r :: r in front ==> !r.latest) {
      forall i, j | 0 <= i < j < |rs| ensures !(rs[i].latest && rs[j].latest) {
        assert rs[i] == front[i] && (j < |front| ==> rs[j] == front[j]);
      }
    }
    if OneLatest(rs) {
      forall i, j | 0 <= i < j < |front| ensures !(front[i].latest && front[j].latest) {
        assert rs[i] == front[i] && rs[j] == front[j];
      }
      forall r | r in front && last.latest ensures !r.latest {
        var i :| 0 <= i < |front| && front[i] == r;
        assert rs[i] == r && rs[|rs| - 1] == last;
      }
    }
  }

  lemma {:induction false} NoneFlagged(rs: seq<Release>)
    requires forall r :: r in rs ==> !r.latest
    ensures Flagged(rs) == []
  {
    if rs != [] { NoneFlagged(rs[..|rs| - 1]); }
  }

  lemma {:induction false} FlaggedCounts(rs: seq<Release>)
    ensures |Flagged(rs)| <= 1 <==> OneLatest(rs)
  {
    if rs != [] {
      var front := rs[..|rs| - 1];
      FlaggedCounts(front);
      OneLatestSplits(rs);
      hide OneLatest;
      if forall r :: r in front ==> !r.latest {
        NoneFlagged(front);
      } else {
        var r :| r in front && r.latest;
        assert r in Flagged(front);
      }
    }
  }

  lemma LatestIsSoundExactly(rs: seq<Release>)
    ensures LatestIsSound(rs) <==> |Flagged(rs)| <= 1 && (|Flagged(rs)| == 1 ==> IsStable(Flagged(rs)[0]))
  {
    hide IsStable;
    FlaggedCounts(rs);
    var f := Flagged(rs);
    if LatestIsSound(rs) {
      assert OneLatest(rs);
      if |f| == 1 { assert f[0] in f && f[0] in rs; }
    }
    if |f| <= 1 && (|f| == 1 ==> IsStable(f[0])) {
      forall i | 0 <= i < |rs| && rs[i].latest ensures IsStable(rs[i]) {
        assert rs[i] in f;
      }
    }
  }

  /** The versions seen so far, each with the one release that has it. */
  ghost predicate ByVersion(stable: map<Version, Release>, rs: seq<Release>) {
    && (forall r :: r in rs && IsStable(r) ==> VersionOf(r) in stable && stable[VersionOf(r)] == r)
    && (forall v :: v in stable ==> stable[v] in rs && IsStable(stable[v]) && VersionOf(stable[v]) == v)
  }

  lemma NewVersion(stable: map<Version, Release>, rs: seq<Release>, i: nat)
    requires DistinctIdentities(rs) && i < |rs| && ByVersion(stable, rs[..i])
    ensures IsStable(rs[i]) ==> VersionOf(rs[i]) !in stable && ByVersion(stable[VersionOf(rs[i]) := rs[i]], rs[..i + 1])
    ensures !IsStable(rs[i]) ==> ByVersion(stable, rs[..i + 1])
  {
    hide StableTagVersion;
    hide IsStable;
    assert rs[..i + 1] == rs[..i] + [rs[i]];
    if IsStable(rs[i]) && VersionOf(rs[i]) in stable {
      var other := stable[VersionOf(rs[i])];
      var j :| 0 <= j < i && rs[j] == other;
      SameVersionSameRelease(rs, rs[i], other);
      assert false;
    }
  }

  lemma TerminalExactly(rs: seq<Release>)
    requires DistinctIdentities(rs) && |Flagged(rs)| <= 1
    ensures LatestIsHighest(rs) <==> |Flagged(rs)| == 1 && Highest(rs) == Some(Flagged(rs)[0])
  {
    hide IsStable;
    hide Highest;
    hide IsHighest;
    hide Flagged;
    hide DistinctIdentities;
    HighestIsHighest(rs);
    var f := Flagged(rs);
    if LatestIsHighest(rs) {
      var r :| r in rs && r.latest && IsHighest(rs, r);
      assert r in f && IsStable(r) by { StableHighest(rs, r); }
      HighestIsUnique(rs, r, Highest(rs).value);
    }
    if |f| == 1 && Highest(rs) == Some(f[0]) {
      assert f[0] in f;
    }
  }

  lemma StableHighest(rs: seq<Release>, r: Release)
    requires IsHighest(rs, r)
    ensures IsStable(r) && r in rs
  {
  }

  /** The closed checks of one inventory: distinct well-formed identities, no repeated
      stable version, one stable Latest at most, and at the end exactly the highest. */
  method ValidateReleaseInventory(rs: seq<Release>, terminal: bool) returns (ok: bool)
    ensures ok <==> InventoryOk(rs) && (terminal ==> LatestIsHighest(rs))
    ensures ok && terminal ==> LatestIsMaximum(rs)
  {
    hide LatestIsMaximum;
    LatestByNumber(rs);
    hide IsStable;
    hide Flagged;
    hide LatestIsSound;
    hide DistinctIdentities;
    hide LatestIsHighest;
    hide Highest;
    hide ByVersion;
    var distinct := AllDistinct(rs);
    if !distinct { return false; }
    var stable: map<Version, Release> := map[];
    var latest: seq<Release> := [];
    assert ByVersion(map[], rs[..0]) && Flagged(rs[..0]) == [] by { NoneYet(rs); }
    for i := 0 to |rs|
      invariant forall j :: 0 <= j < i ==> rs[j].id > 0 && rs[j].tag != ""
      invariant ByVersion(stable, rs[..i])
      invariant latest == Flagged(rs[..i])
    {
      var r := rs[i];
      if r.id == 0 || r.tag == "" { return false; }
      FlaggedStep(rs, i);
      if r.latest { latest := latest + [r]; }
      NewVersion(stable, rs, i);
      if IsStable(r) {
        if VersionOf(r) in stable { return false; }
        stable := stable[VersionOf(r) := r];
      }
    }
    assert rs[..|rs|] == rs;
    LatestIsSoundExactly(rs);
    if |latest| > 1 { return false; }
    if |latest| == 1 && !IsStable(latest[0]) { return false; }
    if terminal {
      TerminalExactly(rs);
      if |latest| != 1 || Highest(rs) != Some(latest[0]) { return false; }
    }
    return true;
  }

  lemma NoneYet(rs: seq<Release>)
    ensures ByVersion(map[], rs[..0]) && Flagged(rs[..0]) == []
  {
  }

  lemma FlaggedStep(rs: seq<Release>, i: nat)
    requires i < |rs|
    ensures Flagged(rs[..i + 1]) == if rs[i].latest then Flagged(rs[..i]) + [rs[i]] else Flagged(rs[..i])
  {
    assert rs[..i + 1][..i] == rs[..i];
  }

  method AllDistinct(rs: seq<Release>) returns (ok: bool)
    ensures ok <==> DistinctIdentities(rs)
  {
    var ids: set<nat>, tags: set<string> := {}, {};
    for i := 0 to |rs|
      invariant forall x :: x in ids <==> exists j :: 0 <= j < i && rs[j].id == x
      invariant forall x :: x in tags <==> exists j :: 0 <= j < i && rs[j].tag == x
      invariant DistinctIdentities(rs[..i])
    {
      if rs[i].id in ids || rs[i].tag in tags { return false; }
      ids, tags := ids + {rs[i].id}, tags + {rs[i].tag};
    }
    assert rs[..|rs|] == rs;
    return true;
  }

  /** The record of a tag. */
  function InventoryRecord(rs: seq<Release>, tag: string): (r: Option<Release>)
    ensures r.Some? ==> r.value in rs && r.value.tag == tag
    ensures r.None? ==> forall s :: s in rs ==> s.tag != tag
  {
    if rs == [] then None
    else if rs[0].tag == tag then Some(rs[0])
    else InventoryRecord(rs[1..], tag)
  }

  /** The published stable release of the highest version. */
  function Highest(rs: seq<Release>): Option<Release> {
    if rs == [] then None
    else
      var last, best := rs[|rs| - 1], Highest(rs[..|rs| - 1]);
      if !IsStable(last) then best
      else if best.None? then Some(last)
      else if IsStable(best.value) && Less(VersionOf(best.value), VersionOf(last)) then Some(last)
      else best
  }

  /** The record selected is the numeric maximum. */
  lemma HighestIsHighest(rs: seq<Release>)
    ensures Highest(rs).Some? ==> IsHighest(rs, Highest(rs).value) && NumericMaximum(rs, Highest(rs).value)
    ensures Highest(rs).None? ==> forall s :: s in rs ==> !IsStable(s)
  {
    HighestFound(rs);
    if Highest(rs).Some? { HighestByNumber(rs, Highest(rs).value); }
  }

  lemma {:induction false} HighestFound(rs: seq<Release>)
    ensures Highest(rs).Some? ==> IsHighest(rs, Highest(rs).value)
    ensures Highest(rs).None? ==> forall s :: s in rs ==> !IsStable(s)
  {
    hide IsStable;
    hide VersionOf;
    if rs != [] {
      var front, last := rs[..|rs| - 1], rs[|rs| - 1];
      assert rs == front + [last];
      HighestFound(front);
    }
  }
}
