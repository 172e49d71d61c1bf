/** Building an authenticated map bottom-up from a complete set of entries
    (crates/cymule-authenticated-collections/src/map.rs, `build_map`). */
module AuthMapBuild {
  import opened Wrappers
  import opened Sorting
  import opened HashPrefix
  import opened AuthMap
  import opened AuthMapHistory

  datatype Pair = Pair(key: string, value: string)

  datatype BuildError = TooMany | RepeatedKey | MalformedPair | BuildRefused(error: Error)
  datatype BuildResult = Built(root: Root) | NotBuilt(error: BuildError)

  // ----- the order entries are built in

  lemma {:induction false} BeforeOrders(a: string, b: string)
    ensures a == b || Before(a, b) || Before(b, a)
    ensures Before(a, b) ==> !Before(b, a) && a != b
  {
    if a != "" && b != "" {
      BeforeOrders(a[1..], b[1..]);
      assert a == [a[0]] + a[1..] && b == [b[0]] + b[1..];
    }
  }

  lemma {:induction false} BeforeChains(a: string, b: string, c: string)
    requires Before(a, b) && Before(b, c)
    ensures Before(a, c)
  {
    if a != "" && Before(a[1..], b[1..]) && Before(b[1..], c[1..]) {
      BeforeChains(a[1..], b[1..], c[1..]);
    }
  }

  /** By hash, then by key. */
  predicate EntryLe(a: Entry, b: Entry) {
    Before(a.hash, b.hash) || (a.hash == b.hash && !Before(b.key, a.key))
  }

  lemma EntryLeChains(a: Entry, b: Entry, c: Entry)
    requires EntryLe(a, b) && EntryLe(b, c)
    ensures EntryLe(a, c)
  {
    hide Before;
    if Before(a.hash, b.hash) && Before(b.hash, c.hash) {
      BeforeChains(a.hash, b.hash, c.hash);
    }
    if a.hash == b.hash == c.hash && Before(c.key, a.key) {
      BeforeOrders(a.key, b.key);
      BeforeOrders(b.key, c.key);
      if Before(a.key, b.key) { BeforeChains(c.key, a.key, b.key); }
    }
  }

  lemma EntryLeIsTotal()
    ensures TotalPreorder(EntryLe)
  {
    hide Before;
    forall a, b ensures EntryLe(a, b) || EntryLe(b, a) {
      BeforeOrders(a.hash, b.hash);
      BeforeOrders(a.key, b.key);
    }
    forall a, b, c | EntryLe(a, b) && EntryLe(b, c) ensures EntryLe(a, c) {
      EntryLeChains(a, b, c);
    }
  }

  // ----- one subtree

  ghost predicate Hashed(kh: string -> string, entries: seq<Entry>) {
    forall i :: 0 <= i < |entries| ==> entries[i].hash == kh(entries[i].key) && IsDigest(entries[i].hash)
  }

  ghost predicate ByHash(entries: seq<Entry>) {
    forall i, j :: 0 <= i < j < |entries| ==> entries[i].hash == entries[j].hash || Before(entries[i].hash, entries[j].hash)
  }

  ghost predicate SharedHash(entries: seq<Entry>) {
    exists i, j :: 0 <= i < j < |entries| && entries[i].hash == entries[j].hash
  }

  function AsSet(entries: seq<Entry>): set<Entry> {
    set e | e in entries
  }

  /** A hash between two others shares all the bits those two share. */
  lemma BetweenAgrees(first: string, x: string, last: string)
    requires IsDigest(first) && IsDigest(x) && IsDigest(last) && Common(first, last) < DIGEST_BITS
    requires first == x || Before(first, x)
    requires x == last || Before(x, last)
    ensures Agree(x, first, Common(first, last))
  {
    hide Before;
    hide Bit;
    var d, c := Common(first, last), Common(first, x);
    if c < d {
      OrderByBit(first, x);
      assert Bit(last, c) == Bit(first, c);
      assert Agree(x, last, c);
      assert Common(x, last) == c;
      OrderByBit(x, last);
      assert false;
    }
  }

  /** In order, the bit at which a range parts never falls back to zero. */
  lemma BitsRise(a: string, b: string, prefix: string, d: nat)
    requires IsDigest(a) && IsDigest(b) && IsDigest(prefix) && d < DIGEST_BITS
    requires Agree(a, prefix, d) && Agree(b, prefix, d)
    requires a == b || Before(a, b)
    ensures Bit(a, d) ==> Bit(b, d)
  {
    hide Before;
    if Bit(a, d) != Bit(b, d) { PartsAt(a, b, prefix, d); }
  }

  /** The bits at the parting depth of a sorted range are zeros, then ones, and both occur. */
  lemma RangeParts(kh: string -> string, entries: seq<Entry>)
    requires Hashed(kh, entries) && ByHash(entries) && entries != []
    requires entries[0].hash != entries[|entries| - 1].hash
    ensures var first, last := entries[0].hash, entries[|entries| - 1].hash; var d := Common(first, last);
      && d < DIGEST_BITS && !Bit(first, d) && Bit(last, d)
      && (forall i :: 0 <= i < |entries| ==> Agree(entries[i].hash, first, d))
      && (forall i, j :: 0 <= i < j < |entries| && Bit(entries[i].hash, d) ==> Bit(entries[j].hash, d))
  {
    hide Before;
    hide Bit;
    var n := |entries|;
    var first, last := entries[0].hash, entries[n - 1].hash;
    var d := Common(first, last);
    if d == DIGEST_BITS { DigestByBits(first, last); }
    OrderByBit(first, last);
    forall i | 0 <= i < n ensures Agree(entries[i].hash, first, d) {
      BetweenAgrees(first, entries[i].hash, last);
    }
    forall i, j | 0 <= i < j < n && Bit(entries[i].hash, d) ensures Bit(entries[j].hash, d) {
      BitsRise(entries[i].hash, entries[j].hash, first, d);
    }
  }

  /** Two parts of a range that part at a bit share no hash. */
  lemma SharesWithinParts(kh: string -> string, entries: seq<Entry>, split: nat, d: nat)
    requires Hashed(kh, entries) && split <= |entries| && d < DIGEST_BITS
    requires forall i :: 0 <= i < |entries| ==> (Bit(entries[i].hash, d) <==> i >= split)
    ensures SharedHash(entries) <==> SharedHash(entries[..split]) || SharedHash(entries[split..])
  {
    hide Bit;
    hide IsDigest;
    if SharedHash(entries) {
      var i, j :| 0 <= i < j < |entries| && entries[i].hash == entries[j].hash;
      if j < split {
        assert entries[..split][i].hash == entries[..split][j].hash;
      } else {
        assert entries[split..][i - split].hash == entries[split..][j - split].hash;
      }
    }
    assert entries[..split] == entries[0..split] && entries[split..] == entries[split..|entries|];
    if SharedHash(entries[..split]) { SharingRises(entries, 0, split); }
    if SharedHash(entries[split..]) { SharingRises(entries, split, |entries|); }
  }

  lemma SharingRises(entries: seq<Entry>, lo: nat, hi: nat)
    requires lo <= hi <= |entries| && SharedHash(entries[lo..hi])
    ensures SharedHash(entries)
  {
    var part := entries[lo..hi];
    var i, j :| 0 <= i < j < |part| && part[i].hash == part[j].hash;
    assert entries[lo + i].hash == entries[lo + j].hash;
  }

  lemma PartsOfRange(kh: string -> string, entries: seq<Entry>, split: nat)
    requires split <= |entries| && Hashed(kh, entries) && ByHash(entries)
    ensures Hashed(kh, entries[..split]) && ByHash(entries[..split])
    ensures Hashed(kh, entries[split..]) && ByHash(entries[split..])
    ensures AsSet(entries) == AsSet(entries[..split]) + AsSet(entries[split..])
  {
    hide Before;
    hide IsDigest;
    assert entries == entries[..split] + entries[split..];
  }

  lemma BranchOfParts(kh: string -> string, entries: seq<Entry>, split: nat, d: nat, left: Ref, right: Ref)
    requires entries != [] && split <= |entries| && d < DIGEST_BITS && Hashed(kh, entries)
    requires forall i :: 0 <= i < |entries| ==> Agree(entries[i].hash, entries[0].hash, d) && (Bit(entries[i].hash, d) <==> i >= split)
    requires CanonicalRef(kh, left) && Leaves(left.node) == AsSet(entries[..split])
    requires CanonicalRef(kh, right) && Leaves(right.node) == AsSet(entries[split..])
    ensures Canonical(kh, Branch(d, Prefix(entries[0].hash, d), left, right))
  {
    hide Bit;
    hide Prefix;
    var first := entries[0].hash;
    var prefix := Prefix(first, d);
    PrefixNests(first, d, d);
    PrefixAgrees(first, d);
    AgreeSymmetric(prefix, first, d);
    forall i | 0 <= i < |entries| ensures Agree(entries[i].hash, prefix, d) {
      AgreeJoins(entries[i].hash, first, prefix, d);
    }
    hide Agree;
    assert Partition(AsSet(entries[..split]), prefix, d, false);
    assert Partition(AsSet(entries[split..]), prefix, d, true);
  }

  datatype SubtreeResult = Subtree(ref: Ref) | SubtreeRefused(error: Error)

  /** Refuses exactly a shared hash; no partition of a sorted range is ever empty. */
  method BuildSubtree(ghost kh: string -> string, entries: seq<Entry>) returns (r: SubtreeResult)
    requires entries != [] && Hashed(kh, entries) && ByHash(entries)
    ensures SharedHash(entries) ==> r == SubtreeRefused(Collision)
    ensures !SharedHash(entries) ==>
      r.Subtree? && CanonicalRef(kh, r.ref) && Leaves(r.ref.node) == AsSet(entries) && r.ref.entries == |entries|
    decreases |entries|
  {
    hide Bit;
    hide Agree;
    hide IsDigest;
    hide Before;
    hide Prefix;
    hide SharedHash;
    var first := entries[0];
    if |entries| == 1 {
      assert AsSet(entries) == {first} && !SharedHash(entries) by { SingleRange(entries); }
      return Subtree(RefTo(Leaf(first.key, first.hash, first.value)));
    }
    var last := entries[|entries| - 1];
    if first.hash == last.hash {
      EndsShare(entries);
      return SubtreeRefused(Collision);
    }
    RangeParts(kh, entries);
    var depth := Common(first.hash, last.hash);
    var split := 0;
    while split < |entries| && !Bit(entries[split].hash, depth)
      invariant split <= |entries|
      invariant forall i :: 0 <= i < split ==> !Bit(entries[i].hash, depth)
    {
      split := split + 1;
    }
    if split == |entries| { return SubtreeRefused(Integrity); }
    if split == 0 { return SubtreeRefused(Integrity); }
    PartsOfRange(kh, entries, split);
    SharesWithinParts(kh, entries, split, depth);
    var left := BuildSubtree(kh, entries[..split]);
    if left.SubtreeRefused? { return left; }
    var right := BuildSubtree(kh, entries[split..]);
    if right.SubtreeRefused? { return right; }
    BranchOfParts(kh, entries, split, depth, left.ref, right.ref);
    hide Canonical;
    r := Subtree(RefTo(Branch(depth, Prefix(first.hash, depth), left.ref, right.ref)));
  }

  lemma SingleRange(entries: seq<Entry>)
    requires |entries| == 1
    ensures AsSet(entries) == {entries[0]} && !SharedHash(entries)
  {
  }

  lemma EndsShare(entries: seq<Entry>)
    requires |entries| > 1 && entries[0].hash == entries[|entries| - 1].hash
    ensures SharedHash(entries)
  {
  }

  // ----- the whole map

  ghost predicate KeysRepeat(entries: seq<Pair>) {
    exists i, j :: 0 <= i < j < |entries| && entries[i].key == entries[j].key
  }

  /** The map the pairs list. */
  function MapOf(entries: seq<Pair>): map<string, string> {
    if entries == [] then map[] else MapOf(entries[..|entries| - 1])[entries[|entries| - 1].key := entries[|entries| - 1].value]
  }

  lemma {:induction false} MapOfPairs(entries: seq<Pair>)
    requires !KeysRepeat(entries)
    ensures forall i :: 0 <= i < |entries| ==> entries[i].key in MapOf(entries) && MapOf(entries)[entries[i].key] == entries[i].value
    ensures forall k :: k in MapOf(entries) ==> exists i :: 0 <= i < |entries| && entries[i].key == k
  {
    if entries != [] {
      var rest := entries[..|entries| - 1];
      MapOfPairs(rest);
      forall k | k in MapOf(entries) ensures exists i :: 0 <= i < |entries| && entries[i].key == k {
        if k != entries[|entries| - 1].key {
          assert k in MapOf(rest);
          var i :| 0 <= i < |rest| && rest[i].key == k;
          assert entries[i].key == k;
        } else {
          assert entries[|entries| - 1].key == k;
        }
      }
    }
  }

  /** The listed keys, hashed, in the order listed. */
  ghost predicate HashedPairs(kh: string -> string, pairs: seq<Pair>, ordered: seq<Entry>) {
    |ordered| == |pairs| && forall i :: 0 <= i < |pairs| ==> ordered[i] == Entry(pairs[i].key, kh(pairs[i].key), pairs[i].value)
  }

  lemma HashedAreEntries(kh: string -> string, pairs: seq<Pair>, ordered: seq<Entry>)
    requires HashedPairs(kh, pairs, ordered) && !KeysRepeat(pairs)
    ensures AsSet(ordered) == Entries(kh, MapOf(pairs))
    ensures forall i, j :: 0 <= i < j < |ordered| ==> ordered[i] != ordered[j]
  {
    var m := MapOf(pairs);
    MapOfPairs(pairs);
    hide MapOf;
    forall e | e in Entries(kh, m) ensures e in AsSet(ordered) {
      var i :| 0 <= i < |pairs| && pairs[i].key == e.key;
      assert ordered[i] == e;
    }
  }

  lemma SharingIsCollision(kh: string -> string, pairs: seq<Pair>, ordered: seq<Entry>)
    requires HashedPairs(kh, pairs, ordered) && !KeysRepeat(pairs)
    ensures SharedHash(ordered) <==> !HashesApart(kh, MapOf(pairs).Keys)
  {
    hide KeysRepeat;
    hide SharedHash;
    hide MapOf;
    if !HashesApart(kh, MapOf(pairs).Keys) { CollisionIsShared(kh, pairs, ordered); }
    if SharedHash(ordered) { SharedIsCollision(kh, pairs, ordered); }
  }

  lemma CollisionIsShared(kh: string -> string, pairs: seq<Pair>, ordered: seq<Entry>)
    requires HashedPairs(kh, pairs, ordered) && !KeysRepeat(pairs) && !HashesApart(kh, MapOf(pairs).Keys)
    ensures SharedHash(ordered)
  {
    MapOfPairs(pairs);
    hide MapOf;
    hide KeysRepeat;
    var m := MapOf(pairs);
    var k, l :| k in m && l in m && kh(k) == kh(l) && k != l;
    var i :| 0 <= i < |pairs| && pairs[i].key == k;
    var j :| 0 <= j < |pairs| && pairs[j].key == l;
    assert ordered[i].hash == ordered[j].hash;
  }

  lemma SharedIsCollision(kh: string -> string, pairs: seq<Pair>, ordered: seq<Entry>)
    requires HashedPairs(kh, pairs, ordered) && !KeysRepeat(pairs) && SharedHash(ordered)
    ensures !HashesApart(kh, MapOf(pairs).Keys)
  {
    MapOfPairs(pairs);
    hide MapOf;
    var m := MapOf(pairs);
    var i, j :| 0 <= i < j < |ordered| && ordered[i].hash == ordered[j].hash;
    assert pairs[i].key in m && pairs[j].key in m && pairs[i].key != pairs[j].key;
  }

  /** Sorting neither makes nor hides a shared hash. */
  lemma SharingSurvives(a: seq<Entry>, b: seq<Entry>)
    requires multiset(a) == multiset(b) && SharedHash(a)
    requires forall i, j :: 0 <= i < j < |a| ==> a[i] != a[j]
    ensures SharedHash(b)
  {
    SameElements(a, b);
    var i, j :| 0 <= i < j < |a| && a[i].hash == a[j].hash;
    assert a[i] in b && a[j] in b;
    var k :| 0 <= k < |b| && b[k] == a[i];
    var l :| 0 <= l < |b| && b[l] == a[j];
    if k < l { assert b[k].hash == b[l].hash; } else { assert b[l].hash == b[k].hash; }
  }

  lemma SortedRange(kh: string -> string, pairs: seq<Pair>, hashed: seq<Entry>, ordered: seq<Entry>)
    requires HashedPairs(kh, pairs, hashed) && !KeysRepeat(pairs) && AllDigests(kh)
    requires ordered == Sort(EntryLe, hashed)
    ensures Hashed(kh, ordered) && ByHash(ordered) && |ordered| == |pairs|
    ensures AsSet(ordered) == Entries(kh, MapOf(pairs))
    ensures SharedHash(ordered) <==> !HashesApart(kh, MapOf(pairs).Keys)
  {
    EntryLeIsTotal();
    SortSorts(EntryLe, hashed);
    SameElements(hashed, ordered);
    HashedAreEntries(kh, pairs, hashed);
    SharingIsCollision(kh, pairs, hashed);
    DistinctSurvives(hashed, ordered);
    if SharedHash(ordered) { SharingSurvives(ordered, hashed); }
    if SharedHash(hashed) { SharingSurvives(hashed, ordered); }
    hide IsDigest;
    hide Before;
    forall i, j | 0 <= i < j < |ordered|
      ensures ordered[i].hash == ordered[j].hash || Before(ordered[i].hash, ordered[j].hash)
    {
      assert EntryLe(ordered[i], ordered[j]);
    }
    forall i | 0 <= i < |ordered|
      ensures ordered[i].hash == kh(ordered[i].key) && IsDigest(ordered[i].hash)
    {
      assert ordered[i] in ordered && ordered[i] in hashed;
    }
  }

  ghost predicate ValidPair(p: Pair) { ValidKey(p.key) && ValidContentId(p.value) }

  ghost predicate KeyBefore(entries: seq<Pair>, i: nat)
    requires i < |entries|
  {
    exists j :: 0 <= j < i && entries[j].key == entries[i].key
  }

  /** The first fault of the pairs, taken in their order. */
  ghost function FirstFault(entries: seq<Pair>): Option<BuildError> {
    if entries == [] then None
    else
      var n := |entries| - 1;
      var front := FirstFault(entries[..n]);
      if front.Some? then front
      else if !ValidPair(entries[n]) then Some(MalformedPair)
      else if KeyBefore(entries, n) then Some(RepeatedKey)
      else None
  }

  lemma {:induction false} FaultStays(entries: seq<Pair>, i: nat)
    requires i <= |entries| && FirstFault(entries[..i]).Some?
    ensures FirstFault(entries) == FirstFault(entries[..i])
    decreases |entries|
  {
    hide ValidPair;
    hide KeyBefore;
    if i < |entries| {
      assert entries[..|entries| - 1][..i] == entries[..i];
      FaultStays(entries[..|entries| - 1], i);
    } else {
      assert entries[..i] == entries;
    }
  }

  /** Pairs without a fault have well-formed keys, none of them repeated. */
  lemma {:induction false} NoFault(entries: seq<Pair>)
    ensures FirstFault(entries).None? <==> !KeysRepeat(entries) && forall i :: 0 <= i < |entries| ==> ValidPair(entries[i])
  {
    hide ValidPair;
    if entries != [] {
      var n := |entries| - 1;
      var front := entries[..n];
      NoFault(front);
      assert forall i :: 0 <= i < n ==> front[i] == entries[i];
      KeysSplit(entries);
    }
  }

  lemma KeysSplit(entries: seq<Pair>)
    requires entries != []
    ensures var n := |entries| - 1; KeysRepeat(entries) <==> KeysRepeat(entries[..n]) || KeyBefore(entries, n)
  {
    var n := |entries| - 1;
    var front := entries[..n];
    if KeysRepeat(front) {
      var i, j :| 0 <= i < j < |front| && front[i].key == front[j].key;
      assert entries[i].key == entries[j].key;
    }
    if KeyBefore(entries, n) {
      var j :| 0 <= j < n && entries[j].key == entries[n].key;
    }
    if KeysRepeat(entries) {
      var i, j :| 0 <= i < j < |entries| && entries[i].key == entries[j].key;
      if j < n { assert front[i].key == front[j].key; }
    }
  }

  /** A build refuses exactly too many pairs, then the first malformed or repeated one,
      then colliding hashes, and otherwise makes the root of the listed map. */
  method BuildMap(kh: string -> string, entries: seq<Pair>) returns (r: BuildResult)
    requires AllDigests(kh)
    ensures
      if |entries| > MAX_EXACT_INTEGER then r == NotBuilt(TooMany)
      else if FirstFault(entries).Some? then r == NotBuilt(FirstFault(entries).value)
      else if !HashesApart(kh, MapOf(entries).Keys) then r == NotBuilt(BuildRefused(Collision))
      else r.Built? && Represents(kh, r.root, MapOf(entries))
  {
    hide IsDigest;
    hide EntryLe;
    hide HashesApart;
    hide SharedHash;
    hide Canonical;
    hide ValidPair;
    if |entries| > MAX_EXACT_INTEGER { return NotBuilt(TooMany); }
    if entries == [] {
      assert !KeysRepeat(entries) && HashesApart(kh, MapOf(entries).Keys) by { NoPairs(kh, entries); }
      return Built(EMPTY);
    }
    var error, hashed := HashPairs(kh, entries);
    if error.Some? { return NotBuilt(error.value); }
    NoFault(entries);
    hide FirstFault;
    hide KeysRepeat;
    var ordered := Sort(EntryLe, hashed);
    SortedRange(kh, entries, hashed, ordered);
    var subtree := BuildSubtree(kh, ordered);
    if subtree.SubtreeRefused? { return NotBuilt(BuildRefused(subtree.error)); }
    if subtree.ref.entries != |entries| { return NotBuilt(BuildRefused(Integrity)); }
    r := Built(Root(Some(subtree.ref.node), subtree.ref.entries));
  }

  /** One more pair, when those before it have no fault and these keys. */
  lemma FaultHere(entries: seq<Pair>, i: nat, keys: set<string>)
    requires i < |entries| && FirstFault(entries[..i]).None?
    requires forall k :: k in keys <==> exists j :: 0 <= j < i && entries[j].key == k
    ensures FirstFault(entries[..i + 1]) ==
      if !ValidPair(entries[i]) then Some(MalformedPair)
      else if entries[i].key in keys then Some(RepeatedKey)
      else None
  {
    hide ValidPair;
    assert entries[..i + 1][..i] == entries[..i] && entries[..i + 1][i] == entries[i];
    assert KeyBefore(entries[..i + 1], i) <==> entries[i].key in keys;
  }

  /** Checks and hashes the pairs in their order. */
  method HashPairs(kh: string -> string, entries: seq<Pair>) returns (error: Option<BuildError>, hashed: seq<Entry>)
    ensures error == FirstFault(entries)
    ensures error.None? ==> HashedPairs(kh, entries, hashed)
  {
    hide ValidKey;
    hide ValidContentId;
    var keys: set<string> := {};
    assert FirstFault([]).None?;
    hide FirstFault;
    hashed := [];
    for i := 0 to |entries|
      invariant forall k :: k in keys <==> exists j :: 0 <= j < i && entries[j].key == k
      invariant HashedPairs(kh, entries[..i], hashed)
      invariant FirstFault(entries[..i]).None?
    {
      var pair := entries[i];
      FaultHere(entries, i, keys);
      var keyOk := ValidateKey(pair.key);
      var valueOk := ValidateContentId(pair.value);
      if !keyOk || !valueOk {
        FaultStays(entries, i + 1);
        return Some(MalformedPair), [];
      }
      if pair.key in keys {
        FaultStays(entries, i + 1);
        return Some(RepeatedKey), [];
      }
      keys := keys + {pair.key};
      hashed := hashed + [Entry(pair.key, kh(pair.key), pair.value)];
    }
    assert entries[..|entries|] == entries;
    error := None;
  }

  lemma NoPairs(kh: string -> string, entries: seq<Pair>)
    requires entries == []
    ensures !KeysRepeat(entries) && HashesApart(kh, MapOf(entries).Keys)
  {
  }

  /** A full rebuild and any batch of mutations that makes the same map arrive at the
      same root. */
  lemma RebuildMeetsHistory(kh: string -> string, pairs: seq<Pair>, mutations: seq<Mutation>, built: Root, r: RootResult)
    requires Represents(kh, built, MapOf(pairs))
    requires BatchApplies(kh, map[], mutations, r) && r.Next?
    requires ApplyToMap(map[], mutations) == Some(MapOf(pairs))
    ensures built == r.root
  {
    BatchMeans(kh, map[], mutations, r);
    RootIsContents(kh, built, r.root, MapOf(pairs));
  }
}
