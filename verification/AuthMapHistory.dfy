/** Reading, mutating and building authenticated maps: every root is determined by
    the contents alone (crates/cymule-authenticated-collections/src/map.rs). */
module AuthMapHistory {
  import opened Wrappers
  import opened HashPrefix
  import opened AuthMap

  datatype Root = Root(node: Option<Node>, entries: nat)

  const EMPTY := Root(None, 0)

  // ----- what a root represents

  function EntriesOf(root: Root): set<Entry> {
    if root.node.None? then {} else Leaves(root.node.value)
  }

  /** The entries of a key-value map under the key hash. */
  ghost function Entries(kh: string -> string, m: map<string, string>): set<Entry> {
    set k | k in m :: Entry(k, kh(k), m[k])
  }

  /** `root` is a well-formed root holding exactly `m`. */
  ghost predicate Represents(kh: string -> string, root: Root, m: map<string, string>) {
    && EntriesOf(root) == Entries(kh, m)
    && root.entries <= MAX_EXACT_INTEGER
    && (root.node.None? ==> root.entries == 0)
    && (root.node.Some? ==> CanonicalRef(kh, Ref(root.node.value, root.entries)))
  }

  /** No two of the keys share a hash. */
  ghost predicate HashesApart(kh: string -> string, keys: set<string>) {
    forall k, l :: k in keys && l in keys && kh(k) == kh(l) ==> k == l
  }

  /** Roots that represent the same map are equal, whatever history made them. */
  lemma RootIsContents(kh: string -> string, a: Root, b: Root, m: map<string, string>)
    requires Represents(kh, a, m) && Represents(kh, b, m)
    ensures a == b
  {
    if a.node.Some? { LeavesAreHashed(kh, a.node.value); }
    if b.node.Some? { LeavesAreHashed(kh, b.node.value); }
    if a.node.Some? {
      CanonicalIsUnique(kh, a.node.value, b.node.value);
    }
  }

  lemma {:induction false} EntriesAreCounted(kh: string -> string, node: Node)
    requires Canonical(kh, node)
    ensures NodeEntries(node) == |Leaves(node)|
  {
    if node.Branch? {
      EntriesAreCounted(kh, node.left.node);
      EntriesAreCounted(kh, node.right.node);
      SidesByBit(kh, node);
      assert Leaves(node.left.node) !! Leaves(node.right.node);
    }
  }

  lemma EntriesOfUpdate(kh: string -> string, m: map<string, string>, key: string, value: string)
    ensures Put(Entries(kh, m), key, kh(key), value) == Entries(kh, m[key := value])
    ensures Drop(Entries(kh, m), key) == Entries(kh, m - {key})
    ensures HasKey(Entries(kh, m), key) <==> key in m
    ensures Collides(Entries(kh, m), key, kh(key)) <==> Taken(kh, m, key)
  {
    if key in m {
      assert Entry(key, kh(key), m[key]) in Entries(kh, m);
    }
    forall k | k in m && k != key && kh(k) == kh(key) ensures Collides(Entries(kh, m), key, kh(key)) {
      assert Entry(k, kh(k), m[k]) in Entries(kh, m);
    }
  }

  // ----- lookup

  datatype LookupResult = Found(value: string, rank: nat) | Absent | LookupRefused(error: Error)

  /** How many entries come before a hash in the map's order. */
  ghost function Rank(entries: set<Entry>, hash: string): nat {
    |set e | e in entries && Before(e.hash, hash)|
  }

  /** The outcome of looking a key up among `entries`. */
  ghost predicate LooksUp(kh: string -> string, entries: set<Entry>, key: string, r: LookupResult) {
    if HasKey(entries, key) then r.Found? && Entry(key, kh(key), r.value) in entries && r.rank == Rank(entries, kh(key))
    else if Collides(entries, key, kh(key)) then r == LookupRefused(Collision)
    else r == Absent
  }

  /** Left of the key's side everything comes before it, right of it nothing does. */
  lemma RankBelow(kh: string -> string, node: Node, key: string)
    requires Canonical(kh, node) && node.Branch? && IsDigest(kh(key)) && Agree(kh(key), node.prefix, node.depth)
    ensures var right := Bit(kh(key), node.depth);
      Rank(Leaves(node), kh(key)) ==
        Rank(Leaves(Side(node, right).node), kh(key)) + if right then node.left.entries else 0
  {
    hide Before;
    hide Rank;
    var hash, right := kh(key), Bit(kh(key), node.depth);
    SidesByBit(kh, node);
    var l, r := Leaves(node.left.node), Leaves(node.right.node);
    forall e | e in Leaves(node) && Bit(e.hash, node.depth) != right
      ensures Before(e.hash, hash) <==> right
    {
      PartsAt(e.hash, hash, node.prefix, node.depth);
    }
    if right { EntriesAreCounted(kh, node.left.node); }
    RankOfParts(l, r, hash, right);
  }

  lemma RankOfParts(l: set<Entry>, r: set<Entry>, hash: string, right: bool)
    requires l !! r
    requires forall e :: e in (if right then l else r) ==> (Before(e.hash, hash) <==> right)
    ensures Rank(l + r, hash) == if right then |l| + Rank(r, hash) else Rank(l, hash)
  {
    hide Before;
    var all := set e | e in l + r && Before(e.hash, hash);
    if right {
      var near := set e | e in r && Before(e.hash, hash);
      assert all == l + near && l !! near;
    } else {
      assert all == set e | e in l && Before(e.hash, hash);
    }
  }

  lemma PartsAt(a: string, b: string, prefix: string, depth: nat)
    requires IsDigest(a) && IsDigest(b) && IsDigest(prefix) && depth < DIGEST_BITS
    requires Agree(a, prefix, depth) && Agree(b, prefix, depth) && Bit(a, depth) != Bit(b, depth)
    ensures Before(a, b) <==> Bit(b, depth)
  {
    assert Agree(a, b, depth);
    assert Common(a, b) == depth;
    OrderByBit(a, b);
  }

  lemma LookupAtLeaf(kh: string -> string, ref: Ref, key: string, constraints: seq<Constraint>, rank: nat)
    requires OnPath(kh, ref, key, constraints) && ref.node.Leaf?
    ensures VerifyConstraints(ref.node.hash, constraints)
    ensures Rank(Leaves(ref.node), kh(key)) == 0 || kh(key) != ref.node.hash
    ensures LooksUp(kh, Leaves(ref.node), key,
      if ref.node.key == key && ref.node.hash == kh(key) then Found(ref.node.value, 0)
      else if ref.node.hash == kh(key) then LookupRefused(Collision) else Absent)
  {
    assert Canonical(kh, ref.node);
    var stored := Entry(ref.node.key, ref.node.hash, ref.node.value);
    assert stored in Leaves(ref.node);
    NotBeforeItself(kh(key));
    if ref.node.hash == kh(key) {
      assert (set e | e in Leaves(ref.node) && Before(e.hash, kh(key))) == {};
    }
  }

  lemma {:induction false} NotBeforeItself(s: string)
    ensures !Before(s, s)
  {
    if s != "" { NotBeforeItself(s[1..]); }
  }

  // ----- the lookup loop

  /** What the loop has established on reaching `ref` with `rank` entries passed. */
  ghost predicate Reached(kh: string -> string, root: Root, ref: Ref, key: string, constraints: seq<Constraint>, rank: nat) {
    && OnPath(kh, ref, key, constraints)
    && rank + ref.entries <= root.entries
    && (HasKey(EntriesOf(root), key) <==> HasKey(Leaves(ref.node), key))
    && (Collides(EntriesOf(root), key, kh(key)) <==> Collides(Leaves(ref.node), key, kh(key)))
    && Leaves(ref.node) <= EntriesOf(root)
    && Rank(EntriesOf(root), kh(key)) == rank + Rank(Leaves(ref.node), kh(key))
  }

  lemma StepsDown(kh: string -> string, root: Root, ref: Ref, key: string, constraints: seq<Constraint>, rank: nat)
    requires Reached(kh, root, ref, key, constraints, rank) && ref.node.Branch? && IsDigest(kh(key))
    requires IsDigest(ref.node.prefix) && ref.node.depth < DIGEST_BITS
    requires Common(ref.node.prefix, kh(key)) >= ref.node.depth
    ensures var node, right := ref.node, Bit(kh(key), ref.node.depth);
      Reached(kh, root, Side(node, right), key, constraints + [Constraint(node.depth, node.prefix, right)],
        rank + if right then node.left.entries else 0)
      && Side(node, right).entries > 0
  {
    PathGoesDown(kh, ref, key, constraints);
    assert Canonical(kh, ref.node);
    OtherSideParts(kh, ref.node, key);
    RankBelow(kh, ref.node, key);
    SideIsNotEmpty(kh, ref.node, Bit(kh(key), ref.node.depth));
  }

  lemma SideIsNotEmpty(kh: string -> string, node: Node, right: bool)
    requires Canonical(kh, node) && node.Branch?
    ensures Side(node, right).entries > 0
  {
    LeavesAreHashed(kh, Side(node, right).node);
    EntriesAreCounted(kh, Side(node, right).node);
  }

  lemma LookupEnds(kh: string -> string, root: Root, ref: Ref, key: string, constraints: seq<Constraint>, rank: nat)
    requires Reached(kh, root, ref, key, constraints, rank) && ref.node.Leaf?
    ensures VerifyConstraints(ref.node.hash, constraints)
    ensures LooksUp(kh, EntriesOf(root), key,
      if ref.node.key == key && ref.node.hash == kh(key) then Found(ref.node.value, rank)
      else if ref.node.hash == kh(key) then LookupRefused(Collision) else Absent)
  {
    LookupAtLeaf(kh, ref, key, constraints, rank);
  }

  lemma LookupMisses(kh: string -> string, root: Root, ref: Ref, key: string, constraints: seq<Constraint>, rank: nat)
    requires Reached(kh, root, ref, key, constraints, rank) && ref.node.Branch? && IsDigest(kh(key))
    requires HashMatchesPrefix(kh(key), ref.node.prefix, ref.node.depth) != Some(true)
    ensures LooksUp(kh, EntriesOf(root), key, Absent)
  {
    MissesBranch(kh, ref, key, constraints);
    assert Canonical(kh, ref.node);
    LeavesAreHashed(kh, ref.node);
    forall e | e in Leaves(ref.node) ensures e.hash != kh(key) {
      MatchesExactly(e.hash, ref.node.prefix, ref.node.depth);
      assert Agree(e.hash, ref.node.prefix, ref.node.depth);
    }
  }

  lemma LookupStarts(kh: string -> string, root: Root, key: string, m: map<string, string>)
    requires Represents(kh, root, m) && root.node.Some? && IsDigest(kh(key))
    ensures Reached(kh, root, Ref(root.node.value, root.entries), key, [], 0)
  {
  }

  /** Walks from the root to the one leaf the key can be at, counting the entries
      passed on the left: on a root that represents a map, the value and the key's
      rank in hash order, or a collision, and never an integrity error. */
  method Lookup(ghost kh: string -> string, root: Root, key: string, hash: string, ghost m: map<string, string>) returns (r: LookupResult)
    requires hash == kh(key) && IsDigest(hash) && Represents(kh, root, m)
    ensures LooksUp(kh, Entries(kh, m), key, r)
  {
    hide Reached;
    hide OnPath;
    hide VerifyConstraints;
    hide HashMatchesPrefix;
    hide LooksUp;
    hide IsDigest;
    hide Common;
    if root.node.None? {
      NothingIn(kh, key);
      return Absent;
    }
    var ref := Ref(root.node.value, root.entries);
    var constraints: seq<Constraint> := [];
    var rank: nat := 0;
    LookupStarts(kh, root, key, m);
    for i := 0 to MAX_PATH_NODES
      invariant Reached(kh, root, ref, key, constraints, rank) && |constraints| == i
    {
      ReachedFacts(kh, root, ref, key, constraints, rank);
      if NodeEntries(ref.node) != ref.entries { return LookupRefused(Integrity); }
      match ref.node
      case Leaf(storedKey, storedHash, value) =>
        LookupEnds(kh, root, ref, key, constraints, rank);
        if !VerifyConstraints(storedHash, constraints) { return LookupRefused(Integrity); }
        if storedKey == key && storedHash == hash {
          return Found(value, rank);
        } else if storedHash == hash {
          return LookupRefused(Collision);
        } else {
          return Absent;
        }
      case Branch(depth, prefix, left, right) =>
        if !VerifyConstraints(prefix, constraints) || NotDeeper(constraints, depth) { return LookupRefused(Integrity); }
        if HashMatchesPrefix(hash, prefix, depth) != Some(true) {
          LookupMisses(kh, root, ref, key, constraints, rank);
          return Absent;
        }
        StepsDown(kh, root, ref, key, constraints, rank);
        var goesRight := Bit(hash, depth);
        constraints := constraints + [Constraint(depth, prefix, goesRight)];
        ref := Side(ref.node, goesRight);
        ReachedFacts(kh, root, ref, key, constraints, rank + if goesRight then left.entries else 0);
        if goesRight {
          if rank + left.entries >= MAX_EXACT_INTEGER { return LookupRefused(Integrity); }
          rank := rank + left.entries;
        }
    }
    ReachedFacts(kh, root, ref, key, constraints, rank);
    r := LookupRefused(Integrity);
  }

  lemma NothingIn(kh: string -> string, key: string)
    ensures LooksUp(kh, {}, key, Absent)
  {
  }

  lemma ReachedFacts(kh: string -> string, root: Root, ref: Ref, key: string, constraints: seq<Constraint>, rank: nat)
    requires Reached(kh, root, ref, key, constraints, rank)
    ensures |constraints| < MAX_PATH_NODES && ref.entries == NodeEntries(ref.node) && rank + ref.entries <= root.entries
    ensures ref.node.Branch? ==>
      && ref.node.depth < DIGEST_BITS && IsDigest(ref.node.prefix)
      && VerifyConstraints(ref.node.prefix, constraints) && !NotDeeper(constraints, ref.node.depth)
      && HashMatchesPrefix(kh(key), ref.node.prefix, ref.node.depth) == Some(Common(ref.node.prefix, kh(key)) >= ref.node.depth)
  {
    PathLeavesRoom(constraints);
    if ref.node.Branch? {
      BranchFacts(kh, ref, key, constraints);
      BranchIsNormal(kh, ref, key, constraints);
      PrefixMatchIsCommon(kh(key), ref.node.prefix, ref.node.depth);
    }
  }

  // ----- mutations

  datatype RootResult = Next(root: Root) | RootRefused(error: Error)

  /** `expected` is the value the key must hold before, None that it must hold none. */
  datatype Mutation =
    | PutKey(key: string, expected: Option<string>, value: string)
    | RemoveKey(key: string, former: string)

  function OverlayPut(root: Root, key: string, hash: string, value: string): RootResult
    requires IsDigest(hash)
  {
    FinishPut(root,
      if root.node.None? then Inserted(RefTo(Leaf(key, hash, value)), true)
      else InsertNode(Ref(root.node.value, root.entries), key, hash, value, [], MAX_PATH_NODES))
  }

  function FinishPut(root: Root, r: InsertResult): RootResult {
    if r.InsertRefused? then RootRefused(r.error)
    else
      var entries := if r.isNew then root.entries + 1 else root.entries;
      if entries > MAX_EXACT_INTEGER then RootRefused(CountOverflow)
      else if r.ref.entries != entries then RootRefused(Integrity)
      else Next(Root(Some(r.ref.node), entries))
  }

  function OverlayRemove(root: Root, key: string, hash: string): RootResult
    requires IsDigest(hash)
  {
    if root.node.None? then RootRefused(Conflict)
    else FinishRemove(root, RemoveNode(Ref(root.node.value, root.entries), key, hash, [], MAX_PATH_NODES))
  }

  function FinishRemove(root: Root, r: RemoveResult): RootResult {
    if r.RemoveRefused? then RootRefused(r.error)
    else if root.entries == 0 then RootRefused(Integrity)
    else
      var left := if r.ref.None? then 0 else r.ref.value.entries;
      if left != root.entries - 1 then RootRefused(Integrity)
      else Next(Root(if r.ref.None? then None else Some(r.ref.value.node), root.entries - 1))
  }

  lemma RootOnPath(kh: string -> string, root: Root, key: string, m: map<string, string>)
    requires Represents(kh, root, m) && root.node.Some? && IsDigest(kh(key))
    ensures OnPath(kh, Ref(root.node.value, root.entries), key, [])
  {
  }

  lemma EntriesCount(kh: string -> string, m: map<string, string>)
    ensures |Entries(kh, m)| == |m|
    decreases |m|
  {
    if m == map[] {
      assert Entries(kh, m) == {};
    } else {
      var k :| k in m;
      var rest := m - {k};
      EntriesCount(kh, rest);
      assert |rest| == |m| - 1;
      assert Entries(kh, m) == Entries(kh, rest) + {Entry(k, kh(k), m[k])};
    }
  }

  lemma RootIsCounted(kh: string -> string, root: Root, m: map<string, string>)
    requires Represents(kh, root, m)
    ensures root.entries == |m|
  {
    EntriesCount(kh, m);
    if root.node.Some? { EntriesAreCounted(kh, root.node.value); }
  }

  lemma PutFinishes(kh: string -> string, root: Root, m: map<string, string>, key: string, value: string, r: InsertResult)
    requires Puts(kh, Entries(kh, m), key, value, r) && root.entries == |m|
    ensures var f := FinishPut(root, r);
      if Taken(kh, m, key) then f == RootRefused(Collision)
      else if |m[key := value]| > MAX_EXACT_INTEGER then f == RootRefused(CountOverflow)
      else f.Next? && Represents(kh, f.root, m[key := value])
  {
    EntriesOfUpdate(kh, m, key, value);
    EntriesCount(kh, m[key := value]);
    UpdateCount(m, key, value);
    if r.Inserted? { EntriesAreCounted(kh, r.ref.node); }
  }

  /** A put either meets another key's hash, or overflows the count, or makes the
      root of the updated map. */
  lemma PutExactly(kh: string -> string, root: Root, m: map<string, string>, key: string, value: string)
    requires Represents(kh, root, m) && IsDigest(kh(key))
    ensures var r := OverlayPut(root, key, kh(key), value);
      if Taken(kh, m, key) then r == RootRefused(Collision)
      else if |m[key := value]| > MAX_EXACT_INTEGER then r == RootRefused(CountOverflow)
      else r.Next? && Represents(kh, r.root, m[key := value])
  {
    hide Puts;
    hide InsertNode;
    hide FinishPut;
    RootIsCounted(kh, root, m);
    if root.node.None? {
      FirstPut(kh, m, key, value);
      PutFinishes(kh, root, m, key, value, Inserted(RefTo(Leaf(key, kh(key), value)), true));
    } else {
      RootOnPath(kh, root, key, m);
      InsertExactly(kh, Ref(root.node.value, root.entries), key, value, []);
      PutFinishes(kh, root, m, key, value, InsertNode(Ref(root.node.value, root.entries), key, kh(key), value, [], MAX_PATH_NODES));
    }
  }

  lemma FirstPut(kh: string -> string, m: map<string, string>, key: string, value: string)
    requires Entries(kh, m) == {} && IsDigest(kh(key))
    ensures Puts(kh, Entries(kh, m), key, value, Inserted(RefTo(Leaf(key, kh(key), value)), true))
  {
    assert Put({}, key, kh(key), value) == {Entry(key, kh(key), value)};
  }

  lemma UpdateCount(m: map<string, string>, key: string, value: string)
    ensures |m[key := value]| == |m| + if key in m then 0 else 1
  {
    assert m[key := value].Keys == m.Keys + {key};
    assert |m.Keys| == |m| && |m[key := value].Keys| == |m[key := value]|;
    if key in m { assert m.Keys + {key} == m.Keys; }
  }

  lemma RemoveFinishes(kh: string -> string, root: Root, m: map<string, string>, key: string, r: RemoveResult)
    requires Drops(kh, Entries(kh, m), key, r) && root.entries == |m| <= MAX_EXACT_INTEGER
    ensures var f := FinishRemove(root, r);
      if key !in m then f == RootRefused(Conflict)
      else f.Next? && Represents(kh, f.root, m - {key})
  {
    EntriesOfUpdate(kh, m, key, "");
    EntriesCount(kh, m - {key});
    if key in m {
      RemoveCount(m, key);
      if r.ref.Some? { EntriesAreCounted(kh, r.ref.value.node); }
    }
  }

  /** A removal fails exactly when the key is absent, and otherwise makes the root of
      the map without it. */
  lemma RemoveFromRootExactly(kh: string -> string, root: Root, m: map<string, string>, key: string)
    requires Represents(kh, root, m) && IsDigest(kh(key))
    ensures var r := OverlayRemove(root, key, kh(key));
      if key !in m then r == RootRefused(Conflict)
      else r.Next? && Represents(kh, r.root, m - {key})
  {
    hide Drops;
    hide RemoveNode;
    hide FinishRemove;
    RootIsCounted(kh, root, m);
    if root.node.Some? {
      RootOnPath(kh, root, key, m);
      RemoveExactly(kh, Ref(root.node.value, root.entries), key, []);
      RemoveFinishes(kh, root, m, key, RemoveNode(Ref(root.node.value, root.entries), key, kh(key), [], MAX_PATH_NODES));
    }
  }

  lemma RemoveCount(m: map<string, string>, key: string)
    requires key in m
    ensures |m - {key}| == |m| - 1
  {
    assert (m - {key}).Keys == m.Keys - {key};
    assert |(m - {key}).Keys| == |m - {key}| && |m.Keys| == |m|;
  }

  /** What a batch of mutations means on the map itself; None is a conflict. */
  function ApplyToMap(m: map<string, string>, mutations: seq<Mutation>): Option<map<string, string>>
    decreases |mutations|
  {
    if mutations == [] then Some(m)
    else
      var next := ApplyOne(m, mutations[0]);
      if next.None? then None else ApplyToMap(next.value, mutations[1..])
  }

  function ApplyOne(m: map<string, string>, mutation: Mutation): Option<map<string, string>> {
    match mutation
    case PutKey(key, expected, value) =>
      if (if key in m then Some(m[key]) else None) == expected then Some(m[key := value]) else None
    case RemoveKey(key, former) =>
      if key in m && m[key] == former then Some(m - {key}) else None
  }

  function KeysOf(mutations: seq<Mutation>): set<string> {
    set mutation | mutation in mutations :: mutation.key
  }

  ghost predicate AllDigests(kh: string -> string) {
    forall k :: IsDigest(kh(k))
  }

  /** Another key of the map has the hash of `key`. */
  ghost predicate Taken(kh: string -> string, m: map<string, string>, key: string) {
    exists k :: k in m && k != key && kh(k) == kh(key)
  }

  /** What speaks against a mutation of a map, in the order it is met; None is nothing. */
  ghost function Refusal(kh: string -> string, m: map<string, string>, mutation: Mutation): Option<Error> {
    if !ValidKey(mutation.key) then Some(Invalid)
    else if Taken(kh, m, mutation.key) then Some(Collision)
    else if ApplyOne(m, mutation).None? then Some(Conflict)
    else if mutation.PutKey? && !ValidContentId(mutation.value) then Some(Invalid)
    else if |ApplyOne(m, mutation).value| > MAX_EXACT_INTEGER then Some(CountOverflow)
    else None
  }

  /** The outcome of one mutation: refused, or the root of the changed map. */
  ghost predicate Applies(kh: string -> string, m: map<string, string>, mutation: Mutation, r: RootResult) {
    var refusal := Refusal(kh, m, mutation);
    if refusal.Some? then r == RootRefused(refusal.value)
    else ApplyOne(m, mutation).Some? && r.Next? && Represents(kh, r.root, ApplyOne(m, mutation).value)
  }

  /** Two leaves of a canonical node never share a hash. */
  lemma {:induction false} HashesDiffer(kh: string -> string, node: Node, a: Entry, b: Entry)
    requires Canonical(kh, node) && a in Leaves(node) && b in Leaves(node) && a.hash == b.hash
    ensures a == b
  {
    if node.Branch? {
      SidesByBit(kh, node);
      HashesDiffer(kh, Side(node, Bit(a.hash, node.depth)).node, a, b);
    }
  }

  lemma PresentIsNotTaken(kh: string -> string, root: Root, m: map<string, string>, key: string)
    requires Represents(kh, root, m) && key in m
    ensures !Taken(kh, m, key)
  {
    if Taken(kh, m, key) {
      var k :| k in m && k != key && kh(k) == kh(key);
      var a, b := Entry(k, kh(k), m[k]), Entry(key, kh(key), m[key]);
      assert a in Entries(kh, m) && b in Entries(kh, m);
      HashesDiffer(kh, root.node.value, a, b);
      assert false;
    }
  }

  lemma CountStays(kh: string -> string, root: Root, m: map<string, string>, key: string)
    requires Represents(kh, root, m) && key in m
    ensures |m - {key}| <= MAX_EXACT_INTEGER
  {
    RootIsCounted(kh, root, m);
    RemoveCount(m, key);
  }

  method ApplyMutation(kh: string -> string, root: Root, mutation: Mutation, ghost m: map<string, string>) returns (r: RootResult)
    requires IsDigest(kh(mutation.key)) && Represents(kh, root, m)
    ensures Applies(kh, m, mutation, r)
  {
    hide Represents;
    hide Entries;
    hide OverlayPut;
    hide OverlayRemove;
    hide IsDigest;
    hide LooksUp;
    hide ValidKey;
    hide ValidContentId;
    var key := mutation.key;
    var keyOk := ValidateKey(key);
    if !keyOk { return RootRefused(Invalid); }
    var hash := kh(key);
    var current := Lookup(kh, root, key, hash, m);
    LookupOfMap(kh, m, key, current);
    if key in m { PresentIsNotTaken(kh, root, m, key); }
    if current.LookupRefused? { return RootRefused(current.error); }
    var held := if current.Found? then Some(current.value) else None;
    match mutation
    case PutKey(_, expected, value) =>
      if held != expected { return RootRefused(Conflict); }
      var valueOk := ValidateContentId(value);
      if !valueOk { return RootRefused(Invalid); }
      PutExactly(kh, root, m, key, value);
      r := OverlayPut(root, key, hash, value);
    case RemoveKey(_, former) =>
      if held != Some(former) { return RootRefused(Conflict); }
      RemoveFromRootExactly(kh, root, m, key);
      CountStays(kh, root, m, key);
      r := OverlayRemove(root, key, hash);
  }

  /** What a batch does, one mutation after the other, the first refusal ending it. */
  ghost predicate BatchApplies(kh: string -> string, m: map<string, string>, mutations: seq<Mutation>, r: RootResult)
    decreases |mutations|
  {
    if mutations == [] then r.Next? && Represents(kh, r.root, m)
    else
      var refusal := Refusal(kh, m, mutations[0]);
      if refusal.Some? then r == RootRefused(refusal.value)
      else ApplyOne(m, mutations[0]).Some? && BatchApplies(kh, ApplyOne(m, mutations[0]).value, mutations[1..], r)
  }

  /** Applies a batch to a root: the root of the map the batch makes, or the first
      refusal; a root that represents a map is never found inconsistent. */
  method ApplyMutations(kh: string -> string, root0: Root, mutations: seq<Mutation>, ghost m0: map<string, string>) returns (r: RootResult)
    requires AllDigests(kh) && Represents(kh, root0, m0)
    ensures BatchApplies(kh, m0, mutations, r)
  {
    hide Represents;
    hide IsDigest;
    hide Refusal;
    hide ApplyOne;
    ghost var m := m0;
    var root := root0;
    for i := 0 to |mutations|
      invariant Represents(kh, root, m)
      invariant forall x :: BatchApplies(kh, m, mutations[i..], x) ==> BatchApplies(kh, m0, mutations, x)
    {
      var mutation := mutations[i];
      var rest := mutations[i..];
      assert rest[0] == mutation && rest[1..] == mutations[i + 1..];
      var next := ApplyMutation(kh, root, mutation, m);
      if next.RootRefused? {
        assert BatchApplies(kh, m, rest, next);
        return next;
      }
      ghost var after := ApplyOne(m, mutation).value;
      assert forall x :: BatchApplies(kh, after, mutations[i + 1..], x) ==> BatchApplies(kh, m, rest, x);
      m := after;
      root := next.root;
    }
    r := Next(root);
    assert mutations[|mutations|..] == [];
  }

  /** Every key and every value identity is well formed. */
  ghost predicate ValidMap(m: map<string, string>) {
    forall k :: k in m ==> ValidKey(k) && ValidContentId(m[k])
  }

  lemma ValidAfter(kh: string -> string, m: map<string, string>, mutation: Mutation)
    requires ValidMap(m) && Refusal(kh, m, mutation).None?
    ensures ValidMap(ApplyOne(m, mutation).value)
  {
    hide ValidKey;
    hide ValidContentId;
  }

  /** A batch that gets through has made the map that the mutations make, valid if it was
      valid before; one that is refused is refused truthfully. */
  lemma {:induction false} BatchMeans(kh: string -> string, m: map<string, string>, mutations: seq<Mutation>, r: RootResult)
    requires BatchApplies(kh, m, mutations, r)
    ensures r.Next? ==> ApplyToMap(m, mutations).Some? && Represents(kh, r.root, ApplyToMap(m, mutations).value)
    ensures r.Next? && ValidMap(m) ==> ValidMap(ApplyToMap(m, mutations).value)
    ensures r == RootRefused(Conflict) ==> ApplyToMap(m, mutations).None?
    ensures r == RootRefused(Collision) ==> !HashesApart(kh, m.Keys + KeysOf(mutations))
    ensures r == RootRefused(Invalid) ==> exists i :: 0 <= i < |mutations| && !ValidMutation(mutations[i])
    ensures r.RootRefused? ==> r.error in {Conflict, Collision, CountOverflow, Invalid}
    decreases |mutations|
  {
    hide Represents;
    hide ValidMap;
    hide ValidKey;
    hide ValidContentId;
    if mutations != [] {
      var first := mutations[0];
      assert first in mutations && first.key in KeysOf(mutations);
      if Refusal(kh, m, first).None? {
        var next := ApplyOne(m, first).value;
        if ValidMap(m) { ValidAfter(kh, m, first); }
        BatchMeans(kh, next, mutations[1..], r);
        KeysAfter(m, mutations, next);
        if r == RootRefused(Invalid) {
          var i :| 0 <= i < |mutations| - 1 && !ValidMutation(mutations[1..][i]);
          assert !ValidMutation(mutations[i + 1]);
        }
      }
    }
  }

  ghost predicate ValidMutation(mutation: Mutation) {
    ValidKey(mutation.key) && (mutation.PutKey? ==> ValidContentId(mutation.value))
  }

  lemma KeysAfter(m: map<string, string>, mutations: seq<Mutation>, next: map<string, string>)
    requires mutations != [] && ApplyOne(m, mutations[0]) == Some(next)
    ensures next.Keys + KeysOf(mutations[1..]) <= m.Keys + KeysOf(mutations)
  {
    assert mutations[0] in mutations;
    assert forall x :: x in mutations[1..] ==> x in mutations;
  }

  lemma LookupOfMap(kh: string -> string, m: map<string, string>, key: string, r: LookupResult)
    requires LooksUp(kh, Entries(kh, m), key, r)
    ensures key in m ==> r.Found? && r.value == m[key]
    ensures key !in m ==> !r.Found?
    ensures r.LookupRefused? ==> r.error == Collision
    ensures r == LookupRefused(Collision) ==> key !in m && Taken(kh, m, key)
    ensures key !in m && r == Absent ==> !Taken(kh, m, key)
  {
    EntriesOfUpdate(kh, m, key, "");
  }

  /** Two batches that get through from roots of one map and make the same map arrive at
      the same root, whatever they did on the way. */
  lemma HistoryIndependence(kh: string -> string, m: map<string, string>, first: seq<Mutation>, second: seq<Mutation>, a: Root, b: Root)
    requires BatchApplies(kh, m, first, Next(a)) && BatchApplies(kh, m, second, Next(b))
    requires ApplyToMap(m, first) == ApplyToMap(m, second)
    ensures a == b
  {
    hide Represents;
    hide BatchApplies;
    hide ApplyToMap;
    BatchMeans(kh, m, first, Next(a));
    BatchMeans(kh, m, second, Next(b));
    RootIsContents(kh, a, b, ApplyToMap(m, first).value);
  }

  lemma EmptyIsEmpty(kh: string -> string)
    ensures Represents(kh, EMPTY, map[])
  {
    assert Entries(kh, map[]) == {};
  }

  /** A batch that leaves no entry ends at the empty root, wherever it began. */
  lemma EmptiedIsEmpty(kh: string -> string, m: map<string, string>, mutations: seq<Mutation>, root: Root)
    requires BatchApplies(kh, m, mutations, Next(root)) && ApplyToMap(m, mutations) == Some(map[])
    ensures root == EMPTY
  {
    hide Represents;
    BatchMeans(kh, m, mutations, Next(root));
    EmptyIsEmpty(kh);
    RootIsContents(kh, root, EMPTY, map[]);
  }
}
