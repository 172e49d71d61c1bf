/** The compressed hash-keyed map (crates/cymule-authenticated-collections/src/map.rs).
    A node stands for its content identity: identities are injective hashes of the
    whole subtree, so equal identities are equal trees. */
module AuthMap {
  import opened Wrappers
  import opened HashPrefix
  import opened Utf8

  const MAX_PATH_NODES: nat := 257

  /** A child edge with the entry count it commits to. */
  datatype Ref = Ref(node: Node, entries: nat)
  datatype Node =
    | Leaf(key: string, hash: string, value: string)
    | Branch(depth: nat, prefix: string, left: Ref, right: Ref)

  datatype Entry = Entry(key: string, hash: string, value: string)

  /** `Invalid` is a malformed key or value identity, `Missing` a node that is not there. */
  datatype Error = Conflict | Collision | Integrity | CountOverflow | Invalid | Missing

  datatype Constraint = Constraint(depth: nat, prefix: string, right: bool)

  // ----- keys and value identities

  const MAX_MAP_KEY_BYTES: nat := 1024 * 1024 - 64 - 71

  ghost predicate IsControl(c: char) { c as int < 0x20 || 0x7F <= c as int < 0xA0 }

  ghost predicate ValidKey(key: string) {
    key != "" && Utf8Length(key) <= MAX_MAP_KEY_BYTES && forall c :: c in key ==> !IsControl(c)
  }

  ghost predicate ValidContentId(value: string) {
    "sha256:" <= value && IsDigest(value[7..])
  }

  /** Not empty, not too long and without control characters. */
  method ValidateKey(key: string) returns (ok: bool)
    ensures ok <==> ValidKey(key)
  {
    if key == "" || Utf8Length(key) > MAX_MAP_KEY_BYTES { return false; }
    for i := 0 to |key|
      invariant forall k :: 0 <= k < i ==> !IsControl(key[k])
    {
      var n := key[i] as int;
      if n <= 31 || (127 <= n && n <= 159) {
        assert key[i] in key;
        return false;
      }
    }
    ok := true;
  }

  /** `sha256:` and sixty-four lower-case hexadecimal digits. */
  method ValidateContentId(value: string) returns (ok: bool)
    ensures ok <==> ValidContentId(value)
  {
    if |value| < 7 || value[..7] != "sha256:" || |value| - 7 != 64 { return false; }
    for i := 7 to |value|
      invariant forall k :: 7 <= k < i ==> IsLowerHex(value[k])
    {
      var c := value[i];
      if !(IsAsciiDigit(c) || c in "abcdef") {
        assert value[7..][i - 7] == c;
        return false;
      }
    }
    ok := true;
  }

  predicate IsAsciiDigit(c: char) { c in "0123456789" }

  // ----- nodes

  function NodeEntries(node: Node): nat {
    match node
    case Leaf(_, _, _) => 1
    case Branch(_, _, left, right) => left.entries + right.entries
  }

  function RefTo(node: Node): Ref { Ref(node, NodeEntries(node)) }

  // ----- what a tree holds

  function Leaves(node: Node): set<Entry> {
    match node
    case Leaf(key, hash, value) => {Entry(key, hash, value)}
    case Branch(_, _, left, right) => Leaves(left.node) + Leaves(right.node)
  }

  /** Every leaf shares `prefix` below `depth` and has `bit` at `depth`. */
  ghost predicate Partition(entries: set<Entry>, prefix: string, depth: nat, bit: bool)
    requires IsDigest(prefix) && depth < DIGEST_BITS
  {
    forall e :: e in entries ==> IsDigest(e.hash) && Agree(e.hash, prefix, depth) && Bit(e.hash, depth) == bit
  }

  /** The one shape a set of entries may take: each branch parts its leaves at the
      first bit on which they differ. */
  ghost predicate Canonical(kh: string -> string, node: Node) {
    match node
    case Leaf(key, hash, _) => hash == kh(key) && IsDigest(hash)
    case Branch(depth, prefix, left, right) =>
      && depth < DIGEST_BITS && IsDigest(prefix) && prefix == Prefix(prefix, depth)
      && CanonicalRef(kh, left) && CanonicalRef(kh, right)
      && Partition(Leaves(left.node), prefix, depth, false)
      && Partition(Leaves(right.node), prefix, depth, true)
  }

  ghost predicate CanonicalRef(kh: string -> string, r: Ref) {
    Canonical(kh, r.node) && r.entries == NodeEntries(r.node)
  }

  lemma {:induction false} LeavesAreHashed(kh: string -> string, node: Node)
    requires Canonical(kh, node)
    ensures Leaves(node) != {}
    ensures forall e :: e in Leaves(node) ==> e.hash == kh(e.key) && IsDigest(e.hash)
  {
    if node.Branch? {
      LeavesAreHashed(kh, node.left.node);
      LeavesAreHashed(kh, node.right.node);
    }
  }

  lemma AgreeJoins(a: string, b: string, c: string, d: nat)
    requires IsDigest(a) && IsDigest(b) && IsDigest(c) && d <= DIGEST_BITS
    requires Agree(a, b, d) && Agree(b, c, d)
    ensures Agree(a, c, d) && Agree(c, a, d)
  {
  }

  lemma PrefixAgrees(a: string, d: nat)
    requires IsDigest(a) && d < DIGEST_BITS
    ensures Agree(Prefix(a, d), a, d)
  {
    forall j | 0 <= j < d ensures Bit(Prefix(a, d), j) == Bit(a, j) {
      PrefixBits(a, d, j);
    }
  }

  // ----- constraints gathered on the way down

  predicate Satisfies(hash: string, c: Constraint) {
    HashMatchesPrefix(hash, c.prefix, c.depth) == Some(true) && HashBit(hash, c.depth) == Some(c.right)
  }

  predicate VerifyConstraints(hash: string, constraints: seq<Constraint>) {
    forall i :: 0 <= i < |constraints| ==> Satisfies(hash, constraints[i])
  }

  predicate NotDeeper(constraints: seq<Constraint>, depth: nat) {
    constraints != [] && constraints[|constraints| - 1].depth >= depth
  }

  /** Depths grow along the path, so there are never more constraints than bits. */
  ghost predicate PathOk(constraints: seq<Constraint>) {
    && (forall i :: 0 <= i < |constraints| ==> constraints[i].depth < DIGEST_BITS)
    && (forall i, j :: 0 <= i < j < |constraints| ==> constraints[i].depth < constraints[j].depth)
  }

  lemma {:induction false} PathIsShort(constraints: seq<Constraint>)
    requires PathOk(constraints) && constraints != []
    ensures |constraints| <= constraints[|constraints| - 1].depth + 1 <= DIGEST_BITS
  {
    if |constraints| > 1 {
      PathIsShort(constraints[..|constraints| - 1]);
    }
  }

  /** Everything under the constraints, the new hash included, satisfies them. */
  ghost predicate AllConstrained(entries: set<Entry>, constraints: seq<Constraint>) {
    forall e :: e in entries ==> VerifyConstraints(e.hash, constraints)
  }

  /** A constraint that hashes on both sides of a branch satisfy lies above it. */
  lemma ConstraintIsAbove(a: string, b: string, prefix: string, depth: nat, c: Constraint)
    requires IsDigest(a) && IsDigest(b) && IsDigest(prefix) && depth < DIGEST_BITS && c.depth < DIGEST_BITS
    requires Agree(a, prefix, depth) && !Bit(a, depth) && Bit(b, depth)
    requires Satisfies(a, c) && Satisfies(b, c)
    ensures c.depth < depth && Satisfies(prefix, c)
  {
    MatchesExactly(a, b, c.depth);
    if c.depth < depth {
      assert Bit(a, c.depth) == Bit(prefix, c.depth);
      assert Agree(a, prefix, c.depth);
      MatchesExactly(a, prefix, c.depth);
    }
  }

  /** On a canonical branch the checks made on the way down all succeed. */
  lemma BranchPasses(kh: string -> string, node: Node, constraints: seq<Constraint>)
    requires Canonical(kh, node) && node.Branch? && PathOk(constraints)
    requires AllConstrained(Leaves(node), constraints)
    ensures VerifyConstraints(node.prefix, constraints) && !NotDeeper(constraints, node.depth)
    ensures forall i :: 0 <= i < |constraints| ==> constraints[i].depth < node.depth
  {
    hide Agree;
    hide Bit;
    hide Satisfies;
    LeavesAreHashed(kh, node.left.node);
    LeavesAreHashed(kh, node.right.node);
    var a :| a in Leaves(node.left.node);
    var b :| b in Leaves(node.right.node);
    assert VerifyConstraints(a.hash, constraints) && VerifyConstraints(b.hash, constraints);
    forall i | 0 <= i < |constraints|
      ensures constraints[i].depth < node.depth && Satisfies(node.prefix, constraints[i])
    {
      ConstraintIsAbove(a.hash, b.hash, node.prefix, node.depth, constraints[i]);
    }
  }

  // ----- insertion

  datatype InsertResult = Inserted(ref: Ref, isNew: bool) | InsertRefused(error: Error)

  function NewBranch(depth: nat, hash: string, inserted: Ref, existing: Ref): Ref
    requires IsDigest(hash) && depth < DIGEST_BITS
  {
    if Bit(hash, depth) then RefTo(Branch(depth, Prefix(hash, depth), existing, inserted))
    else RefTo(Branch(depth, Prefix(hash, depth), inserted, existing))
  }

  function InsertNode(ref: Ref, key: string, hash: string, value: string, constraints: seq<Constraint>, remaining: nat): InsertResult
    requires IsDigest(hash)
    decreases ref
  {
    if remaining == 0 || NodeEntries(ref.node) != ref.entries then InsertRefused(Integrity)
    else
      match ref.node
      case Leaf(storedKey, storedHash, _) =>
        if !VerifyConstraints(storedHash, constraints) then InsertRefused(Integrity)
        else if storedKey == key then
          if storedHash != hash then InsertRefused(Integrity)
          else Inserted(RefTo(Leaf(key, hash, value)), false)
        else if storedHash == hash then InsertRefused(Collision)
        else if !IsDigest(storedHash) then InsertRefused(Integrity)
        else
          var depth := Common(storedHash, hash);
          if depth >= DIGEST_BITS then InsertRefused(Integrity)
          else Inserted(NewBranch(depth, hash, RefTo(Leaf(key, hash, value)), ref), true)
      case Branch(depth, prefix, left, right) =>
        if !IsDigest(prefix) || depth >= DIGEST_BITS then InsertRefused(Integrity)
        else if !VerifyConstraints(prefix, constraints) || NotDeeper(constraints, depth) then InsertRefused(Integrity)
        else
          var common := Common(prefix, hash);
          if common < depth then
            Inserted(NewBranch(common, hash, RefTo(Leaf(key, hash, value)), ref), true)
          else
            var goesRight := Bit(hash, depth);
            var next := constraints + [Constraint(depth, prefix, goesRight)];
            var child := InsertNode(Side(ref.node, goesRight), key, hash, value, next, remaining - 1);
            if child.InsertRefused? then child
            else Inserted(RefTo(WithChild(ref.node, goesRight, child.ref)), child.isNew)
  }

  /** The entries once `key` holds `value`. */
  function Put(entries: set<Entry>, key: string, hash: string, value: string): set<Entry> {
    (set e | e in entries && e.key != key) + {Entry(key, hash, value)}
  }

  ghost predicate Collides(entries: set<Entry>, key: string, hash: string) {
    exists e :: e in entries && e.hash == hash && e.key != key
  }

  ghost predicate HasKey(entries: set<Entry>, key: string) {
    exists e :: e in entries && e.key == key
  }

  /** The outcome of putting into a tree that holds `entries`. */
  ghost predicate Puts(kh: string -> string, entries: set<Entry>, key: string, value: string, r: InsertResult) {
    if Collides(entries, key, kh(key)) then r == InsertRefused(Collision)
    else
      && r.Inserted? && CanonicalRef(kh, r.ref)
      && Leaves(r.ref.node) == Put(entries, key, kh(key), value)
      && (r.isNew <==> !HasKey(entries, key))
  }

  /** A new leaf beside a subtree all of whose leaves part from it at `depth`. */
  lemma NewBranchCanonical(kh: string -> string, depth: nat, key: string, value: string, existing: Ref)
    requires CanonicalRef(kh, existing) && IsDigest(kh(key)) && depth < DIGEST_BITS
    requires Partition(Leaves(existing.node), kh(key), depth, !Bit(kh(key), depth))
    ensures var ref := NewBranch(depth, kh(key), RefTo(Leaf(key, kh(key), value)), existing);
      CanonicalRef(kh, ref) && Leaves(ref.node) == Leaves(existing.node) + {Entry(key, kh(key), value)}
  {
    hide Agree;
    hide Bit;
    hide Prefix;
    var hash := kh(key);
    var prefix := Prefix(hash, depth);
    PrefixAgrees(hash, depth);
    AgreeSymmetric(prefix, hash, depth);
    PrefixNests(hash, depth, depth);
    forall e | e in Leaves(existing.node) ensures Agree(e.hash, prefix, depth) {
      AgreeJoins(e.hash, hash, prefix, depth);
    }
    assert Partition({Entry(key, hash, value)}, prefix, depth, Bit(hash, depth));
    assert Partition(Leaves(existing.node), prefix, depth, !Bit(hash, depth));
    var leaf := RefTo(Leaf(key, hash, value));
    assert Leaves(leaf.node) == {Entry(key, hash, value)} && CanonicalRef(kh, leaf);
  }

  lemma AgreeSymmetric(a: string, b: string, d: nat)
    requires IsDigest(a) && IsDigest(b) && d <= DIGEST_BITS && Agree(a, b, d)
    ensures Agree(b, a, d)
  {
  }

  /** The constraint a branch adds holds below it. */
  lemma ConstraintHolds(kh: string -> string, node: Node, right: bool, constraints: seq<Constraint>)
    requires Canonical(kh, node) && node.Branch? && PathOk(constraints)
    requires AllConstrained(Leaves(node), constraints)
    ensures var next := constraints + [Constraint(node.depth, node.prefix, right)];
      && PathOk(next)
      && AllConstrained(Leaves(if right then node.right.node else node.left.node), next)
  {
    hide Agree;
    hide Bit;
    hide Satisfies;
    var c := Constraint(node.depth, node.prefix, right);
    var side := Leaves(if right then node.right.node else node.left.node);
    BranchPasses(kh, node, constraints);
    forall e | e in side ensures VerifyConstraints(e.hash, constraints + [c]) {
      assert e in Leaves(node) && VerifyConstraints(e.hash, constraints);
      BranchSatisfies(e.hash, node.prefix, c);
    }
  }

  lemma BranchSatisfies(hash: string, prefix: string, c: Constraint)
    requires IsDigest(hash) && IsDigest(prefix) && c.depth < DIGEST_BITS && c.prefix == prefix == Prefix(prefix, c.depth)
    requires Agree(hash, prefix, c.depth) && Bit(hash, c.depth) == c.right
    ensures Satisfies(hash, c)
  {
    MatchesExactly(hash, prefix, c.depth);
  }

  /** Where every stored hash parts from the key's, the key is new. */
  lemma PartedInsert(kh: string -> string, ref: Ref, key: string, value: string, depth: nat)
    requires CanonicalRef(kh, ref) && IsDigest(kh(key)) && depth < DIGEST_BITS
    requires Partition(Leaves(ref.node), kh(key), depth, !Bit(kh(key), depth))
    ensures Puts(kh, Leaves(ref.node), key, value, Inserted(NewBranch(depth, kh(key), RefTo(Leaf(key, kh(key), value)), ref), true))
  {
    LeavesAreHashed(kh, ref.node);
    NewBranchCanonical(kh, depth, key, value, ref);
    forall e | e in Leaves(ref.node) ensures e.key != key && e.hash != kh(key) {
      assert Bit(e.hash, depth) != Bit(kh(key), depth);
    }
  }

  lemma LeafParts(kh: string -> string, node: Node, key: string)
    requires Canonical(kh, node) && node.Leaf? && IsDigest(kh(key)) && node.hash != kh(key)
    ensures var depth := Common(node.hash, kh(key));
      depth < DIGEST_BITS && Partition(Leaves(node), kh(key), depth, !Bit(kh(key), depth))
  {
    if Common(node.hash, kh(key)) == DIGEST_BITS {
      DigestByBits(node.hash, kh(key));
    }
  }

  lemma BranchParts(kh: string -> string, node: Node, key: string)
    requires Canonical(kh, node) && node.Branch? && IsDigest(kh(key)) && Common(node.prefix, kh(key)) < node.depth
    ensures var depth := Common(node.prefix, kh(key)); Partition(Leaves(node), kh(key), depth, !Bit(kh(key), depth))
  {
    var depth := Common(node.prefix, kh(key));
    forall e | e in Leaves(node)
      ensures IsDigest(e.hash) && Agree(e.hash, kh(key), depth) && Bit(e.hash, depth) == !Bit(kh(key), depth)
    {
      assert Agree(e.hash, node.prefix, node.depth);
    }
  }

  /** A hash that shares a branch's prefix satisfies the constraint of its own side. */
  lemma GoesDown(kh: string -> string, node: Node, hash: string, constraints: seq<Constraint>)
    requires Canonical(kh, node) && node.Branch? && IsDigest(hash) && Common(node.prefix, hash) >= node.depth
    requires VerifyConstraints(hash, constraints)
    ensures VerifyConstraints(hash, constraints + [Constraint(node.depth, node.prefix, Bit(hash, node.depth))])
    ensures Agree(hash, node.prefix, node.depth)
  {
    hide Satisfies;
    assert Agree(node.prefix, hash, node.depth);
    AgreeSymmetric(node.prefix, hash, node.depth);
    BranchSatisfies(hash, node.prefix, Constraint(node.depth, node.prefix, Bit(hash, node.depth)));
  }

  function WithChild(node: Node, right: bool, child: Ref): Node
    requires node.Branch?
  {
    if right then Branch(node.depth, node.prefix, node.left, child)
    else Branch(node.depth, node.prefix, child, node.right)
  }

  /** Putting below one side of a branch is putting in the branch. */
  lemma PutBelow(kh: string -> string, node: Node, key: string, value: string, child: InsertResult)
    requires Canonical(kh, node) && node.Branch? && IsDigest(kh(key)) && Agree(kh(key), node.prefix, node.depth)
    requires Puts(kh, Leaves(Side(node, Bit(kh(key), node.depth)).node), key, value, child)
    ensures Puts(kh, Leaves(node), key, value,
      if child.InsertRefused? then child
      else Inserted(RefTo(WithChild(node, Bit(kh(key), node.depth), child.ref)), child.isNew))
  {
    hide Agree;
    hide Bit;
    hide Prefix;
    OtherSideParts(kh, node, key);
    var bit := Bit(kh(key), node.depth);
    var side := if bit then node.right.node else node.left.node;
    assert Partition(Leaves(side), node.prefix, node.depth, bit);
    if child.Inserted? {
      assert Partition(Leaves(child.ref.node), node.prefix, node.depth, bit);
      assert Canonical(kh, WithChild(node, bit, child.ref));
      assert Leaves(WithChild(node, bit, child.ref)) == Put(Leaves(node), key, kh(key), value);
    }
  }

  /** Nothing on the far side of a branch has the key or its hash. */
  lemma OtherSideParts(kh: string -> string, node: Node, key: string)
    requires Canonical(kh, node) && node.Branch? && IsDigest(kh(key))
    ensures var right := Bit(kh(key), node.depth);
      var near, far := if right then node.right.node else node.left.node, if right then node.left.node else node.right.node;
      && (forall e :: e in Leaves(far) ==> e.key != key && e.hash != kh(key))
      && Leaves(node) == Leaves(near) + Leaves(far)
      && (Collides(Leaves(node), key, kh(key)) <==> Collides(Leaves(near), key, kh(key)))
      && (HasKey(Leaves(node), key) <==> HasKey(Leaves(near), key))
  {
    LeavesAreHashed(kh, node);
    var far := if Bit(kh(key), node.depth) then node.left.node else node.right.node;
    forall e | e in Leaves(far) ensures e.key != key && e.hash != kh(key) {
      assert e in Leaves(node);
      assert Bit(e.hash, node.depth) != Bit(kh(key), node.depth);
    }
  }

  /** A canonical subtree reached along `constraints` on the way to `key`. */
  ghost predicate OnPath(kh: string -> string, ref: Ref, key: string, constraints: seq<Constraint>) {
    && CanonicalRef(kh, ref) && IsDigest(kh(key)) && PathOk(constraints)
    && AllConstrained(Leaves(ref.node), constraints) && VerifyConstraints(kh(key), constraints)
  }

  lemma PathLeavesRoom(constraints: seq<Constraint>)
    requires PathOk(constraints)
    ensures |constraints| < MAX_PATH_NODES
  {
    if constraints != [] { PathIsShort(constraints); }
  }

  lemma BranchFacts(kh: string -> string, ref: Ref, key: string, constraints: seq<Constraint>)
    requires OnPath(kh, ref, key, constraints) && ref.node.Branch?
    ensures ref.node.depth < DIGEST_BITS && IsDigest(ref.node.prefix) && ref.entries == NodeEntries(ref.node)
    ensures VerifyConstraints(ref.node.prefix, constraints) && !NotDeeper(constraints, ref.node.depth)
    ensures IsDigest(kh(key)) && |constraints| < MAX_PATH_NODES
  {
    PathLeavesRoom(constraints);
    BranchPasses(kh, ref.node, constraints);
  }

  function Side(node: Node, right: bool): Ref
    requires node.Branch?
  {
    if right then node.right else node.left
  }

  /** The side of a branch whose prefix the key shares lies on the key's path. */
  lemma PathGoesDown(kh: string -> string, ref: Ref, key: string, constraints: seq<Constraint>)
    requires OnPath(kh, ref, key, constraints) && ref.node.Branch? && IsDigest(kh(key))
    requires IsDigest(ref.node.prefix) && ref.node.depth < DIGEST_BITS
    requires Common(ref.node.prefix, kh(key)) >= ref.node.depth
    ensures var right := Bit(kh(key), ref.node.depth);
      OnPath(kh, Side(ref.node, right), key, constraints + [Constraint(ref.node.depth, ref.node.prefix, right)])
    ensures Agree(kh(key), ref.node.prefix, ref.node.depth)
  {
    ConstraintHolds(kh, ref.node, Bit(kh(key), ref.node.depth), constraints);
    GoesDown(kh, ref.node, kh(key), constraints);
  }

  /** Insertion into a canonical tree fails only on a hash collision between
      distinct keys; otherwise the tree stays canonical and holds the new entry in
      place of any former one. */
  lemma {:induction false} InsertExactly(kh: string -> string, ref: Ref, key: string, value: string, constraints: seq<Constraint>)
    requires OnPath(kh, ref, key, constraints)
    ensures |constraints| < MAX_PATH_NODES && IsDigest(kh(key))
    ensures Puts(kh, Leaves(ref.node), key, value, InsertNode(ref, key, kh(key), value, constraints, MAX_PATH_NODES - |constraints|))
    decreases ref, 1
  {
    if ref.node.Leaf? {
      InsertAtLeaf(kh, ref, key, value, constraints);
    } else {
      hide OnPath;
      BranchFacts(kh, ref, key, constraints);
      InsertDescends(ref, key, kh(key), value, constraints, MAX_PATH_NODES - |constraints|);
      if Common(ref.node.prefix, kh(key)) < ref.node.depth {
        InsertParts(kh, ref, key, value, constraints);
      } else {
        InsertBelow(kh, ref, key, value, constraints);
      }
    }
  }

  lemma InsertParts(kh: string -> string, ref: Ref, key: string, value: string, constraints: seq<Constraint>)
    requires OnPath(kh, ref, key, constraints) && ref.node.Branch?
    requires IsDigest(kh(key)) && IsDigest(ref.node.prefix) && ref.node.depth < DIGEST_BITS
    requires Common(ref.node.prefix, kh(key)) < ref.node.depth
    ensures Puts(kh, Leaves(ref.node), key, value,
      Inserted(NewBranch(Common(ref.node.prefix, kh(key)), kh(key), RefTo(Leaf(key, kh(key), value)), ref), true))
  {
    BranchParts(kh, ref.node, key);
    PartedInsert(kh, ref, key, value, Common(ref.node.prefix, kh(key)));
  }

  lemma {:induction false} InsertBelow(kh: string -> string, ref: Ref, key: string, value: string, constraints: seq<Constraint>)
    requires OnPath(kh, ref, key, constraints) && ref.node.Branch? && |constraints| < MAX_PATH_NODES
    requires IsDigest(kh(key)) && IsDigest(ref.node.prefix) && ref.node.depth < DIGEST_BITS
    requires Common(ref.node.prefix, kh(key)) >= ref.node.depth
    ensures var node, right := ref.node, Bit(kh(key), ref.node.depth);
      var next := constraints + [Constraint(node.depth, node.prefix, right)];
      var child := InsertNode(Side(node, right), key, kh(key), value, next, MAX_PATH_NODES - |constraints| - 1);
      Puts(kh, Leaves(node), key, value,
        if child.InsertRefused? then child else Inserted(RefTo(WithChild(node, right, child.ref)), child.isNew))
    decreases ref, 0
  {
    hide InsertNode;
    hide Puts;
    hide Bit;
    hide Common;
    hide Agree;
    var node, right := ref.node, Bit(kh(key), ref.node.depth);
    var next := constraints + [Constraint(node.depth, node.prefix, right)];
    PathGoesDown(kh, ref, key, constraints);
    InsertExactly(kh, Side(node, right), key, value, next);
    PutBelow(kh, node, key, value, InsertNode(Side(node, right), key, kh(key), value, next, MAX_PATH_NODES - |next|));
  }

  /** The recursive step, once the checks on the way down have passed. */
  lemma InsertDescends(ref: Ref, key: string, hash: string, value: string, constraints: seq<Constraint>, remaining: nat)
    requires IsDigest(hash) && remaining > 0 && ref.entries == NodeEntries(ref.node) && ref.node.Branch?
    requires ref.node.depth < DIGEST_BITS && IsDigest(ref.node.prefix)
    requires VerifyConstraints(ref.node.prefix, constraints) && !NotDeeper(constraints, ref.node.depth)
    ensures var r, node, common := InsertNode(ref, key, hash, value, constraints, remaining), ref.node, Common(ref.node.prefix, hash);
      if common < node.depth then r == Inserted(NewBranch(common, hash, RefTo(Leaf(key, hash, value)), ref), true)
      else
        var right := Bit(hash, node.depth);
        var next := constraints + [Constraint(node.depth, node.prefix, right)];
        var child := InsertNode(Side(node, right), key, hash, value, next, remaining - 1);
        r == if child.InsertRefused? then child
             else Inserted(RefTo(WithChild(node, right, child.ref)), child.isNew)
  {
  }

  lemma InsertAtLeaf(kh: string -> string, ref: Ref, key: string, value: string, constraints: seq<Constraint>)
    requires OnPath(kh, ref, key, constraints) && ref.node.Leaf?
    ensures |constraints| < MAX_PATH_NODES
    ensures Puts(kh, Leaves(ref.node), key, value, InsertNode(ref, key, kh(key), value, constraints, MAX_PATH_NODES - |constraints|))
  {
    PathLeavesRoom(constraints);
    var node := ref.node;
    var stored := Entry(node.key, node.hash, node.value);
    assert stored in Leaves(node) && VerifyConstraints(stored.hash, constraints);
    if node.key != key && node.hash != kh(key) {
      LeafParts(kh, node, key);
      PartedInsert(kh, ref, key, value, Common(node.hash, kh(key)));
    }
  }

  // ----- removal

  datatype RemoveResult = Removed(ref: Option<Ref>) | RemoveRefused(error: Error)

  function RemoveNode(ref: Ref, key: string, hash: string, constraints: seq<Constraint>, remaining: nat): RemoveResult
    requires IsDigest(hash)
    decreases ref
  {
    if remaining == 0 || NodeEntries(ref.node) != ref.entries then RemoveRefused(Integrity)
    else
      match ref.node
      case Leaf(storedKey, storedHash, _) =>
        if !VerifyConstraints(storedHash, constraints) then RemoveRefused(Integrity)
        else if storedKey == key && storedHash == hash then Removed(None)
        else RemoveRefused(Conflict)
      case Branch(depth, prefix, left, right) =>
        if !IsDigest(prefix) || depth >= DIGEST_BITS then RemoveRefused(Integrity)
        else if !VerifyConstraints(prefix, constraints) || NotDeeper(constraints, depth) then RemoveRefused(Integrity)
        else if HashMatchesPrefix(hash, prefix, depth) != Some(true) then RemoveRefused(Conflict)
        else
          var goesRight := Bit(hash, depth);
          var next := constraints + [Constraint(depth, prefix, goesRight)];
          Rejoin(ref.node, goesRight, RemoveNode(Side(ref.node, goesRight), key, hash, next, remaining - 1))
  }

  /** A branch that lost a whole side gives way to the other side. */
  function Rejoin(node: Node, right: bool, child: RemoveResult): RemoveResult
    requires node.Branch?
  {
    if child.RemoveRefused? then child
    else if child.ref.None? then Removed(Some(Side(node, !right)))
    else Removed(Some(RefTo(WithChild(node, right, child.ref.value))))
  }

  function Drop(entries: set<Entry>, key: string): set<Entry> {
    set e | e in entries && e.key != key
  }

  function OptionLeaves(ref: Option<Ref>): set<Entry> {
    if ref.None? then {} else Leaves(ref.value.node)
  }

  /** The outcome of removing from a tree that holds `entries`. */
  ghost predicate Drops(kh: string -> string, entries: set<Entry>, key: string, r: RemoveResult) {
    if !HasKey(entries, key) then r == RemoveRefused(Conflict)
    else r.Removed? && (r.ref.Some? ==> CanonicalRef(kh, r.ref.value)) && OptionLeaves(r.ref) == Drop(entries, key)
  }

  lemma RemoveAtLeaf(kh: string -> string, ref: Ref, key: string, constraints: seq<Constraint>)
    requires OnPath(kh, ref, key, constraints) && ref.node.Leaf?
    ensures |constraints| < MAX_PATH_NODES
    ensures Drops(kh, Leaves(ref.node), key, RemoveNode(ref, key, kh(key), constraints, MAX_PATH_NODES - |constraints|))
  {
    PathLeavesRoom(constraints);
    assert Canonical(kh, ref.node);
    var stored := Entry(ref.node.key, ref.node.hash, ref.node.value);
    assert stored in Leaves(ref.node) && VerifyConstraints(stored.hash, constraints);
    if ref.node.key == key {
      assert Drop(Leaves(ref.node), key) == {};
    }
  }

  /** A key whose hash leaves a branch's prefix is not below it. */
  lemma MissesBranch(kh: string -> string, ref: Ref, key: string, constraints: seq<Constraint>)
    requires OnPath(kh, ref, key, constraints) && ref.node.Branch? && IsDigest(kh(key))
    requires HashMatchesPrefix(kh(key), ref.node.prefix, ref.node.depth) != Some(true)
    ensures !HasKey(Leaves(ref.node), key)
  {
    var node := ref.node;
    LeavesAreHashed(kh, node);
    forall e | e in Leaves(node) ensures e.key != key {
      MatchesExactly(e.hash, node.prefix, node.depth);
      assert Agree(e.hash, node.prefix, node.depth);
    }
  }

  lemma DropBelow(kh: string -> string, node: Node, key: string, child: RemoveResult)
    requires Canonical(kh, node) && node.Branch? && IsDigest(kh(key))
    requires Drops(kh, Leaves(Side(node, Bit(kh(key), node.depth)).node), key, child)
    ensures Drops(kh, Leaves(node), key, Rejoin(node, Bit(kh(key), node.depth), child))
  {
    hide Agree;
    hide Bit;
    hide Prefix;
    OtherSideParts(kh, node, key);
    var bit := Bit(kh(key), node.depth);
    var near, far := Side(node, bit).node, Side(node, !bit).node;
    assert Partition(Leaves(near), node.prefix, node.depth, bit);
    assert Drop(Leaves(far), key) == Leaves(far);
    if child.Removed? {
      assert Drop(Leaves(node), key) == Drop(Leaves(near), key) + Leaves(far);
      if child.ref.Some? {
        assert Partition(Leaves(child.ref.value.node), node.prefix, node.depth, bit);
        assert Canonical(kh, WithChild(node, bit, child.ref.value));
      }
    }
  }

  lemma PrefixMatchIsCommon(hash: string, prefix: string, depth: nat)
    requires IsDigest(hash) && IsDigest(prefix) && depth < DIGEST_BITS && prefix == Prefix(prefix, depth)
    ensures HashMatchesPrefix(hash, prefix, depth) == Some(Common(prefix, hash) >= depth)
  {
    MatchesExactly(hash, prefix, depth);
    Ultrametric(hash, prefix, hash);
  }

  /** The recursive step of removal, once the checks on the way down have passed. */
  lemma RemoveDescends(ref: Ref, key: string, hash: string, constraints: seq<Constraint>, remaining: nat)
    requires IsDigest(hash) && remaining > 0 && ref.entries == NodeEntries(ref.node) && ref.node.Branch?
    requires ref.node.depth < DIGEST_BITS && IsDigest(ref.node.prefix)
    requires VerifyConstraints(ref.node.prefix, constraints) && !NotDeeper(constraints, ref.node.depth)
    ensures var node, right := ref.node, Bit(hash, ref.node.depth);
      RemoveNode(ref, key, hash, constraints, remaining) ==
        if HashMatchesPrefix(hash, node.prefix, node.depth) != Some(true) then RemoveRefused(Conflict)
        else Rejoin(node, right,
          RemoveNode(Side(node, right), key, hash, constraints + [Constraint(node.depth, node.prefix, right)], remaining - 1))
  {
  }

  /** Removal from a canonical tree fails only when the key is absent; otherwise the
      tree stays canonical and loses exactly that entry. */
  lemma {:induction false} RemoveExactly(kh: string -> string, ref: Ref, key: string, constraints: seq<Constraint>)
    requires OnPath(kh, ref, key, constraints)
    ensures |constraints| < MAX_PATH_NODES && IsDigest(kh(key))
    ensures Drops(kh, Leaves(ref.node), key, RemoveNode(ref, key, kh(key), constraints, MAX_PATH_NODES - |constraints|))
    decreases ref, 1
  {
    if ref.node.Leaf? {
      RemoveAtLeaf(kh, ref, key, constraints);
    } else {
      BranchIsNormal(kh, ref, key, constraints);
      hide OnPath;
      hide HashMatchesPrefix;
      BranchFacts(kh, ref, key, constraints);
      RemoveDescends(ref, key, kh(key), constraints, MAX_PATH_NODES - |constraints|);
      PrefixMatchIsCommon(kh(key), ref.node.prefix, ref.node.depth);
      if HashMatchesPrefix(kh(key), ref.node.prefix, ref.node.depth) != Some(true) {
        MissesBranch(kh, ref, key, constraints);
      } else {
        RemoveBelow(kh, ref, key, constraints);
      }
    }
  }

  lemma BranchIsNormal(kh: string -> string, ref: Ref, key: string, constraints: seq<Constraint>)
    requires OnPath(kh, ref, key, constraints) && ref.node.Branch?
    ensures ref.node.depth < DIGEST_BITS && IsDigest(ref.node.prefix) && ref.node.prefix == Prefix(ref.node.prefix, ref.node.depth)
  {
    assert Canonical(kh, ref.node);
  }

  lemma {:induction false} RemoveBelow(kh: string -> string, ref: Ref, key: string, constraints: seq<Constraint>)
    requires OnPath(kh, ref, key, constraints) && ref.node.Branch? && |constraints| < MAX_PATH_NODES
    requires IsDigest(kh(key)) && IsDigest(ref.node.prefix) && ref.node.depth < DIGEST_BITS
    requires Common(ref.node.prefix, kh(key)) >= ref.node.depth
    ensures var node, right := ref.node, Bit(kh(key), ref.node.depth);
      var next := constraints + [Constraint(node.depth, node.prefix, right)];
      Drops(kh, Leaves(node), key,
        Rejoin(node, right, RemoveNode(Side(node, right), key, kh(key), next, MAX_PATH_NODES - |constraints| - 1)))
    decreases ref, 0
  {
    hide RemoveNode;
    hide Drops;
    hide Bit;
    hide Common;
    hide Agree;
    var node, right := ref.node, Bit(kh(key), ref.node.depth);
    var next := constraints + [Constraint(node.depth, node.prefix, right)];
    PathGoesDown(kh, ref, key, constraints);
    RemoveExactly(kh, Side(node, right), key, next);
    DropBelow(kh, node, key, RemoveNode(Side(node, right), key, kh(key), next, MAX_PATH_NODES - |next|));
  }

  // ----- one tree for every set of entries

  /** Two canonical branches over the same leaves split them at the same bit. */
  lemma SameSplit(kh: string -> string, a: Node, b: Node)
    requires Canonical(kh, a) && Canonical(kh, b) && a.Branch? && b.Branch? && Leaves(a) == Leaves(b)
    ensures a.depth == b.depth && a.prefix == b.prefix
    ensures Leaves(a.left.node) == Leaves(b.left.node) && Leaves(a.right.node) == Leaves(b.right.node)
  {
    SplitNotDeeper(kh, a, b);
    SplitNotDeeper(kh, b, a);
    LeavesAreHashed(kh, a.left.node);
    var e :| e in Leaves(a.left.node);
    assert e in Leaves(b);
    assert Agree(e.hash, a.prefix, a.depth) && Agree(e.hash, b.prefix, a.depth);
    MatchesExactly(e.hash, a.prefix, a.depth);
    MatchesExactly(e.hash, b.prefix, a.depth);
    SidesByBit(kh, a);
    SidesByBit(kh, b);
    forall x ensures x in Leaves(a.left.node) <==> x in Leaves(b.left.node) {
      assert x in Leaves(a) <==> x in Leaves(b);
    }
    forall x ensures x in Leaves(a.right.node) <==> x in Leaves(b.right.node) {
      assert x in Leaves(a) <==> x in Leaves(b);
    }
  }

  lemma SplitNotDeeper(kh: string -> string, a: Node, b: Node)
    requires Canonical(kh, a) && Canonical(kh, b) && a.Branch? && b.Branch? && Leaves(a) == Leaves(b)
    ensures a.depth <= b.depth
  {
    LeavesAreHashed(kh, b.left.node);
    LeavesAreHashed(kh, b.right.node);
    var x :| x in Leaves(b.left.node);
    var y :| y in Leaves(b.right.node);
    assert x in Leaves(a) && y in Leaves(a);
    assert Agree(x.hash, a.prefix, a.depth) && Agree(y.hash, a.prefix, a.depth);
    assert Bit(x.hash, b.depth) != Bit(y.hash, b.depth);
  }

  lemma SidesByBit(kh: string -> string, node: Node)
    requires Canonical(kh, node) && node.Branch?
    ensures forall e :: e in Leaves(node) ==> IsDigest(e.hash)
    ensures forall e :: e in Leaves(node.left.node) <==> e in Leaves(node) && !Bit(e.hash, node.depth)
    ensures forall e :: e in Leaves(node.right.node) <==> e in Leaves(node) && Bit(e.hash, node.depth)
  {
  }

  /** A branch holds entries with different hashes, so never just one. */
  lemma BranchHoldsTwo(kh: string -> string, node: Node) returns (x: Entry, y: Entry)
    requires Canonical(kh, node) && node.Branch?
    ensures x in Leaves(node) && y in Leaves(node) && x != y
  {
    LeavesAreHashed(kh, node.left.node);
    LeavesAreHashed(kh, node.right.node);
    x :| x in Leaves(node.left.node);
    y :| y in Leaves(node.right.node);
    assert Bit(x.hash, node.depth) != Bit(y.hash, node.depth);
  }

  /** Canonical trees with the same entries are the same tree. */
  lemma {:induction false} CanonicalIsUnique(kh: string -> string, a: Node, b: Node)
    requires Canonical(kh, a) && Canonical(kh, b) && Leaves(a) == Leaves(b)
    ensures a == b
    decreases a
  {
    if a.Branch? && b.Branch? {
      SameSplit(kh, a, b);
      CanonicalIsUnique(kh, a.left.node, b.left.node);
      CanonicalIsUnique(kh, a.right.node, b.right.node);
    } else if a.Branch? {
      var x, y := BranchHoldsTwo(kh, a);
    } else if b.Branch? {
      var x, y := BranchHoldsTwo(kh, b);
    } else {
      assert Entry(a.key, a.hash, a.value) in Leaves(b);
    }
  }
}
