/** Proofs that an authenticated map does or does not hold a key
    (crates/cymule-authenticated-collections/src/map.rs, `verify_map_exact`). */
module AuthMapProof {
  import opened Wrappers
  import opened HashPrefix
  import opened Utf8
  import opened AuthMap
  import opened AuthMapHistory

  /** The content identity of a node. */
  datatype NodeId = NodeId(text: string)

  datatype Edge = Edge(id: NodeId, entries: nat)
  datatype Body = LeafBody(key: string, hash: string, value: string) | BranchBody(depth: nat, prefix: string, left: Edge, right: Edge)

  const MAP_NODE_VERSION := "cymule.authenticated-map-node/1"
  const MAX_PROOF_BYTES: nat := 32 * 1024 * 1024

  /** A node as it is carried: its version, the identity it claims and its body. */
  datatype Carried = Carried(version: string, id: NodeId, body: Body)

  datatype RootId = RootId(node: Option<NodeId>, entries: nat)

  datatype ExactProof = ExactProof(root: RootId, key: string, hash: string, nodes: seq<Carried>)

  /** How bodies are identified and keys are hashed. */
  datatype Hashes = Hashes(identify: Body -> NodeId, key: string -> string)

  /** Identities and key hashes have the form a hash gives them. */
  ghost predicate WellFormed(h: Hashes) {
    (forall b :: ValidContentId(h.identify(b).text)) && AllDigests(h.key)
  }

  /** No node of `nodes` has the identity of another node on the path. */
  ghost predicate Apart(h: Hashes, nodes: map<NodeId, Carried>, path: seq<Carried>) {
    forall id, n :: id in nodes && n in path && h.identify(nodes[id].body) == h.identify(n.body) ==> nodes[id].body == n.body
  }

  ghost predicate CarriedApart(h: Hashes, nodes: seq<Carried>, path: seq<Carried>) {
    forall x, n :: x in nodes && n in path && h.identify(x.body) == h.identify(n.body) ==> x.body == n.body
  }

  // ----- what identities stand for

  function BodyOf(h: Hashes, node: Node): Body
    decreases node, 0
  {
    match node
    case Leaf(key, hash, value) => LeafBody(key, hash, value)
    case Branch(depth, prefix, left, right) =>
      BranchBody(depth, prefix, Edge(IdOf(h, left.node), left.entries), Edge(IdOf(h, right.node), right.entries))
  }

  function IdOf(h: Hashes, node: Node): NodeId
    decreases node, 1
  {
    h.identify(BodyOf(h, node))
  }

  function CarriedOf(h: Hashes, node: Node): Carried { Carried(MAP_NODE_VERSION, IdOf(h, node), BodyOf(h, node)) }

  function RootIdOf(h: Hashes, root: Root): RootId {
    RootId(if root.node.None? then None else Some(IdOf(h, root.node.value)), root.entries)
  }

  // ----- the local check of a node

  function BodyEntries(body: Body): nat {
    if body.LeafBody? then 1 else body.left.entries + body.right.entries
  }

  ghost predicate EdgeOk(e: Edge) { ValidContentId(e.id.text) && 0 < e.entries <= MAX_EXACT_INTEGER }

  ghost predicate BodyOk(h: Hashes, body: Body) {
    match body
    case LeafBody(key, hash, value) => ValidKey(key) && hash == h.key(key) && ValidContentId(value)
    case BranchBody(depth, prefix, left, right) =>
      && depth < DIGEST_BITS && IsDigest(prefix) && Prefix(prefix, depth) == prefix
      && EdgeOk(left) && EdgeOk(right) && left.entries + right.entries <= MAX_EXACT_INTEGER
  }

  ghost predicate NodeOk(h: Hashes, node: Carried) {
    node.version == MAP_NODE_VERSION && BodyOk(h, node.body) && node.id == h.identify(node.body)
  }

  ghost predicate RootOk(root: RootId) {
    && (root.entries == 0 <==> root.node.None?) && root.entries <= MAX_EXACT_INTEGER
    && (root.node.Some? ==> ValidContentId(root.node.value.text))
  }

  method VerifyChild(e: Edge) returns (ok: bool)
    ensures ok <==> EdgeOk(e)
  {
    ok := ValidateContentId(e.id.text);
    if e.entries == 0 || e.entries > MAX_EXACT_INTEGER { return false; }
  }

  /** The local shape of a node and its own identity. */
  method VerifyNode(h: Hashes, node: Carried) returns (ok: bool)
    ensures ok <==> NodeOk(h, node)
  {
    if node.version != MAP_NODE_VERSION { return false; }
    match node.body {
      case LeafBody(key, hash, value) =>
        var keyOk := ValidateKey(key);
        if !keyOk || hash != h.key(key) { return false; }
        var valueOk := ValidateContentId(value);
        if !valueOk { return false; }
      case BranchBody(depth, prefix, left, right) =>
        if depth >= 256 { return false; }
        var normal := NormalizedHashPrefix(prefix, depth);
        if normal != Some(prefix) { return false; }
        var leftOk := VerifyChild(left);
        var rightOk := VerifyChild(right);
        if !leftOk || !rightOk || left.entries + right.entries > MAX_EXACT_INTEGER { return false; }
    }
    ok := node.id == h.identify(node.body);
  }

  /** The closed shape of a root: a node exactly if there are entries, and not too many. */
  method VerifyRoot(root: RootId) returns (ok: bool)
    ensures ok <==> RootOk(root)
  {
    if (root.entries == 0) != root.node.None? || root.entries > MAX_EXACT_INTEGER { return false; }
    ok := true;
    if root.node.Some? { ok := ValidateContentId(root.node.value.text); }
  }

  lemma RootPasses(h: Hashes, root: Root, m: map<string, string>)
    requires WellFormed(h) && Represents(h.key, root, m)
    ensures RootOk(RootIdOf(h, root))
  {
    hide ValidContentId;
    if root.node.Some? {
      LeavesAreHashed(h.key, root.node.value);
      EntriesAreCounted(h.key, root.node.value);
    }
  }

  /** Every node of the tree of a valid map passes the local check. */
  lemma TreeNodeOk(h: Hashes, node: Node, m: map<string, string>)
    requires WellFormed(h) && Canonical(h.key, node) && Leaves(node) <= Entries(h.key, m) && ValidMap(m)
    requires NodeEntries(node) <= MAX_EXACT_INTEGER
    ensures NodeOk(h, CarriedOf(h, node)) && BodyEntries(BodyOf(h, node)) == NodeEntries(node)
  {
    hide ValidKey;
    hide ValidContentId;
    hide IsDigest;
    hide Prefix;
    if node.Leaf? {
      assert Entry(node.key, node.hash, node.value) in Leaves(node);
    } else {
      SideIsNotEmpty(h.key, node, false);
      SideIsNotEmpty(h.key, node, true);
    }
  }

  // ----- the path of a key

  /** The nodes a search for `hash` meets from `node` on. */
  function PathOf(h: Hashes, node: Node, hash: string): seq<Carried>
    requires IsDigest(hash)
    decreases node
  {
    [CarriedOf(h, node)] +
    if node.Branch? && IsDigest(node.prefix) && node.depth < DIGEST_BITS && Common(node.prefix, hash) >= node.depth
    then PathOf(h, Side(node, Bit(hash, node.depth)).node, hash)
    else []
  }

  function RootPath(h: Hashes, root: Root, hash: string): seq<Carried>
    requires IsDigest(hash)
  {
    if root.node.None? then [] else PathOf(h, root.node.value, hash)
  }

  /** A search meets no more nodes than a path may have. */
  lemma {:induction false} PathIsBounded(h: Hashes, ref: Ref, key: string, constraints: seq<Constraint>)
    requires OnPath(h.key, ref, key, constraints)
    ensures |PathOf(h, ref.node, h.key(key))| + |constraints| <= MAX_PATH_NODES
    decreases ref
  {
    PathLeavesRoom(constraints);
    hide VerifyConstraints;
    hide AllConstrained;
    var node := ref.node;
    if node.Branch? && IsDigest(node.prefix) && node.depth < DIGEST_BITS && Common(node.prefix, h.key(key)) >= node.depth {
      var right := Bit(h.key(key), node.depth);
      PathGoesDown(h.key, ref, key, constraints);
      PathIsBounded(h, Side(node, right), key, constraints + [Constraint(node.depth, node.prefix, right)]);
    }
  }

  /** The nodes carried are those of the path, each once, in any order. */
  ghost predicate ListsPath(nodes: seq<Carried>, path: seq<Carried>) {
    !RepeatsId(nodes) && forall n :: n in nodes <==> n in path
  }

  ghost predicate RepeatsId(nodes: seq<Carried>) {
    exists i, j :: 0 <= i < j < |nodes| && nodes[i].id == nodes[j].id
  }

  ghost function IdsOf(nodes: seq<Carried>): set<NodeId> {
    set n | n in nodes :: n.id
  }

  /** A resolver that has every node of the path. */
  ghost predicate Holds(nodes: map<NodeId, Carried>, path: seq<Carried>) {
    forall n :: n in path ==> n.id in nodes && nodes[n.id] == n
  }

  /** A path lists good nodes of the tree only. */
  lemma {:induction false} PathNodesOk(h: Hashes, node: Node, hash: string, m: map<string, string>)
    requires WellFormed(h) && Canonical(h.key, node) && Leaves(node) <= Entries(h.key, m) && ValidMap(m)
    requires NodeEntries(node) <= MAX_EXACT_INTEGER && IsDigest(hash)
    ensures forall n :: n in PathOf(h, node, hash) ==> NodeOk(h, n)
    decreases node
  {
    hide NodeOk;
    hide ValidMap;
    hide IsDigest;
    hide Common;
    hide Entries;
    hide Partition;
    TreeNodeOk(h, node, m);
    if node.Branch? && IsDigest(node.prefix) && node.depth < DIGEST_BITS && Common(node.prefix, hash) >= node.depth {
      PathNodesOk(h, Side(node, Bit(hash, node.depth)).node, hash, m);
    }
  }

  // ----- the nodes a lookup may load

  /** The nodes a lookup may load, by identity, and those it has asked for. When a proof
      is verified they are the proof's own; when one is made they are the object store's,
      and what has been asked for is what the proof lists. */
  class MapResolver {
    const nodes: map<NodeId, Carried>
    var used: set<NodeId>

    constructor (nodes: map<NodeId, Carried>)
      ensures this.nodes == nodes && used == {}
    {
      this.nodes, used := nodes, {};
    }

    method LoadMapNode(id: NodeId) returns (r: Option<Carried>)
      modifies this`used
      ensures r == if id in nodes then Some(nodes[id]) else None
      ensures used == old(used) + if id in nodes then {id} else {}
    {
      r := None;
      if id in nodes {
        used := used + {id};
        r := Some(nodes[id]);
      }
    }
  }

  /** Every node is good and under its own identity. */
  ghost predicate Filed(h: Hashes, nodes: map<NodeId, Carried>) {
    forall id :: id in nodes ==> NodeOk(h, nodes[id]) && nodes[id].id == id
  }

  // ----- lookup

  /** What the lookup has established on reaching the node `ref` of the tree. */
  ghost predicate Walked(h: Hashes, root: Root, ref: Ref, key: string, constraints: seq<Constraint>, rank: nat,
                         walked: seq<Carried>, nodes: map<NodeId, Carried>, used: set<NodeId>)
  {
    && Reached(h.key, root, ref, key, constraints, rank)
    && RootPath(h, root, h.key(key)) == walked + PathOf(h, ref.node, h.key(key))
    && Holds(nodes, walked) && used == IdsOf(walked)
  }

  lemma WalkStarts(h: Hashes, root: Root, key: string, m: map<string, string>, nodes: map<NodeId, Carried>)
    requires Represents(h.key, root, m) && root.node.Some? && IsDigest(h.key(key))
    ensures Walked(h, root, Ref(root.node.value, root.entries), key, [], 0, [], nodes, {})
  {
    hide Reached;
    LookupStarts(h.key, root, key, m);
    var path := PathOf(h, root.node.value, h.key(key));
    assert [] + path == path;
  }

  lemma WalkFacts(h: Hashes, root: Root, ref: Ref, key: string, constraints: seq<Constraint>, rank: nat,
                  walked: seq<Carried>, nodes: map<NodeId, Carried>, used: set<NodeId>)
    requires Walked(h, root, ref, key, constraints, rank, walked, nodes, used)
    ensures Reached(h.key, root, ref, key, constraints, rank)
    ensures BodyEntries(BodyOf(h, ref.node)) == NodeEntries(ref.node)
  {
    hide Reached;
  }

  /** A node loaded under the identity of a node of the tree is that node, and one that is
      not there is missing from the path. */
  lemma WalkMeets(h: Hashes, root: Root, ref: Ref, key: string, constraints: seq<Constraint>, rank: nat,
                  walked: seq<Carried>, nodes: map<NodeId, Carried>, used: set<NodeId>)
    requires Walked(h, root, ref, key, constraints, rank, walked, nodes, used) && Filed(h, nodes)
    requires IsDigest(h.key(key)) && Apart(h, nodes, RootPath(h, root, h.key(key)))
    ensures var id := IdOf(h, ref.node);
      if id in nodes then nodes[id] == CarriedOf(h, ref.node) && NodeOk(h, nodes[id])
      else !Holds(nodes, RootPath(h, root, h.key(key)))
  {
    hide Reached;
    var id := IdOf(h, ref.node);
    var path := PathOf(h, ref.node, h.key(key));
    assert path[0] == CarriedOf(h, ref.node) && path[0] in walked + path;
    if id in nodes {
      assert h.identify(nodes[id].body) == h.identify(path[0].body);
    }
  }

  lemma WalkGoesDown(h: Hashes, root: Root, ref: Ref, key: string, constraints: seq<Constraint>, rank: nat,
                     walked: seq<Carried>, nodes: map<NodeId, Carried>, used: set<NodeId>)
    requires Walked(h, root, ref, key, constraints, rank, walked, nodes, used) && ref.node.Branch? && IsDigest(h.key(key))
    requires IsDigest(ref.node.prefix) && ref.node.depth < DIGEST_BITS && Common(ref.node.prefix, h.key(key)) >= ref.node.depth
    requires var id := IdOf(h, ref.node); id in nodes && nodes[id] == CarriedOf(h, ref.node)
    ensures var node, right := ref.node, Bit(h.key(key), ref.node.depth);
      Walked(h, root, Side(node, right), key, constraints + [Constraint(node.depth, node.prefix, right)],
        rank + if right then node.left.entries else 0, walked + [CarriedOf(h, node)], nodes, used + {IdOf(h, node)})
      && Side(node, right).entries > 0
  {
    hide Reached;
    hide Common;
    hide Bit;
    hide IsDigest;
    StepsDown(h.key, root, ref, key, constraints, rank);
    hide PathOf;
    PathUnfolds(h, ref.node, h.key(key), walked);
    IdsNext(walked, CarriedOf(h, ref.node));
  }

  lemma NoIds()
    ensures IdsOf([]) == {}
  {
  }

  lemma IdsNext(walked: seq<Carried>, here: Carried)
    ensures IdsOf(walked + [here]) == IdsOf(walked) + {here.id}
  {
    assert here in walked + [here];
    forall n ensures n in walked + [here] <==> n in walked || n == here {
    }
  }

  lemma PathUnfolds(h: Hashes, node: Node, hash: string, walked: seq<Carried>)
    requires IsDigest(hash) && node.Branch?
    requires IsDigest(node.prefix) && node.depth < DIGEST_BITS && Common(node.prefix, hash) >= node.depth
    ensures walked + PathOf(h, node, hash) == walked + [CarriedOf(h, node)] + PathOf(h, Side(node, Bit(hash, node.depth)).node, hash)
  {
    hide Common;
    hide Bit;
    hide IsDigest;
    var below := PathOf(h, Side(node, Bit(hash, node.depth)).node, hash);
    assert PathOf(h, node, hash) == [CarriedOf(h, node)] + below;
  }

  lemma PathStops(h: Hashes, node: Node, hash: string)
    requires IsDigest(hash)
    requires node.Branch? && IsDigest(node.prefix) && node.depth < DIGEST_BITS ==> Common(node.prefix, hash) < node.depth
    ensures PathOf(h, node, hash) == [CarriedOf(h, node)]
  {
    hide Common;
    hide IsDigest;
  }

  /** At its last node the lookup has asked for the whole path and nothing else. */
  lemma WalkEnds(h: Hashes, root: Root, ref: Ref, key: string, constraints: seq<Constraint>, rank: nat,
                 walked: seq<Carried>, nodes: map<NodeId, Carried>, used: set<NodeId>)
    requires Walked(h, root, ref, key, constraints, rank, walked, nodes, used)
    requires PathOf(h, ref.node, h.key(key)) == [CarriedOf(h, ref.node)]
    requires var id := IdOf(h, ref.node); id in nodes && nodes[id] == CarriedOf(h, ref.node)
    ensures Holds(nodes, RootPath(h, root, h.key(key)))
    ensures used + {IdOf(h, ref.node)} == IdsOf(RootPath(h, root, h.key(key)))
  {
    hide Reached;
    IdsNext(walked, CarriedOf(h, ref.node));
  }

  /** The lookup over identified nodes: what it answers is true of the map, it then has asked
      for exactly the path of the key, and it refuses only a collision or a missing node. */
  method LookupLoaded(h: Hashes, expected: RootId, key: string, hash: string, resolver: MapResolver,
                      ghost root: Root, ghost m: map<string, string>) returns (r: LookupResult)
    requires hash == h.key(key) && IsDigest(hash) && Represents(h.key, root, m) && expected == RootIdOf(h, root)
    requires Filed(h, resolver.nodes) && resolver.used == {} && Apart(h, resolver.nodes, RootPath(h, root, hash))
    modifies resolver`used
    ensures r == LookupRefused(Missing) || LooksUp(h.key, Entries(h.key, m), key, r)
    ensures r == LookupRefused(Missing) <==> !Holds(resolver.nodes, RootPath(h, root, hash))
    ensures r != LookupRefused(Missing) ==> resolver.used == IdsOf(RootPath(h, root, hash))
  {
    hide Apart;
    hide Filed;
    hide Walked;
    hide Reached;
    hide VerifyConstraints;
    hide HashMatchesPrefix;
    hide LooksUp;
    hide IsDigest;
    hide Common;
    hide NodeOk;
    hide PathOf;
    hide IdsOf;
    if expected.node.None? {
      NothingIn(h.key, key);
      NoIds();
      return Absent;
    }
    hide Holds;
    var id, entries := expected.node.value, expected.entries;
    var constraints: seq<Constraint> := [];
    var rank: nat := 0;
    ghost var ref := Ref(root.node.value, root.entries);
    ghost var walked: seq<Carried> := [];
    WalkStarts(h, root, key, m, resolver.nodes);
    for i := 0 to MAX_PATH_NODES
      invariant Walked(h, root, ref, key, constraints, rank, walked, resolver.nodes, resolver.used)
      invariant id == IdOf(h, ref.node) && entries == ref.entries && |constraints| == i
    {
      WalkFacts(h, root, ref, key, constraints, rank, walked, resolver.nodes, resolver.used);
      ReachedFacts(h.key, root, ref, key, constraints, rank);
      WalkMeets(h, root, ref, key, constraints, rank, walked, resolver.nodes, resolver.used);
      ghost var used := resolver.used;
      var loaded := resolver.LoadMapNode(id);
      if loaded.None? { return LookupRefused(Missing); }
      var node := loaded.value;
      var nodeOk := VerifyNode(h, node);
      if !nodeOk || node.id != id || BodyEntries(node.body) != entries { return LookupRefused(Integrity); }
      match node.body
      case LeafBody(storedKey, storedHash, value) =>
        LookupEnds(h.key, root, ref, key, constraints, rank);
        PathStops(h, ref.node, hash);
        WalkEnds(h, root, ref, key, constraints, rank, walked, resolver.nodes, used);
        if !VerifyConstraints(storedHash, constraints) { return LookupRefused(Integrity); }
        if storedKey == key && storedHash == hash {
          return Found(value, rank);
        } else if storedHash == hash {
          return LookupRefused(Collision);
        } else {
          return Absent;
        }
      case BranchBody(depth, prefix, left, right) =>
        if !VerifyConstraints(prefix, constraints) || NotDeeper(constraints, depth) { return LookupRefused(Integrity); }
        if HashMatchesPrefix(hash, prefix, depth) != Some(true) {
          LookupMisses(h.key, root, ref, key, constraints, rank);
          PathStops(h, ref.node, hash);
          WalkEnds(h, root, ref, key, constraints, rank, walked, resolver.nodes, used);
          return Absent;
        }
        WalkGoesDown(h, root, ref, key, constraints, rank, walked, resolver.nodes, used);
        var goesRight := Bit(hash, depth);
        constraints := constraints + [Constraint(depth, prefix, goesRight)];
        walked := walked + [CarriedOf(h, ref.node)];
        ref := Side(ref.node, goesRight);
        WalkFacts(h, root, ref, key, constraints, rank + if goesRight then left.entries else 0, walked, resolver.nodes, resolver.used);
        ReachedFacts(h.key, root, ref, key, constraints, rank + if goesRight then left.entries else 0);
        if goesRight {
          if rank + left.entries >= MAX_EXACT_INTEGER { return LookupRefused(Integrity); }
          rank := rank + left.entries;
        }
        var next := if goesRight then right else left;
        id, entries := next.id, next.entries;
    }
    WalkFacts(h, root, ref, key, constraints, rank, walked, resolver.nodes, resolver.used);
    ReachedFacts(h.key, root, ref, key, constraints, rank);
    r := LookupRefused(Integrity);
  }

  // ----- the nodes of a proof

  /** `m` files the carried nodes, all of them good, under their identities. */
  ghost predicate Files(h: Hashes, nodes: seq<Carried>, m: map<NodeId, Carried>) {
    && !RepeatsId(nodes) && |m| == |nodes|
    && (forall n :: n in nodes ==> NodeOk(h, n) && n.id in m && m[n.id] == n)
    && (forall id :: id in m ==> m[id] in nodes && m[id].id == id)
  }

  lemma FilesNone(h: Hashes, nodes: seq<Carried>)
    ensures Files(h, nodes[..0], map[])
  {
  }

  lemma FilesNext(h: Hashes, nodes: seq<Carried>, k: nat, m: map<NodeId, Carried>)
    requires k < |nodes| && Files(h, nodes[..k], m) && NodeOk(h, nodes[k]) && nodes[k].id !in m
    ensures Files(h, nodes[..k + 1], m[nodes[k].id := nodes[k]])
  {
    hide NodeOk;
    var front, last := nodes[..k], nodes[k];
    var next := m[last.id := last];
    assert nodes[..k + 1] == front + [last];
    assert next.Keys == m.Keys + {last.id} && |next.Keys| == |next| && |m.Keys| == |m|;
    NoRepeatNext(front, last);
    hide RepeatsId;
  }

  lemma NoRepeatNext(front: seq<Carried>, last: Carried)
    requires !RepeatsId(front) && forall n :: n in front ==> n.id != last.id
    ensures !RepeatsId(front + [last])
  {
    forall i, j | 0 <= i < j < |front + [last]| ensures (front + [last])[i].id != (front + [last])[j].id {
      assert front[i] in front;
    }
  }

  lemma FiledBefore(h: Hashes, nodes: seq<Carried>, k: nat, m: map<NodeId, Carried>)
    requires k < |nodes| && Files(h, nodes[..k], m) && nodes[k].id in m
    ensures RepeatsId(nodes)
  {
    hide NodeOk;
    var other := m[nodes[k].id];
    var j :| 0 <= j < k && nodes[..k][j] == other;
    assert nodes[j].id == nodes[k].id;
  }

  // ----- the bytes of a proof

  function NodeBytes(n: Carried): nat {
    Utf8Length(n.version) + Utf8Length(n.id.text) +
    match n.body
    case LeafBody(key, hash, value) => Utf8Length(key) + Utf8Length(hash) + Utf8Length(value)
    case BranchBody(_, prefix, left, right) =>
      Utf8Length(prefix) + Utf8Length(left.id.text) + Utf8Length(right.id.text) + 32
  }

  /** Everything a node says as text. */
  ghost function NodeText(n: Carried): string {
    n.version + (n.id.text +
    match n.body
    case LeafBody(key, hash, value) => key + (hash + value)
    case BranchBody(_, prefix, left, right) => prefix + (left.id.text + right.id.text))
  }

  /** The bytes of a node are those of all its texts, and thirty-two more for the numbers of
      a branch. */
  lemma NodeBytesCount(n: Carried)
    ensures NodeBytes(n) == |TextBytes(NodeText(n))| + if n.body.BranchBody? then 32 else 0
  {
    hide Utf8Length;
    hide TextBytes;
    LengthCounts(NodeText(n));
    match n.body
    case LeafBody(key, hash, value) =>
      LengthAppends(n.version, n.id.text + (key + (hash + value)));
      LengthAppends(n.id.text, key + (hash + value));
      LengthAppends(key, hash + value);
      LengthAppends(hash, value);
    case BranchBody(_, prefix, left, right) =>
      LengthAppends(n.version, n.id.text + (prefix + (left.id.text + right.id.text)));
      LengthAppends(n.id.text, prefix + (left.id.text + right.id.text));
      LengthAppends(prefix, left.id.text + right.id.text);
      LengthAppends(left.id.text, right.id.text);
  }

  function TotalBytes(nodes: seq<Carried>): nat {
    if nodes == [] then 0 else TotalBytes(nodes[..|nodes| - 1]) + NodeBytes(nodes[|nodes| - 1])
  }

  lemma {:induction false} BytesGrow(nodes: seq<Carried>, k: nat)
    requires k <= |nodes|
    ensures TotalBytes(nodes[..k]) <= TotalBytes(nodes)
    decreases |nodes|
  {
    hide NodeBytes;
    if k < |nodes| {
      assert nodes[..|nodes| - 1][..k] == nodes[..k];
      BytesGrow(nodes[..|nodes| - 1], k);
    } else {
      assert nodes[..k] == nodes;
    }
  }

  method VerifyProofBytes(nodes: seq<Carried>) returns (ok: bool)
    ensures ok <==> TotalBytes(nodes) <= MAX_PROOF_BYTES
  {
    hide NodeBytes;
    var bytes: nat := 0;
    for k := 0 to |nodes|
      invariant bytes == TotalBytes(nodes[..k]) <= MAX_PROOF_BYTES
    {
      assert nodes[..k + 1][..k] == nodes[..k];
      bytes := bytes + NodeBytes(nodes[k]);
      if bytes > MAX_PROOF_BYTES {
        BytesGrow(nodes, k + 1);
        return false;
      }
    }
    assert nodes[..|nodes|] == nodes;
    ok := true;
  }

  lemma DigestLength(s: string)
    requires IsDigest(s)
    ensures Utf8Length(s) == 64
  {
    hide Utf8Length;
    forall c | c in s ensures c as int < 0x80 {
      var i :| 0 <= i < |s| && s[i] == c;
      assert IsLowerHex(s[i]);
    }
    AsciiLength(s);
  }

  lemma ContentIdLength(s: string)
    requires ValidContentId(s)
    ensures Utf8Length(s) == 71
  {
    hide Utf8Length;
    var digest := s[7..];
    assert s == "sha256:" + digest;
    forall c | c in s ensures c as int < 0x80 {
      if c in digest {
        var i :| 0 <= i < |digest| && digest[i] == c;
        assert IsLowerHex(digest[i]);
      } else {
        assert c in "sha256:";
      }
    }
    AsciiLength(s);
  }

  lemma VersionLength()
    ensures Utf8Length(MAP_NODE_VERSION) == 31
  {
    AsciiLength(MAP_NODE_VERSION);
  }

  const BRANCH_BYTES: nat := 340
  const LEAF_BYTES: nat := MAX_MAP_KEY_BYTES + 237

  /** A good node is small, a leaf's key apart. */
  lemma NodeIsSmall(h: Hashes, n: Carried)
    requires WellFormed(h) && NodeOk(h, n)
    ensures NodeBytes(n) <= if n.body.LeafBody? then LEAF_BYTES else BRANCH_BYTES
  {
    hide Utf8Length;
    hide ValidContentId;
    hide IsDigest;
    hide Prefix;
    VersionLength();
    ContentIdLength(n.id.text);
    match n.body
    case LeafBody(key, hash, value) =>
      DigestLength(hash);
      ContentIdLength(value);
    case BranchBody(_, prefix, left, right) =>
      DigestLength(prefix);
      ContentIdLength(left.id.text);
      ContentIdLength(right.id.text);
  }

  ghost predicate HasLeaf(nodes: seq<Carried>) { exists i :: 0 <= i < |nodes| && nodes[i].body.LeafBody? }

  ghost predicate OneLeaf(nodes: seq<Carried>) {
    forall i, j :: 0 <= i < j < |nodes| ==> !(nodes[i].body.LeafBody? && nodes[j].body.LeafBody?)
  }

  lemma {:induction false} FewBytes(h: Hashes, nodes: seq<Carried>)
    requires WellFormed(h) && OneLeaf(nodes) && forall i :: 0 <= i < |nodes| ==> NodeOk(h, nodes[i])
    ensures TotalBytes(nodes) <= |nodes| * BRANCH_BYTES + if HasLeaf(nodes) then LEAF_BYTES else 0
  {
    hide NodeOk;
    hide NodeBytes;
    hide WellFormed;
    if nodes != [] {
      var k := |nodes| - 1;
      var front := nodes[..k];
      FewBytes(h, front);
      NodeIsSmall(h, nodes[k]);
      if HasLeaf(front) {
        var i :| 0 <= i < k && front[i].body.LeafBody?;
        assert nodes[i].body.LeafBody?;
      }
      if nodes[k].body.LeafBody? { assert HasLeaf(nodes); }
    }
  }

  /** A path ends at its one leaf, if it has one. */
  lemma {:induction false} LeavesOfPath(h: Hashes, node: Node, hash: string, n: Carried)
    requires IsDigest(hash) && n in PathOf(h, node, hash) && n.body.LeafBody?
    ensures var path := PathOf(h, node, hash); n == path[|path| - 1]
    decreases node
  {
    hide IsDigest;
    hide Common;
    if node.Branch? && IsDigest(node.prefix) && node.depth < DIGEST_BITS && Common(node.prefix, hash) >= node.depth {
      LeavesOfPath(h, Side(node, Bit(hash, node.depth)).node, hash, n);
    }
  }

  /** A listing of a path stays far below the bound on a proof's bytes. */
  lemma ListingFits(h: Hashes, root: Root, hash: string, nodes: seq<Carried>)
    requires WellFormed(h) && IsDigest(hash) && ListsPath(nodes, RootPath(h, root, hash))
    requires |nodes| <= MAX_PATH_NODES && forall n :: n in nodes ==> NodeOk(h, n)
    ensures TotalBytes(nodes) <= MAX_PROOF_BYTES
  {
    hide NodeOk;
    hide PathOf;
    hide WellFormed;
    hide IsDigest;
    hide TotalBytes;
    forall i, j | 0 <= i < j < |nodes| ensures !(nodes[i].body.LeafBody? && nodes[j].body.LeafBody?) {
      assert nodes[i] in nodes && nodes[j] in nodes;
      if nodes[i].body.LeafBody? && nodes[j].body.LeafBody? {
        LeavesOfPath(h, root.node.value, hash, nodes[i]);
        LeavesOfPath(h, root.node.value, hash, nodes[j]);
      }
    }
    FewBytes(h, nodes);
  }

  // ----- filing

  /** Checks and files the nodes; None is a bad node, a repeated one, too many or too big. */
  method FileNodes(h: Hashes, nodes: seq<Carried>) returns (r: Option<map<NodeId, Carried>>)
    ensures r.Some? ==> Files(h, nodes, r.value) && |nodes| <= MAX_PATH_NODES
    ensures r.Some? ==> TotalBytes(nodes) <= MAX_PROOF_BYTES && (forall n :: n in nodes ==> NodeOk(h, n)) && !RepeatsId(nodes)
    ensures r.None? ==> |nodes| > MAX_PATH_NODES || TotalBytes(nodes) > MAX_PROOF_BYTES || (exists n :: n in nodes && !NodeOk(h, n)) || RepeatsId(nodes)
  {
    hide NodeOk;
    hide Files;
    hide RepeatsId;
    hide TotalBytes;
    if |nodes| > MAX_PATH_NODES { return None; }
    var fits := VerifyProofBytes(nodes);
    if !fits { return None; }
    var indexed: map<NodeId, Carried> := map[];
    FilesNone(h, nodes);
    for k := 0 to |nodes|
      invariant Files(h, nodes[..k], indexed)
    {
      var node := nodes[k];
      var nodeOk := VerifyNode(h, node);
      if !nodeOk {
        assert node in nodes;
        return None;
      }
      if node.id in indexed {
        FiledBefore(h, nodes, k, indexed);
        return None;
      }
      FilesNext(h, nodes, k, indexed);
      indexed := indexed[node.id := node];
    }
    assert nodes[..|nodes|] == nodes;
    FiledAreGood(h, nodes, indexed);
    r := Some(indexed);
  }

  lemma FiledAreGood(h: Hashes, nodes: seq<Carried>, m: map<NodeId, Carried>)
    requires Files(h, nodes, m)
    ensures (forall n :: n in nodes ==> NodeOk(h, n)) && !RepeatsId(nodes)
  {
    hide NodeOk;
  }

  /** Nothing is left unused exactly when the carried nodes are the path. */
  lemma UsedUpExactly(h: Hashes, carried: seq<Carried>, nodes: map<NodeId, Carried>, path: seq<Carried>)
    requires Files(h, carried, nodes)
    ensures Holds(nodes, path) && |IdsOf(path)| == |nodes| <==> ListsPath(carried, path)
    ensures Filed(h, nodes) && (CarriedApart(h, carried, path) ==> Apart(h, nodes, path))
  {
    hide NodeOk;
    hide RepeatsId;
    assert |nodes.Keys| == |nodes|;
    if ListsPath(carried, path) {
      forall id | id in nodes ensures id in IdsOf(path) {
        assert nodes[id] in path;
      }
      assert IdsOf(path) == nodes.Keys;
    }
    if Holds(nodes, path) && |IdsOf(path)| == |nodes| {
      SubsetOfSize(IdsOf(path), nodes.Keys);
      forall n ensures n in carried <==> n in path {
        if n in carried { assert n.id in IdsOf(path); }
      }
    }
  }

  lemma SubsetOfSize<T>(a: set<T>, b: set<T>)
    requires a <= b && |a| == |b|
    ensures a == b
  {
    assert |b - a| == |b| - |a|;
  }

  function ElementsOf(nodes: seq<Carried>): set<Carried> {
    set n | n in nodes
  }

  /** A listing of the path is no longer than the path. */
  lemma ListingIsBounded(nodes: seq<Carried>, path: seq<Carried>)
    requires ListsPath(nodes, path)
    ensures |nodes| <= |path|
  {
    SizeOfDistinct(nodes);
    SizeAtMost(path);
    assert ElementsOf(nodes) == ElementsOf(path);
  }

  lemma ElementsNext(front: seq<Carried>, last: Carried)
    ensures ElementsOf(front + [last]) == ElementsOf(front) + {last}
  {
  }

  lemma DistinctFront(front: seq<Carried>, last: Carried)
    requires !RepeatsId(front + [last])
    ensures !RepeatsId(front) && last !in ElementsOf(front)
  {
    var all := front + [last];
    assert forall i :: 0 <= i < |front| ==> all[i] == front[i] && all[i].id != all[|front|].id;
  }

  lemma {:induction false} SizeOfDistinct(nodes: seq<Carried>)
    requires !RepeatsId(nodes)
    ensures |ElementsOf(nodes)| == |nodes|
  {
    hide RepeatsId;
    if nodes != [] {
      var front, last := nodes[..|nodes| - 1], nodes[|nodes| - 1];
      assert nodes == front + [last];
      DistinctFront(front, last);
      SizeOfDistinct(front);
      ElementsNext(front, last);
    }
  }

  lemma {:induction false} SizeAtMost(nodes: seq<Carried>)
    ensures |ElementsOf(nodes)| <= |nodes|
  {
    if nodes != [] {
      var front, last := nodes[..|nodes| - 1], nodes[|nodes| - 1];
      assert nodes == front + [last];
      SizeAtMost(front);
      ElementsNext(front, last);
    }
  }

  // ----- proving and verifying

  /** The proof is bound to this root and key and carries the key's path. */
  ghost predicate IsProof(h: Hashes, root: Root, key: string, proof: ExactProof)
    requires IsDigest(h.key(key))
  {
    && proof.root == RootIdOf(h, root) && proof.key == key && proof.hash == h.key(key)
    && ListsPath(proof.nodes, RootPath(h, root, h.key(key)))
  }

  /** A listing of a path of the root passes every check of its nodes. */
  lemma ListingIsFiled(h: Hashes, root: Root, key: string, m: map<string, string>, nodes: seq<Carried>)
    requires WellFormed(h) && Represents(h.key, root, m) && ValidMap(m)
    requires ListsPath(nodes, RootPath(h, root, h.key(key)))
    ensures |nodes| <= MAX_PATH_NODES && !RepeatsId(nodes) && forall n :: n in nodes ==> NodeOk(h, n)
  {
    hide NodeOk;
    hide RepeatsId;
    hide PathOf;
    var hash := h.key(key);
    ListingIsBounded(nodes, RootPath(h, root, hash));
    if root.node.Some? {
      PathIsBounded(h, Ref(root.node.value, root.entries), key, []);
      PathNodesOk(h, root.node.value, hash, m);
    }
  }

  /** What is verified against a root is true of the map the root represents, and a proof is
      accepted exactly when it lists the path of a well-formed key without a collision. */
  method VerifyMapExact(h: Hashes, expected: RootId, key: string, proof: ExactProof,
                        ghost root: Root, ghost m: map<string, string>) returns (r: Option<LookupResult>)
    requires WellFormed(h) && Represents(h.key, root, m) && expected == RootIdOf(h, root) && ValidMap(m)
    requires CarriedApart(h, proof.nodes, RootPath(h, root, h.key(key)))
    ensures r.Some? && key in m ==> r.value == Found(m[key], Rank(Entries(h.key, m), h.key(key)))
    ensures r.Some? && key !in m ==> r.value == Absent
    ensures r.Some? <==> ValidKey(key) && IsProof(h, root, key, proof) && (key in m || !Taken(h.key, m, key))
  {
    hide Filed;
    hide Files;
    hide NodeOk;
    hide ValidMap;
    hide ValidKey;
    hide Represents;
    hide RootPath;
    hide Holds;
    hide IdsOf;
    hide IsDigest;
    hide ListsPath;
    hide RepeatsId;
    hide Taken;
    hide Entries;
    hide LooksUp;
    hide CarriedApart;
    hide Apart;
    RootPasses(h, root, m);
    var rootOk := VerifyRoot(expected);
    if !rootOk || proof.root != expected || proof.key != key { return None; }
    var keyOk := ValidateKey(key);
    if !keyOk || proof.hash != h.key(key) { return None; }
    var filed := FileNodes(h, proof.nodes);
    if filed.None? {
      if ListsPath(proof.nodes, RootPath(h, root, h.key(key))) {
        ListingIsFiled(h, root, key, m, proof.nodes);
        ListingFits(h, root, h.key(key), proof.nodes);
      }
      return None;
    }
    UsedUpExactly(h, proof.nodes, filed.value, RootPath(h, root, h.key(key)));
    var resolver := new MapResolver(filed.value);
    var outcome := LookupLoaded(h, expected, key, proof.hash, resolver, root, m);
    if outcome == LookupRefused(Missing) { return None; }
    AnswersTruly(h, m, key, outcome);
    if outcome.LookupRefused? || |resolver.used| != |resolver.nodes| { return None; }
    r := Some(outcome);
  }

  lemma AnswersTruly(h: Hashes, m: map<string, string>, key: string, r: LookupResult)
    requires LooksUp(h.key, Entries(h.key, m), key, r)
    ensures key in m ==> r == Found(m[key], Rank(Entries(h.key, m), h.key(key)))
    ensures key !in m ==> r == if Taken(h.key, m, key) then LookupRefused(Collision) else Absent
  {
    LookupOfMap(h.key, m, key, r);
    EntriesOfUpdate(h.key, m, key, "");
  }

  /** A store that has the nodes of the tree proves every well-formed key, present or absent,
      that no other key collides with. */
  method ProveMapExact(h: Hashes, expected: RootId, key: string, store: map<NodeId, Carried>,
                       ghost root: Root, ghost m: map<string, string>) returns (r: Option<ExactProof>)
    requires WellFormed(h) && Represents(h.key, root, m) && expected == RootIdOf(h, root)
    requires Filed(h, store) && Apart(h, store, RootPath(h, root, h.key(key)))
    ensures r.Some? ==> IsProof(h, root, key, r.value)
    ensures r.Some? <==> ValidKey(key) && Holds(store, RootPath(h, root, h.key(key))) && (key in m || !Taken(h.key, m, key))
  {
    hide Filed;
    hide ValidKey;
    hide Represents;
    hide RootPath;
    hide Holds;
    hide IdsOf;
    hide IsDigest;
    hide ListsPath;
    hide Taken;
    hide Entries;
    hide LooksUp;
    hide Apart;
    RootPasses(h, root, m);
    var rootOk := VerifyRoot(expected);
    var keyOk := ValidateKey(key);
    if !rootOk || !keyOk { return None; }
    var hash := h.key(key);
    var recorder := new MapResolver(store);
    var outcome := LookupLoaded(h, expected, key, hash, recorder, root, m);
    if outcome == LookupRefused(Missing) { return None; }
    AnswersTruly(h, m, key, outcome);
    if outcome.LookupRefused? { return None; }
    var nodes := Recorded(h, recorder, RootPath(h, root, hash));
    r := Some(ExactProof(expected, key, hash, nodes));
  }

  /** The nodes that have been asked for, in some order. */
  method Recorded(h: Hashes, recorder: MapResolver, ghost path: seq<Carried>) returns (nodes: seq<Carried>)
    requires Filed(h, recorder.nodes) && Holds(recorder.nodes, path) && recorder.used == IdsOf(path)
    ensures ListsPath(nodes, path)
  {
    nodes := [];
    var left := recorder.used;
    while left != {}
      invariant left <= recorder.used
      invariant forall n :: n in nodes <==> n in path && n.id !in left
      invariant !RepeatsId(nodes)
      decreases |left|
    {
      var id :| id in left;
      nodes := nodes + [recorder.nodes[id]];
      left := left - {id};
    }
  }
}
