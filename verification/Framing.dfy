/** Length-framed hash preimages (crates/cymule-authenticated-collections/src/hash.rs)
    and the framed snapshot of public sources (scripts/version_domains.py). A hash
    stands for the bytes fed to it. */
module Framing {
  import opened Wrappers
  import opened Sorting
  import opened ByteStrings
  import CanonicalJson

  /** A running hash and what has been fed to it. */
  class Hasher {
    var stream: Bytes

    constructor ()
      ensures stream == []
    {
      stream := [];
    }

    method Update(bytes: Bytes)
      modifies this
      ensures stream == old(stream) + bytes
    {
      stream := stream + bytes;
    }
  }

  const LENGTH_WIDTH: nat := 8

  /** A length the frame can state. */
  predicate Frameable(f: Bytes) { |f| < Power256(LENGTH_WIDTH) }

  function Frame(f: Bytes): Bytes { BigEndian(|f|, LENGTH_WIDTH) + f }

  function Frames(fields: seq<Bytes>): Bytes {
    if fields == [] then [] else Frame(fields[0]) + Frames(fields[1..])
  }

  predicate AllFrameable(fields: seq<Bytes>) { forall i :: 0 <= i < |fields| ==> Frameable(fields[i]) }

  function Preimage(version: Bytes, domain: Bytes, fields: seq<Bytes>): Bytes {
    Frame(version) + (Frame(domain) + (Frame(BigEndian(|fields|, 8)) + Frames(fields)))
  }

  method FrameInto(hasher: Hasher, bytes: Bytes)
    requires Frameable(bytes)
    modifies hasher
    ensures hasher.stream == old(hasher.stream) + Frame(bytes)
  {
    hasher.Update(BigEndian(|bytes|, LENGTH_WIDTH));
    hasher.Update(bytes);
  }

  lemma {:induction false} FramesAppend(fields: seq<Bytes>, f: Bytes)
    ensures Frames(fields + [f]) == Frames(fields) + Frame(f)
  {
    if fields == [] {
      assert [f][1..] == [];
    } else {
      assert (fields + [f])[1..] == fields[1..] + [f];
      FramesAppend(fields[1..], f);
    }
  }

  /** Feeds the frame version, the domain, the number of fields and the fields. */
  method HashIdentifier(version: Bytes, domain: Bytes, fields: seq<Bytes>) returns (stream: Bytes)
    requires Frameable(version) && Frameable(domain) && |fields| < Power256(8) && AllFrameable(fields)
    ensures stream == Preimage(version, domain, fields)
  {
    EightIsFrameable(|fields|);
    hide Power256;
    hide BigEndian;
    hide Frame;
    hide Frames;
    hide Frameable;
    var hasher := new Hasher();
    FrameInto(hasher, version);
    FrameInto(hasher, domain);
    FrameInto(hasher, BigEndian(|fields|, 8));
    ghost var head := hasher.stream;
    NoFrames(head, fields);
    for i := 0 to |fields|
      invariant hasher.stream == head + Frames(fields[..i])
    {
      FrameInto(hasher, fields[i]);
      OneMore(head, fields, i);
    }
    Assembled(head, version, domain, fields);
    stream := hasher.stream;
  }

  lemma NoFrames(head: Bytes, fields: seq<Bytes>)
    ensures head + Frames(fields[..0]) == head
  {
  }

  lemma OneMore(head: Bytes, fields: seq<Bytes>, i: nat)
    requires i < |fields|
    ensures head + Frames(fields[..i]) + Frame(fields[i]) == head + Frames(fields[..i + 1])
  {
    assert fields[..i + 1] == fields[..i] + [fields[i]];
    FramesAppend(fields[..i], fields[i]);
  }

  lemma Assembled(head: Bytes, version: Bytes, domain: Bytes, fields: seq<Bytes>)
    requires head == [] + Frame(version) + Frame(domain) + Frame(BigEndian(|fields|, 8))
    ensures head + Frames(fields[..|fields|]) == Preimage(version, domain, fields)
  {
    hide Frame;
    hide Frames;
    assert fields[..|fields|] == fields;
    assert [] + Frame(version) == Frame(version);
    JoinFour(Frame(version), Frame(domain), Frame(BigEndian(|fields|, 8)), Frames(fields));
  }

  lemma JoinFour(a: Bytes, b: Bytes, c: Bytes, d: Bytes)
    ensures a + b + c + d == a + (b + (c + d))
  {
    JoinThree(a, b, c);
    JoinThree(a, b + c, d);
    JoinThree(b, c, d);
  }

  lemma JoinThree(a: Bytes, b: Bytes, c: Bytes)
    ensures a + b + c == a + (b + c)
  {
  }

  lemma EightIsFrameable(n: nat)
    ensures Frameable(BigEndian(n, 8))
  {
    assert Power256(0) == 1 && Power256(1) == 256;
    PowerGrows(1, LENGTH_WIDTH);
  }

  lemma {:induction false} PowerGrows(a: nat, b: nat)
    requires a <= b
    ensures Power256(a) <= Power256(b)
  {
    if a < b { PowerGrows(a, b - 1); }
  }

  // ----- frames keep apart

  lemma FrameApart(f: Bytes, g: Bytes, u: Bytes, v: Bytes)
    requires Frameable(f) && Frameable(g) && Frame(f) + u == Frame(g) + v
    ensures f == g && u == v
  {
    var m, n := BigEndian(|f|, LENGTH_WIDTH), BigEndian(|g|, LENGTH_WIDTH);
    BigEndianDenotes(|f|, LENGTH_WIDTH);
    BigEndianDenotes(|g|, LENGTH_WIDTH);
    hide BigEndian;
    hide FromBytes;
    hide Power256;
    var a, b := Frame(f) + u, Frame(g) + v;
    assert a[..LENGTH_WIDTH] == m && b[..LENGTH_WIDTH] == n;
    assert a[LENGTH_WIDTH..] == f + u && b[LENGTH_WIDTH..] == g + v;
    assert f == (f + u)[..|f|] && g == (g + v)[..|g|] && u == (f + u)[|f|..] && v == (g + v)[|g|..];
  }

  lemma {:induction false} FramesApart(fields: seq<Bytes>, others: seq<Bytes>, u: Bytes, v: Bytes)
    requires AllFrameable(fields) && AllFrameable(others) && |fields| == |others|
    requires Frames(fields) + u == Frames(others) + v
    ensures fields == others && u == v
  {
    hide Frame;
    hide Frameable;
    if fields == [] {
      assert [] + u == u && [] + v == v;
    } else {
      var a, b := Frames(fields[1..]), Frames(others[1..]);
      assert Frames(fields) + u == Frame(fields[0]) + (a + u);
      assert Frames(others) + v == Frame(others[0]) + (b + v);
      FrameApart(fields[0], others[0], a + u, b + v);
      FramesApart(fields[1..], others[1..], u, v);
      assert fields == [fields[0]] + fields[1..] && others == [others[0]] + others[1..];
    }
  }

  /** Equal preimages are of equal domains and equal field lists. */
  lemma PreimageApart(version: Bytes, domain: Bytes, fields: seq<Bytes>, other: Bytes, others: seq<Bytes>)
    requires Frameable(version) && Frameable(domain) && Frameable(other)
    requires |fields| < Power256(8) && |others| < Power256(8) && AllFrameable(fields) && AllFrameable(others)
    requires Preimage(version, domain, fields) == Preimage(version, other, others)
    ensures domain == other && fields == others
  {
    var m, n := BigEndian(|fields|, 8), BigEndian(|others|, 8);
    EightIsFrameable(|fields|);
    EightIsFrameable(|others|);
    BigEndianDenotes(|fields|, 8);
    BigEndianDenotes(|others|, 8);
    hide Frame;
    hide Frames;
    hide Frameable;
    hide Power256;
    hide BigEndian;
    var a, b := Frame(m) + Frames(fields), Frame(n) + Frames(others);
    FrameApart(version, version, Frame(domain) + a, Frame(other) + b);
    FrameApart(domain, other, a, b);
    FrameApart(m, n, Frames(fields), Frames(others));
    assert Frames(fields) + [] == Frames(others) + [];
    FramesApart(fields, others, [], []);
  }

  // ----- the snapshot of public sources

  /** A Git entry; the path is its bytes. */
  datatype Entry = Entry(path: Bytes, mode: Mode, kind: Kind, payload: Bytes)
  datatype Mode = Regular | Executable | SymbolicLink | OtherMode(text: Bytes)
  datatype Kind = Blob | OtherKind(text: Bytes)

  function ModeBytes(mode: Mode): Bytes {
    match mode
    case Regular => [49, 48, 48, 54, 52, 52]
    case Executable => [49, 48, 48, 55, 53, 53]
    case SymbolicLink => [49, 50, 48, 48, 48, 48]
    case OtherMode(text) => text
  }

  const BLOB: Bytes := [98, 108, 111, 98]

  predicate PathLe(a: Entry, b: Entry) { CanonicalJson.UnitsLe(a.path, b.path) }

  predicate Supported(e: Entry) { !e.mode.OtherMode? && e.kind.Blob? }

  function EntryFrames(e: Entry): Bytes
    requires Supported(e)
  {
    Frames([e.path, ModeBytes(e.mode), BLOB, e.payload])
  }

  predicate AllSupported(es: seq<Entry>) { forall i :: 0 <= i < |es| ==> Supported(es[i]) }

  function EntriesFrames(es: seq<Entry>): Bytes
    requires AllSupported(es)
  {
    if es == [] then [] else EntryFrames(es[0]) + EntriesFrames(es[1..])
  }

  ghost predicate PathsRepeat(es: seq<Entry>) {
    exists i, j :: 0 <= i < j < |es| && es[i].path == es[j].path
  }

  /** The entries a snapshot can be taken of. */
  ghost predicate ValidEntries(es: seq<Entry>) {
    !PathsRepeat(es) && AllSupported(es)
  }

  lemma PathLeIsTotal()
    ensures TotalPreorder(PathLe)
    ensures forall a, b :: PathLe(a, b) && PathLe(b, a) ==> a.path == b.path
  {
    forall a, b ensures (PathLe(a, b) || PathLe(b, a)) && (PathLe(a, b) && PathLe(b, a) ==> a.path == b.path) {
      CanonicalJson.UnitsLeOrders(a.path, b.path);
    }
    forall a, b, c | PathLe(a, b) && PathLe(b, c) ensures PathLe(a, c) {
      CanonicalJson.UnitsLeChains(a.path, b.path, c.path);
    }
  }

  /** The bytes a snapshot is the hash of; None is a refusal. */
  ghost function Snapshot(version: Bytes, entries: seq<Entry>): Option<Bytes> {
    if !ValidEntries(entries) then None
    else
      SortKeepsValid(entries);
      var es := Sort(PathLe, entries);
      Some(Frame(version) + (BigEndian(|es|, 8) + EntriesFrames(es)))
  }

  lemma SortKeepsValid(entries: seq<Entry>)
    ensures multiset(Sort(PathLe, entries)) == multiset(entries) && |Sort(PathLe, entries)| == |entries|
    ensures ValidEntries(Sort(PathLe, entries)) <==> ValidEntries(entries)
    ensures PathsRepeat(Sort(PathLe, entries)) <==> PathsRepeat(entries)
  {
    PathLeIsTotal();
    SortSorts(PathLe, entries);
    var es := Sort(PathLe, entries);
    SameElements(entries, es);
    if PathsRepeat(entries) { RepeatSurvives(entries, es); }
    if PathsRepeat(es) { RepeatSurvives(es, entries); }
    hide PathsRepeat;
    assert (forall i :: 0 <= i < |es| ==> Supported(es[i])) <==> (forall e :: e in es ==> Supported(e));
    assert (forall i :: 0 <= i < |entries| ==> Supported(entries[i])) <==> (forall e :: e in entries ==> Supported(e));
  }

  lemma RepeatSurvives(a: seq<Entry>, b: seq<Entry>)
    requires multiset(a) == multiset(b) && PathsRepeat(a)
    ensures PathsRepeat(b)
  {
    SameElements(a, b);
    var i, j :| 0 <= i < j < |a| && a[i].path == a[j].path;
    if a[i] == a[j] {
      if forall x, y :: 0 <= x < y < |b| ==> b[x] != b[y] {
        DistinctSurvives(b, a);
        assert false;
      }
      var x, y :| 0 <= x < y < |b| && b[x] == b[y];
      assert b[x].path == b[y].path;
    } else {
      assert a[i] in b && a[j] in b;
      var x :| 0 <= x < |b| && b[x] == a[i];
      var y :| 0 <= y < |b| && b[y] == a[j];
      if x < y { assert b[x].path == b[y].path; } else { assert b[y].path == b[x].path; }
    }
  }

  /** Sorts by path, refuses repeated paths and unsupported entries, and feeds the rest. */
  method SourceSnapshotDigest(version: Bytes, entries: seq<Entry>) returns (r: Option<Bytes>)
    requires Frameable(version) && |entries| < Power256(8)
    requires forall e :: e in entries ==> Frameable(e.path) && Frameable(e.payload)
    ensures r == Snapshot(version, entries)
  {
    hide Power256;
    hide BigEndian;
    hide Frame;
    hide Frameable;
    hide EntryFrames;
    hide EntriesFrames;
    hide ValidEntries;
    hide Supported;
    hide Snapshot;
    var normalized := Sort(PathLe, entries);
    SortKeepsValid(entries);
    SameElements(normalized, entries);
    var repeats := RepeatsPath(normalized);
    if repeats {
      Unsnapped(version, entries);
      return None;
    }
    var hasher := new Hasher();
    FrameInto(hasher, version);
    hasher.Update(BigEndian(|normalized|, 8));
    ghost var head := hasher.stream;
    NoEntries(head, normalized);
    for i := 0 to |normalized|
      invariant AllSupported(normalized[..i])
      invariant hasher.stream == head + EntriesFrames(normalized[..i])
    {
      var e := normalized[i];
      if !Supported(e) {
        Unsnapped(version, entries);
        return None;
      }
      assert e in entries;
      FrameEntry(hasher, e);
      EntriesAppend(normalized, i);
      JoinThree(head, EntriesFrames(normalized[..i]), EntryFrames(e));
    }
    assert normalized[..|normalized|] == normalized;
    Snapped(version, entries, head);
    r := Some(hasher.stream);
  }

  lemma Unsnapped(version: Bytes, entries: seq<Entry>)
    requires PathsRepeat(Sort(PathLe, entries)) || exists i :: 0 <= i < |Sort(PathLe, entries)| && !Supported(Sort(PathLe, entries)[i])
    ensures Snapshot(version, entries).None?
  {
    hide PathsRepeat;
    SortKeepsValid(entries);
  }

  lemma NoEntries(head: Bytes, es: seq<Entry>)
    ensures AllSupported(es[..0]) && head + EntriesFrames(es[..0]) == head
  {
  }

  lemma Snapped(version: Bytes, entries: seq<Entry>, head: Bytes)
    requires !PathsRepeat(entries) && AllSupported(Sort(PathLe, entries))
    requires head == [] + Frame(version) + BigEndian(|entries|, 8)
    ensures Snapshot(version, entries) == Some(head + EntriesFrames(Sort(PathLe, entries)))
  {
    hide PathsRepeat;
    hide Frame;
    hide BigEndian;
    SortKeepsValid(entries);
    hide EntriesFrames;
    assert [] + Frame(version) == Frame(version);
    JoinThree(Frame(version), BigEndian(|entries|, 8), EntriesFrames(Sort(PathLe, entries)));
  }

  method RepeatsPath(es: seq<Entry>) returns (r: bool)
    ensures r <==> PathsRepeat(es)
  {
    var seen: set<Bytes> := {};
    for i := 0 to |es|
      invariant forall p :: p in seen <==> exists j :: 0 <= j < i && es[j].path == p
      invariant !PathsRepeat(es[..i])
    {
      if es[i].path in seen { return true; }
      seen := seen + {es[i].path};
    }
    assert es[..|es|] == es;
    return false;
  }

  method FrameEntry(hasher: Hasher, e: Entry)
    requires Supported(e) && Frameable(e.path) && Frameable(e.payload)
    modifies hasher
    ensures hasher.stream == old(hasher.stream) + EntryFrames(e)
  {
    ShortIsFrameable(ModeBytes(e.mode));
    ShortIsFrameable(BLOB);
    EntryFramesAre(e);
    hide Frameable;
    hide Frame;
    hide EntryFrames;
    hide ModeBytes;
    ghost var before := hasher.stream;
    FrameInto(hasher, e.path);
    FrameInto(hasher, ModeBytes(e.mode));
    FrameInto(hasher, BLOB);
    FrameInto(hasher, e.payload);
    JoinFour(before + Frame(e.path), Frame(ModeBytes(e.mode)), Frame(BLOB), Frame(e.payload));
    JoinThree(before, Frame(e.path), Frame(ModeBytes(e.mode)) + (Frame(BLOB) + Frame(e.payload)));
  }

  lemma EntryFramesAre(e: Entry)
    requires Supported(e)
    ensures EntryFrames(e) == Frame(e.path) + (Frame(ModeBytes(e.mode)) + (Frame(BLOB) + Frame(e.payload)))
  {
    hide Frame;
    var third, second, first := [e.payload], [BLOB, e.payload], [ModeBytes(e.mode), BLOB, e.payload];
    var fields := [e.path, ModeBytes(e.mode), BLOB, e.payload];
    assert third[1..] == [] && second[1..] == third && first[1..] == second && fields[1..] == first;
    assert Frames(third) == Frame(e.payload) + [] == Frame(e.payload);
    assert Frames(second) == Frame(BLOB) + Frames(third);
    assert Frames(first) == Frame(ModeBytes(e.mode)) + Frames(second);
  }

  lemma ShortIsFrameable(f: Bytes)
    requires |f| <= 8
    ensures Frameable(f)
  {
    EightIsFrameable(0);
  }

  lemma {:induction false} EntriesAppend(es: seq<Entry>, i: nat)
    requires i < |es| && AllSupported(es[..i]) && Supported(es[i])
    ensures AllSupported(es[..i + 1])
    ensures EntriesFrames(es[..i + 1]) == EntriesFrames(es[..i]) + EntryFrames(es[i])
  {
    hide EntryFrames;
    hide Supported;
    assert es[..i + 1] == es[..i] + [es[i]];
    if i == 0 {
      assert es[..1][1..] == [];
    } else {
      assert es[..i + 1][1..] == es[1..][..i] && es[..i][1..] == es[1..][..i - 1];
      EntriesAppend(es[1..], i - 1);
    }
  }

  lemma EntryApart(e: Entry, f: Entry, u: Bytes, v: Bytes)
    requires Supported(e) && Supported(f) && EntryFrames(e) + u == EntryFrames(f) + v
    requires Frameable(e.path) && Frameable(f.path) && Frameable(e.payload) && Frameable(f.payload)
    ensures e == f && u == v
  {
    ShortIsFrameable(ModeBytes(e.mode));
    ShortIsFrameable(ModeBytes(f.mode));
    ShortIsFrameable(BLOB);
    hide Frames;
    hide Frame;
    hide Frameable;
    var a, b := [e.path, ModeBytes(e.mode), BLOB, e.payload], [f.path, ModeBytes(f.mode), BLOB, f.payload];
    FramesApart(a, b, u, v);
    assert a[0] == b[0] && a[1] == b[1] && a[3] == b[3];
    assert ModeBytes(e.mode)[3] == ModeBytes(f.mode)[3] && ModeBytes(e.mode)[2] == ModeBytes(f.mode)[2];
  }

  lemma {:induction false} EntriesApart(es: seq<Entry>, fs: seq<Entry>)
    requires |es| == |fs| && AllSupported(es) && AllSupported(fs)
    requires forall i :: 0 <= i < |es| ==> Frameable(es[i].path) && Frameable(es[i].payload) && Frameable(fs[i].path) && Frameable(fs[i].payload)
    requires EntriesFrames(es) == EntriesFrames(fs)
    ensures es == fs
  {
    hide EntryFrames;
    hide Frameable;
    if es != [] {
      EntryApart(es[0], fs[0], EntriesFrames(es[1..]), EntriesFrames(fs[1..]));
      EntriesApart(es[1..], fs[1..]);
      assert es == [es[0]] + es[1..] && fs == [fs[0]] + fs[1..];
    }
  }

  /** Two valid lists of entries have the same snapshot exactly when they are the same
      entries in some order. */
  lemma SnapshotExactly(version: Bytes, es: seq<Entry>, fs: seq<Entry>)
    requires Frameable(version) && ValidEntries(es) && ValidEntries(fs)
    requires |es| < Power256(8) && |fs| < Power256(8)
    requires forall e :: e in es || e in fs ==> Frameable(e.path) && Frameable(e.payload)
    ensures Snapshot(version, es) == Snapshot(version, fs) <==> multiset(es) == multiset(fs)
  {
    hide Frame;
    hide Frameable;
    var a, b := Sort(PathLe, es), Sort(PathLe, fs);
    SortKeepsValid(es);
    SortKeepsValid(fs);
    if multiset(es) == multiset(fs) {
      SortedAlike(es, fs);
    } else if Snapshot(version, es) == Snapshot(version, fs) {
      FrameApart(version, version, BigEndian(|a|, 8) + EntriesFrames(a), BigEndian(|b|, 8) + EntriesFrames(b));
      CountsApart(|a|, |b|, EntriesFrames(a), EntriesFrames(b));
      SameElements(a, es);
      SameElements(b, fs);
      hide EntriesFrames;
      EntriesApart(a, b);
    }
  }

  lemma CountsApart(m: nat, n: nat, u: Bytes, v: Bytes)
    requires m < Power256(8) && n < Power256(8) && BigEndian(m, 8) + u == BigEndian(n, 8) + v
    ensures m == n && u == v
  {
    BigEndianDenotes(m, 8);
    BigEndianDenotes(n, 8);
    hide BigEndian;
    hide FromBytes;
    var a, b := BigEndian(m, 8), BigEndian(n, 8);
    assert a == (a + u)[..8] && b == (b + v)[..8] && u == (a + u)[8..] && v == (b + v)[8..];
  }

  lemma SortedAlike(es: seq<Entry>, fs: seq<Entry>)
    requires ValidEntries(es) && multiset(es) == multiset(fs)
    ensures Sort(PathLe, es) == Sort(PathLe, fs)
  {
    PathLeIsTotal();
    SortSorts(PathLe, es);
    SortSorts(PathLe, fs);
    var a := Sort(PathLe, es);
    SameElements(a, es);
    forall x, y | x in a && y in a && PathLe(x, y) && PathLe(y, x) ensures x == y {
      var i :| 0 <= i < |es| && es[i] == x;
      var j :| 0 <= j < |es| && es[j] == y;
    }
    SortedIsUnique(PathLe, a, Sort(PathLe, fs));
  }

  // ----- the stream in full

  /** The bytes of a text of ASCII characters. */
  function Ascii(s: string): (b: Bytes)
    requires forall i :: 0 <= i < |s| ==> s[i] as int < 0x80
    ensures |b| == |s|
  {
    seq(|s|, i requires 0 <= i < |s| => s[i] as int)
  }

  /** What Git calls a supported mode. */
  function ModeText(mode: Mode): string
    requires !mode.OtherMode?
  {
    if mode.Regular? then "100644" else if mode.Executable? then "100755" else "120000"
  }

  lemma ModeIsItsText(mode: Mode)
    requires !mode.OtherMode?
    ensures |ModeText(mode)| == 6 && (forall i :: 0 <= i < 6 ==> ModeText(mode)[i] as int < 0x80)
    ensures ModeBytes(mode) == Ascii(ModeText(mode))
    ensures BLOB == Ascii("blob")
  {
  }

  /** An entry feeds its path, the text of its mode, `blob` and its bytes, each after its
      length as eight bytes, the highest first. */
  lemma EntryStream(e: Entry)
    requires Supported(e)
    ensures |ModeText(e.mode)| == 6 && (forall i :: 0 <= i < 6 ==> ModeText(e.mode)[i] as int < 0x80)
    ensures EntryFrames(e) ==
      BigEndian(|e.path|, 8) + e.path + (BigEndian(6, 8) + Ascii(ModeText(e.mode)))
      + (BigEndian(4, 8) + Ascii("blob")) + (BigEndian(|e.payload|, 8) + e.payload)
  {
    ModeIsItsText(e.mode);
    EntryFramesAre(e);
    hide BigEndian;
    hide ModeBytes;
    hide Ascii;
    hide EntryFrames;
    var a, b, c, d := Frame(e.path), Frame(ModeBytes(e.mode)), Frame(BLOB), Frame(e.payload);
    assert a == BigEndian(|e.path|, 8) + e.path && b == BigEndian(6, 8) + Ascii(ModeText(e.mode));
    assert c == BigEndian(4, 8) + Ascii("blob") && d == BigEndian(|e.payload|, 8) + e.payload;
    hide Frame;
    JoinFour(a, b, c, d);
  }

  /** Entries given in the order of their paths are fed in that order, after the version and
      their number. */
  lemma SnapshotOfOrdered(version: Bytes, es: seq<Entry>)
    requires ValidEntries(es) && forall i, j :: 0 <= i < j < |es| ==> PathLe(es[i], es[j])
    ensures Snapshot(version, es) == Some(Frame(version) + (BigEndian(|es|, 8) + EntriesFrames(es)))
  {
    PathLeIsTotal();
    hide Frame;
    hide BigEndian;
    hide EntriesFrames;
    hide PathLe;
    hide Supported;
    SortKeepsValid(es);
    SortSorts(PathLe, es);
    forall x, y | x in es && y in es && PathLe(x, y) && PathLe(y, x) ensures x == y {
      var i :| 0 <= i < |es| && es[i] == x;
      var j :| 0 <= j < |es| && es[j] == y;
    }
    SortedIsUnique(PathLe, es, Sort(PathLe, es));
  }
}
