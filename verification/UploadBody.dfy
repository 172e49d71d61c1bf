/** The registry upload body around one closed archive (scripts/crates_release.py,
    `write_upload_body` and `inspect_upload_body`). */
module UploadBody {
  import opened Wrappers
  import opened ByteStrings

  const MAX_CRATE_BYTES: nat := 10 * 1024 * 1024
  const MAX_REGISTRY_UPLOAD_BYTES: nat := 2 * MAX_CRATE_BYTES + 8

  /** What the archive holds: its bytes, and the metadata derived from them, None when
      the archive is not a well-formed crate. */
  datatype Archive = Archive(bytes: Bytes, metadata: Option<Bytes>)

  /** The name and version a metadata document states; None is not an object. */
  datatype Identity = Identity(name: string, version: string)

  function Framed(metadata: Bytes, crate: Bytes): Bytes {
    LittleEndian(|metadata|, 4) + metadata + LittleEndian(|crate|, 4) + crate
  }

  /** None is a part too long for its length field, or an archive with no metadata. */
  function WriteUploadBody(archive: Archive): Option<Bytes> {
    if archive.metadata.None? then None
    else if |archive.metadata.value| >= Power256(4) || |archive.bytes| >= Power256(4) then None
    else Some(Framed(archive.metadata.value, archive.bytes))
  }

  /** Inspects a body part by part, as it comes, against the archive. */
  method InspectUploadBody(raw: Bytes, archive: Archive, crate: string, version: string, load: Bytes -> Option<Identity>)
    returns (ok: bool)
    ensures ok <==>
      && |raw| <= MAX_REGISTRY_UPLOAD_BYTES && WriteUploadBody(archive) == Some(raw)
      && load(archive.metadata.value) == Some(Identity(crate, version))
  {
    if |raw| > MAX_REGISTRY_UPLOAD_BYTES { return false; }
    if |raw| < 8 {
      return false;
    }
    var metadataLength := FromLittle(raw[..4]);
    var metadataEnd := 4 + metadataLength;
    Splits(raw, archive);
    if metadataEnd + 4 > |raw| { return false; }
    var metadata := load(raw[4..metadataEnd]);
    if metadata.None? { return false; }
    var crateLength := FromLittle(raw[metadataEnd..metadataEnd + 4]);
    var crateBytes := raw[metadataEnd + 4..];
    if crateLength != |crateBytes| || crateBytes != archive.bytes { return false; }
    if metadata.value.name != crate || metadata.value.version != version { return false; }
    ok := archive.metadata == Some(raw[4..metadataEnd]);
  }

  /** A body is the framing of the archive exactly when each of its parts is. */
  ghost predicate Parts(raw: Bytes, archive: Archive) {
    && |raw| >= 8
    && var end := 4 + FromLittle(raw[..4]);
      && end + 4 <= |raw|
      && archive.metadata == Some(raw[4..end])
      && raw[end + 4..] == archive.bytes
      && FromLittle(raw[end..end + 4]) == |archive.bytes|
  }

  lemma Splits(raw: Bytes, archive: Archive)
    ensures WriteUploadBody(archive) == Some(raw) <==> Parts(raw, archive)
  {
    if Parts(raw, archive) {
      var end := 4 + FromLittle(raw[..4]);
      LittleEndianOf(raw[..4]);
      LittleEndianOf(raw[end..end + 4]);
      assert raw == raw[..4] + raw[4..end] + raw[end..end + 4] + raw[end + 4..];
    }
    if WriteUploadBody(archive) == Some(raw) {
      FramedParts(archive.metadata.value, archive.bytes);
    }
  }

  lemma FramedParts(metadata: Bytes, crate: Bytes)
    requires |metadata| < Power256(4) && |crate| < Power256(4)
    ensures Parts(Framed(metadata, crate), Archive(crate, Some(metadata)))
  {
    var raw, m, c := Framed(metadata, crate), LittleEndian(|metadata|, 4), LittleEndian(|crate|, 4);
    LittleEndianDenotes(|metadata|, 4);
    LittleEndianDenotes(|crate|, 4);
    var end := 4 + |metadata|;
    assert raw[..4] == m && raw[4..end] == metadata && raw[end..end + 4] == c && raw[end + 4..] == crate;
  }
}
