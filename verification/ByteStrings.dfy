/** Bytes and fixed-width integers. */
module ByteStrings {
  type Byte = x: int | 0 <= x < 256
  type Bytes = seq<Byte>

  /** The number big-endian bytes denote. */
  function FromBytes(bytes: Bytes): nat {
    if bytes == [] then 0 else 256 * FromBytes(bytes[..|bytes| - 1]) + bytes[|bytes| - 1]
  }

  function Power256(width: nat): nat {
    if width == 0 then 1 else 256 * Power256(width - 1)
  }

  function BigEndian(n: nat, width: nat): (b: Bytes)
    ensures |b| == width
  {
    if width == 0 then [] else BigEndian(n / 256, width - 1) + [n % 256]
  }

  function LittleEndian(n: nat, width: nat): (b: Bytes)
    ensures |b| == width
  {
    if width == 0 then [] else [n % 256] + LittleEndian(n / 256, width - 1)
  }

  /** The number little-endian bytes denote. */
  function FromLittle(bytes: Bytes): nat {
    if bytes == [] then 0 else bytes[0] + 256 * FromLittle(bytes[1..])
  }

  lemma {:induction false} BigEndianDenotes(n: nat, width: nat)
    requires n < Power256(width)
    ensures FromBytes(BigEndian(n, width)) == n
  {
    if width > 0 {
      BigEndianDenotes(n / 256, width - 1);
      assert BigEndian(n, width)[..width - 1] == BigEndian(n / 256, width - 1);
    }
  }

  lemma {:induction false} LittleEndianDenotes(n: nat, width: nat)
    requires n < Power256(width)
    ensures FromLittle(LittleEndian(n, width)) == n
  {
    if width > 0 {
      LittleEndianDenotes(n / 256, width - 1);
      assert LittleEndian(n, width)[1..] == LittleEndian(n / 256, width - 1);
    }
  }

  /** Bytes are the encoding of the number they denote. */
  lemma {:induction false} LittleEndianOf(bytes: Bytes)
    ensures LittleEndian(FromLittle(bytes), |bytes|) == bytes && FromLittle(bytes) < Power256(|bytes|)
  {
    if bytes != [] {
      LittleEndianOf(bytes[1..]);
      var m := FromLittle(bytes[1..]);
      LowByte(bytes[0], m);
      assert LittleEndian(FromLittle(bytes), |bytes|) == [bytes[0]] + LittleEndian(m, |bytes| - 1);
    }
  }

  lemma LowByte(b: Byte, m: nat)
    ensures (b + 256 * m) % 256 == b && (b + 256 * m) / 256 == m
  {
  }
}
