/** Bits and prefixes of lowercase hexadecimal digests
    (crates/cymule-authenticated-collections/src/hash.rs). */
module HashPrefix {
  import opened Wrappers

  const DIGEST_CHARS: nat := 64
  const DIGEST_BITS: nat := 256

  predicate IsLowerHex(c: char) { '0' <= c <= '9' || 'a' <= c <= 'f' }

  predicate IsDigest(s: string) {
    |s| == DIGEST_CHARS && forall i :: 0 <= i < DIGEST_CHARS ==> IsLowerHex(s[i])
  }

  function HexValue(c: char): (n: nat)
    requires IsLowerHex(c)
    ensures n < 16
  {
    if c <= '9' then c as int - '0' as int else c as int - 'a' as int + 10
  }

  function HexDigit(n: nat): (c: char)
    requires n < 16
    ensures IsLowerHex(c) && HexValue(c) == n
  {
    "0123456789abcdef"[n]
  }

  /** Bit `b` of a nibble, the highest first. */
  function NibbleBit(n: nat, b: nat): bool
    requires n < 16 && b < 4
  {
    match b
    case 0 => n >= 8
    case 1 => n % 8 >= 4
    case 2 => n % 4 >= 2
    case _ => n % 2 == 1
  }

  /** The nibble with all but its first `r` bits cleared. */
  function MaskNibble(n: nat, r: nat): (m: nat)
    requires n < 16 && r < 4
    ensures m < 16
  {
    match r
    case 0 => 0
    case 1 => n - n % 8
    case 2 => n - n % 4
    case _ => n - n % 2
  }

  function Bit(value: string, depth: nat): bool
    requires IsDigest(value) && depth < DIGEST_BITS
  {
    NibbleBit(HexValue(value[depth / 4]), depth % 4)
  }

  /** None is a validation error. */
  function HashBit(value: string, depth: nat): Option<bool> {
    if depth >= DIGEST_BITS || !IsDigest(value) then None else Some(Bit(value, depth))
  }

  // ----- common prefixes

  ghost predicate Agree(a: string, b: string, depth: nat)
    requires IsDigest(a) && IsDigest(b) && depth <= DIGEST_BITS
  {
    forall j :: 0 <= j < depth ==> Bit(a, j) == Bit(b, j)
  }

  /** The number of leading bits two digests share. */
  function Common(a: string, b: string): (d: nat)
    requires IsDigest(a) && IsDigest(b)
    ensures d <= DIGEST_BITS && Agree(a, b, d)
    ensures d < DIGEST_BITS ==> Bit(a, d) != Bit(b, d)
  {
    CommonFrom(a, b, 0)
  }

  function CommonFrom(a: string, b: string, from: nat): (d: nat)
    requires IsDigest(a) && IsDigest(b) && from <= DIGEST_BITS && Agree(a, b, from)
    ensures from <= d <= DIGEST_BITS && Agree(a, b, d)
    ensures d < DIGEST_BITS ==> Bit(a, d) != Bit(b, d)
    decreases DIGEST_BITS - from
  {
    if from == DIGEST_BITS || Bit(a, from) != Bit(b, from) then from else CommonFrom(a, b, from + 1)
  }

  method CommonPrefixBits(left: string, right: string) returns (r: Option<nat>)
    ensures r == if IsDigest(left) && IsDigest(right) then Some(Common(left, right)) else None
  {
    if !IsDigest(left) || !IsDigest(right) { return None; }
    for depth := 0 to DIGEST_BITS
      invariant Agree(left, right, depth)
      invariant Common(left, right) >= depth
    {
      var a, b := HashBit(left, depth), HashBit(right, depth);
      if a != b { return Some(depth); }
    }
    r := Some(DIGEST_BITS);
  }

  // ----- normalized prefixes

  /** The digest with every bit from `depth` on cleared. */
  function Prefix(value: string, depth: nat): (p: string)
    requires IsDigest(value) && depth < DIGEST_BITS
    ensures IsDigest(p)
  {
    seq(DIGEST_CHARS, i requires 0 <= i < DIGEST_CHARS =>
      if i < depth / 4 then value[i]
      else if i == depth / 4 then HexDigit(MaskNibble(HexValue(value[i]), depth % 4))
      else '0')
  }

  /** Edits a copy of the bytes in place: masks the nibble the depth falls in, then
      clears everything after it. */
  method NormalizedHashPrefix(value: string, depth: nat) returns (r: Option<string>)
    ensures r == if IsDigest(value) && depth < DIGEST_BITS then Some(Prefix(value, depth)) else None
  {
    if !IsDigest(value) || depth >= DIGEST_BITS { return None; }
    var output := new char[DIGEST_CHARS](i requires 0 <= i < DIGEST_CHARS => value[i]);
    var fullNibbles, remainingBits := depth / 4, depth % 4;
    if remainingBits > 0 {
      var nibble := HexValue(output[fullNibbles]);
      output[fullNibbles] := HexDigit(MaskNibble(nibble, remainingBits));
    }
    var clearFrom := fullNibbles + if remainingBits > 0 then 1 else 0;
    for i := clearFrom to DIGEST_CHARS
      invariant forall k :: 0 <= k < fullNibbles ==> output[k] == value[k]
      invariant remainingBits > 0 ==> output[fullNibbles] == HexDigit(MaskNibble(HexValue(value[fullNibbles]), remainingBits))
      invariant forall k :: clearFrom <= k < i ==> output[k] == '0'
    {
      output[i] := '0';
    }
    assert output[..] == Prefix(value, depth);
    r := Some(output[..]);
  }

  function HashMatchesPrefix(hash: string, prefix: string, depth: nat): Option<bool> {
    if !IsDigest(hash) || depth >= DIGEST_BITS then None else Some(Prefix(hash, depth) == prefix)
  }

  // ----- the algebra of prefixes

  lemma NibbleByBits(m: nat, n: nat)
    requires m < 16 && n < 16
    requires forall b :: 0 <= b < 4 ==> NibbleBit(m, b) == NibbleBit(n, b)
    ensures m == n
  {
    assert NibbleBit(m, 0) == NibbleBit(n, 0);
    assert NibbleBit(m, 1) == NibbleBit(n, 1);
    assert NibbleBit(m, 2) == NibbleBit(n, 2);
    assert NibbleBit(m, 3) == NibbleBit(n, 3);
  }

  lemma MaskedBits(n: nat, r: nat, b: nat)
    requires n < 16 && r < 4 && b < 4
    ensures NibbleBit(MaskNibble(n, r), b) == (b < r && NibbleBit(n, b))
  {
    var m := MaskNibble(n, r);
    if r == 1 { assert m == 0 || m == 8; } else if r == 2 { assert m % 4 == 0; }
  }

  lemma HexByValue(c: char, d: char)
    requires IsLowerHex(c) && IsLowerHex(d) && HexValue(c) == HexValue(d)
    ensures c == d
  {
  }

  /** A digest is its bits. */
  lemma DigestByBits(a: string, b: string)
    requires IsDigest(a) && IsDigest(b) && Agree(a, b, DIGEST_BITS)
    ensures a == b
  {
    forall i | 0 <= i < DIGEST_CHARS ensures a[i] == b[i] {
      forall k | 0 <= k < 4 ensures NibbleBit(HexValue(a[i]), k) == NibbleBit(HexValue(b[i]), k) {
        assert Bit(a, 4 * i + k) == Bit(b, 4 * i + k);
        assert (4 * i + k) / 4 == i && (4 * i + k) % 4 == k;
      }
      NibbleByBits(HexValue(a[i]), HexValue(b[i]));
      HexByValue(a[i], b[i]);
    }
  }

  /** Normalizing keeps the bits below the depth and clears the rest. */
  lemma PrefixBits(value: string, depth: nat, j: nat)
    requires IsDigest(value) && depth < DIGEST_BITS && j < DIGEST_BITS
    ensures Bit(Prefix(value, depth), j) == (j < depth && Bit(value, j))
  {
    if j / 4 == depth / 4 {
      MaskedBits(HexValue(value[j / 4]), depth % 4, j % 4);
    }
  }

  /** Two digests have the same normalized prefix exactly when they share that many bits. */
  lemma MatchesExactly(a: string, b: string, depth: nat)
    requires IsDigest(a) && IsDigest(b) && depth < DIGEST_BITS
    ensures HashMatchesPrefix(a, Prefix(b, depth), depth) == Some(Common(a, b) >= depth)
    ensures Prefix(a, depth) == Prefix(b, depth) <==> Agree(a, b, depth)
    ensures Common(a, b) >= depth <==> Agree(a, b, depth)
  {
    forall j | 0 <= j < DIGEST_BITS
      ensures Bit(Prefix(a, depth), j) == (j < depth && Bit(a, j))
      ensures Bit(Prefix(b, depth), j) == (j < depth && Bit(b, j))
    {
      PrefixBits(a, depth, j);
      PrefixBits(b, depth, j);
    }
    if Agree(a, b, depth) {
      DigestByBits(Prefix(a, depth), Prefix(b, depth));
    }
  }

  /** Normalizing twice is normalizing at the smaller depth. */
  lemma PrefixNests(value: string, d: nat, e: nat)
    requires IsDigest(value) && d < DIGEST_BITS && e < DIGEST_BITS
    ensures Prefix(Prefix(value, d), e) == Prefix(value, if d < e then d else e)
  {
    var m := if d < e then d else e;
    forall j | 0 <= j < DIGEST_BITS ensures Bit(Prefix(Prefix(value, d), e), j) == Bit(Prefix(value, m), j) {
      PrefixBits(Prefix(value, d), e, j);
      PrefixBits(value, d, j);
      PrefixBits(value, m, j);
    }
    DigestByBits(Prefix(Prefix(value, d), e), Prefix(value, m));
  }

  /** Of the three common-prefix lengths between three digests, the two least are equal. */
  lemma Ultrametric(a: string, b: string, c: string)
    requires IsDigest(a) && IsDigest(b) && IsDigest(c)
    ensures Common(a, c) >= Common(a, b) || Common(a, c) >= Common(b, c)
    ensures Common(a, b) == Common(b, a)
    ensures Common(a, b) < Common(b, c) ==> Common(a, c) == Common(a, b)
  {
    hide Bit;
    hide IsDigest;
    hide Common;
    hide CommonFrom;
    var d := if Common(a, b) < Common(b, c) then Common(a, b) else Common(b, c);
    assert Agree(a, c, d);
  }

  /** Byte order on strings. */
  predicate Before(a: string, b: string) {
    if b == "" then false
    else if a == "" then true
    else a[0] < b[0] || (a[0] == b[0] && Before(a[1..], b[1..]))
  }

  lemma {:induction false} BeforeAt(a: string, b: string, i: nat)
    requires i < |a| && i < |b| && a[..i] == b[..i] && a[i] != b[i]
    ensures Before(a, b) <==> a[i] < b[i]
    decreases i
  {
    if i > 0 {
      assert a[0] == a[..i][0] && b[0] == b[..i][0];
      assert a[1..][..i - 1] == a[..i][1..] && b[1..][..i - 1] == b[..i][1..];
      BeforeAt(a[1..], b[1..], i - 1);
    }
  }

  lemma NibbleOrder(m: nat, n: nat, b: nat)
    requires m < 16 && n < 16 && b < 4
    requires forall k :: 0 <= k < b ==> NibbleBit(m, k) == NibbleBit(n, k)
    requires NibbleBit(m, b) != NibbleBit(n, b)
    ensures m < n <==> NibbleBit(n, b)
  {
    assert b > 0 ==> NibbleBit(m, 0) == NibbleBit(n, 0);
    assert b > 1 ==> NibbleBit(m, 1) == NibbleBit(n, 1);
    assert b > 2 ==> NibbleBit(m, 2) == NibbleBit(n, 2);
  }

  /** The first differing bit decides the string order. */
  lemma OrderByBit(a: string, b: string)
    requires IsDigest(a) && IsDigest(b) && Common(a, b) < DIGEST_BITS
    ensures Before(a, b) <==> Bit(b, Common(a, b))
    ensures a != b
  {
    var d := Common(a, b);
    var i := d / 4;
    forall k | 0 <= k < i ensures a[k] == b[k] {
      forall m | 0 <= m < 4 ensures NibbleBit(HexValue(a[k]), m) == NibbleBit(HexValue(b[k]), m) {
        assert Bit(a, 4 * k + m) == Bit(b, 4 * k + m);
        assert (4 * k + m) / 4 == k && (4 * k + m) % 4 == m;
      }
      NibbleByBits(HexValue(a[k]), HexValue(b[k]));
      HexByValue(a[k], b[k]);
    }
    assert a[..i] == b[..i];
    forall m | 0 <= m < d % 4 ensures NibbleBit(HexValue(a[i]), m) == NibbleBit(HexValue(b[i]), m) {
      assert Bit(a, 4 * i + m) == Bit(b, 4 * i + m);
      assert (4 * i + m) / 4 == i && (4 * i + m) % 4 == m;
    }
    NibbleOrder(HexValue(a[i]), HexValue(b[i]), d % 4);
    BeforeAt(a, b, i);
  }
}
