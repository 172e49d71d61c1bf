/** Stable release tags and their numeric versions (scripts/finalize_release.py,
    `stable_tag_version`). */
module ReleaseVersion {
  import opened Wrappers
  import opened Decimal
  import opened Numerals

  datatype Version = Version(major: nat, minor: nat, patch: nat)

  predicate Less(a: Version, b: Version) {
    || a.major < b.major
    || (a.major == b.major && a.minor < b.minor)
    || (a.major == b.major && a.minor == b.minor && a.patch < b.patch)
  }

  /** `n` is greater than every component. */
  predicate Above(n: nat, v: Version) { v.major < n && v.minor < n && v.patch < n }

  /** `x` with one more digit, to the base `n`. */
  function Digit(n: nat, x: nat, y: nat): nat { x * n + y }

  /** The three components as the digits of one number, to the base `n`. */
  function Number(n: nat, v: Version): nat { Digit(n, Digit(n, v.major, v.minor), v.patch) }

  /** Versions are ordered as numbers, to any base above their components: the major number
      counts most, then the minor, then the patch. */
  lemma LessByNumber(a: Version, b: Version, n: nat)
    requires Above(n, a) && Above(n, b)
    ensures Less(a, b) <==> Number(n, a) < Number(n, b)
  {
    hide Digit;
    DigitsCompare(n, a.major, a.minor, b.major, b.minor);
    DigitsCompare(n, Digit(n, a.major, a.minor), a.patch, Digit(n, b.major, b.minor), b.patch);
  }

  lemma DigitsCompare(n: nat, x: nat, y: nat, u: nat, v: nat)
    requires y < n && v < n
    ensures Digit(n, x, y) < Digit(n, u, v) <==> x < u || (x == u && y < v)
    ensures Digit(n, x, y) == Digit(n, u, v) <==> x == u && y == v
  {
    if x < u {
      assert (x + 1) * n <= u * n;
    } else if u < x {
      assert (u + 1) * n <= x * n;
    }
  }

  /** A numeral at the front of `s` and what follows it. */
  function Numeral(s: string): (r: Option<(string, string)>)
    ensures r.Some? ==> IsNumeral(r.value.0) && s == r.value.0 + r.value.1
  {
    var n := DigitRun(s);
    if IsNumeral(s[..n]) then Some((s[..n], s[n..])) else None
  }

  /** The version of a tag `v<major>.<minor>.<patch>`; None is not a stable tag. */
  function StableTagVersion(tag: string): Option<Version> {
    if tag == "" || tag[0] != 'v' then None
    else
      var a := Numeral(tag[1..]);
      if a.None? || a.value.1 == "" || a.value.1[0] != '.' then None
      else
        var b := Numeral(a.value.1[1..]);
        if b.None? || b.value.1 == "" || b.value.1[0] != '.' then None
        else
          var c := Numeral(b.value.1[1..]);
          if c.None? || c.value.1 != "" then None
          else Some(Version(Value(a.value.0), Value(b.value.0), Value(c.value.0)))
  }

  function VersionText(major: string, minor: string, patch: string): string {
    "v" + major + "." + minor + "." + patch
  }

  lemma TagText(tag: string) returns (a: string, b: string, c: string)
    requires StableTagVersion(tag).Some?
    ensures IsNumeral(a) && IsNumeral(b) && IsNumeral(c) && tag == VersionText(a, b, c)
    ensures StableTagVersion(tag) == Some(Version(Value(a), Value(b), Value(c)))
  {
    hide Numeral;
    hide IsNumeral;
    hide Value;
    var x := Numeral(tag[1..]).value;
    var y := Numeral(x.1[1..]).value;
    var z := Numeral(y.1[1..]).value;
    a, b, c := x.0, y.0, z.0;
    Joins(b, y.1, c);
    Joins(a, x.1, b + "." + c);
    assert tag == "v" + tag[1..] && tag[1..] == a + ("." + (b + "." + c));
    assert "v" + (a + ("." + (b + "." + c))) == VersionText(a, b, c);
  }

  lemma Joins(a: string, rest: string, b: string)
    requires rest != "" && rest[0] == '.' && rest[1..] == b
    ensures a + rest == a + "." + b
  {
  }

  /** Two stable tags with the same version are the same tag, so an inventory without
      repeated tags never repeats a stable version. */
  lemma VersionTellsTagsApart(s: string, t: string)
    requires StableTagVersion(s).Some? && StableTagVersion(s) == StableTagVersion(t)
    ensures s == t
  {
    hide StableTagVersion;
    var a, b, c := TagText(s);
    var x, y, z := TagText(t);
    NumeralTellsApart(a, x);
    NumeralTellsApart(b, y);
    NumeralTellsApart(c, z);
  }

  lemma ReadsNumeral(a: string, rest: string)
    requires IsNumeral(a) && (rest == "" || rest[0] == '.')
    ensures Numeral(a + rest) == Some((a, rest))
  {
    RunStops(a, rest);
    assert (a + rest)[..|a|] == a && (a + rest)[|a|..] == rest;
  }

  /** Three numerals make a stable tag, and it denotes their values. */
  lemma TagReadsBack(a: string, b: string, c: string)
    requires IsNumeral(a) && IsNumeral(b) && IsNumeral(c)
    ensures StableTagVersion(VersionText(a, b, c)) == Some(Version(Value(a), Value(b), Value(c)))
  {
    hide Numeral;
    hide IsNumeral;
    hide Value;
    var tag := VersionText(a, b, c);
    var last := "." + c;
    var middle := "." + (b + last);
    assert tag[1..] == a + middle;
    ReadsNumeral(a, middle);
    assert middle[1..] == b + last;
    ReadsNumeral(b, last);
    assert last[1..] == c + "";
    ReadsNumeral(c, "");
  }
}
