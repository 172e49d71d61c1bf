/** Rust source as a list of lexical items, printed; and what the walk of the two masks
    (scripts/version_domains.py, `rust_code_mask` and `rust_comment_mask`) meets in the
    print: exactly the items, each with its own kind. */
module RustSource {
  import opened Wrappers
  import opened RustMask

  // ----- the items

  /** What stands between the ends of a block comment: characters and further comments. */
  datatype Part = Plain(c: char) | Nested(parts: seq<Part>)

  /** A character of a string, or a backslash and the character it escapes. */
  datatype StringPart = Char(c: char) | Escape(c: char)

  datatype Item =
    | CodeChar(c: char)
    | LineComment(text: string)
    | BlockComment(parts: seq<Part>)
    | Quoted(pieces: seq<StringPart>)
    | RawString(prefix: string, hashes: nat, body: string)
    | Character(c: char)
    | EscapedCharacter(c: char, body: string)

  function PartText(p: Part): string
    decreases p
  {
    match p
    case Plain(c) => [c]
    case Nested(parts) => "/*" + (PartsText(parts) + "*/")
  }

  function PartsText(parts: seq<Part>): string
    decreases parts
  {
    if parts == [] then "" else PartText(parts[0]) + PartsText(parts[1..])
  }

  function StringPartText(p: StringPart): string {
    if p.Char? then [p.c] else ['\\', p.c]
  }

  function StringPartsText(pieces: seq<StringPart>): string {
    if pieces == [] then "" else StringPartText(pieces[0]) + StringPartsText(pieces[1..])
  }

  function Delimiter(n: nat): string { "\"" + Hashes(n) }

  function ItemText(item: Item): string {
    match item
    case CodeChar(c) => [c]
    case LineComment(text) => "//" + text
    case BlockComment(parts) => "/*" + (PartsText(parts) + "*/")
    case Quoted(pieces) => "\"" + (StringPartsText(pieces) + "\"")
    case RawString(prefix, n, body) => prefix + (Hashes(n) + ("\"" + (body + Delimiter(n))))
    case Character(c) => ['\'', c, '\'']
    case EscapedCharacter(c, body) => "'\\" + [c] + body + "'"
  }

  function ItemKind(item: Item): Kind {
    match item
    case CodeChar(_) => Code
    case LineComment(_) => Comment
    case BlockComment(_) => Comment
    case _ => Literal
  }

  function SourceText(items: seq<Item>): string {
    if items == [] then "" else ItemText(items[0]) + SourceText(items[1..])
  }

  function SourceKinds(items: seq<Item>): seq<Kind> {
    if items == [] then [] else Repeat(ItemKind(items[0]), |ItemText(items[0])|) + SourceKinds(items[1..])
  }

  // ----- what keeps items apart

  predicate StartsComment(text: string) { "//" <= text || "/*" <= text }

  /** No plain character of the comment starts an end or a further comment. */
  predicate PartsOk(parts: seq<Part>, rest: string)
    decreases parts
  {
    parts != [] ==>
      var more := PartsText(parts[1..]) + rest;
      PartOk(parts[0], more) && PartsOk(parts[1..], rest)
  }

  predicate PartOk(p: Part, more: string)
    decreases p
  {
    match p
    case Plain(c) => !("/*" <= [c] + more) && !("*/" <= [c] + more)
    case Nested(parts) => PartsOk(parts, "*/" + more)
  }

  predicate StringPartOk(p: StringPart) { p.Char? ==> p.c != '"' && p.c != '\\' }

  /** The text starts like a raw string: a prefix, hashes and a quote. */
  predicate StartsRaw(text: string) {
    exists n: nat :: n <= MAX_HASHES && (RawStart("r", n) <= text || RawStart("br", n) <= text || RawStart("cr", n) <= text)
  }

  function RawStart(prefix: string, n: nat): string { prefix + (Hashes(n) + "\"") }

  /** A quote that starts no literal stands before a lifetime: what follows the next
      character is no quote, and the next character is no backslash. */
  predicate LifetimeQuote(rest: string) {
    |rest| >= 2 ==> rest[0] != '\\' && rest[1] != '\''
  }

  /** The character before is no letter, digit or underscore. */
  predicate Apart(alnum: char -> bool, before: string) {
    before == "" || !(alnum(before[|before| - 1]) || before[|before| - 1] == '_')
  }

  /** The item is one of the language and is not continued by, or part of, what is around it. */
  predicate ItemOk(alnum: char -> bool, before: string, item: Item, rest: string) {
    match item
    case CodeChar(c) =>
      && !StartsComment([c] + rest) && c != '"' && (c == '\'' ==> LifetimeQuote(rest))
      && (Apart(alnum, before) ==> !StartsRaw([c] + rest))
    case LineComment(text) => '\n' !in text && (rest == "" || rest[0] == '\n')
    case BlockComment(parts) => PartsOk(parts, "*/" + rest)
    case Quoted(pieces) => forall i :: 0 <= i < |pieces| ==> StringPartOk(pieces[i])
    case RawString(prefix, n, body) =>
      && prefix in ["r", "br", "cr"] && n <= MAX_HASHES && Apart(alnum, before)
      && forall k :: 0 <= k <= |body| ==> !At(body, Delimiter(n), k)
    case Character(c) => c !in "'\\\n"
    case EscapedCharacter(c, body) => EscapeForm(c, body) && c != '\'' && c != '\\'
  }

  predicate SourceOk(alnum: char -> bool, before: string, items: seq<Item>)
    decreases |items|
  {
    items != [] ==>
      && ItemOk(alnum, before, items[0], SourceText(items[1..]))
      && SourceOk(alnum, before + ItemText(items[0]), items[1..])
  }

  // ----- standing at an offset

  /** From `i` on the text is `text` and then `rest`. */
  predicate Stands(s: string, i: nat, text: string, rest: string) {
    i <= |s| && s[i..] == text + rest
  }

  lemma StandsChars(s: string, i: nat, text: string, rest: string)
    requires Stands(s, i, text, rest)
    ensures |s| == i + |text| + |rest|
    ensures forall k :: 0 <= k < |text| ==> s[i + k] == text[k]
    ensures forall k :: 0 <= k < |rest| ==> s[i + |text| + k] == rest[k]
  {
    var t := s[i..];
    assert forall k :: 0 <= k < |t| ==> t[k] == s[i + k];
    assert forall k :: 0 <= k < |rest| ==> t[|text| + k] == rest[k];
  }

  lemma StandsApart(s: string, i: nat, a: string, b: string, rest: string)
    requires Stands(s, i, a + b, rest)
    ensures Stands(s, i, a, b + rest) && Stands(s, i + |a|, b, rest)
  {
    assert (a + b) + rest == a + (b + rest);
    assert s[i..][|a|..] == s[i + |a|..];
    assert (a + (b + rest))[|a|..] == b + rest;
  }

  lemma StandsWrapped(s: string, i: nat, open: string, body: string, close: string, rest: string, j: nat, k: nat)
    requires Stands(s, i, open + (body + close), rest) && j == i + |open| && k == j + |body|
    ensures Stands(s, i, open, (body + close) + rest) && Stands(s, j, body, close + rest) && Stands(s, k, close, rest)
  {
    hide Stands;
    StandsApart(s, i, open, body + close, rest);
    StandsApart(s, j, body, close, rest);
  }

  // ----- each kind of item

  lemma {:induction false} FindFirst(s: string, text: string, from: nat, at: nat)
    requires from <= at && At(s, text, at) && forall k :: from <= k < at ==> !At(s, text, k)
    ensures Find(s, text, from) == Some(at)
    decreases at - from
  {
    if from < at { FindFirst(s, text, from + 1, at); }
  }

  lemma {:induction false} FindNothing(s: string, text: string, from: nat)
    requires forall k :: from <= k ==> !At(s, text, k)
    ensures Find(s, text, from).None?
    decreases |s| - from
  {
    if from + |text| <= |s| && from < |s| { FindNothing(s, text, from + 1); }
  }

  lemma AtOne(s: string, c: char, k: nat)
    ensures At(s, [c], k) <==> k < |s| && s[k] == c
  {
    if k < |s| { assert s[k..k + 1] == [s[k]]; }
  }

  lemma LineIsMet(s: string, i: nat, text: string, rest: string)
    requires Stands(s, i, "//" + text, rest) && '\n' !in text && (rest == "" || rest[0] == '\n')
    ensures Pair(s, i, '/', '/') && LineEnd(s, i) == i + 2 + |text|
  {
    StandsChars(s, i, "//" + text, rest);
    var end := i + 2 + |text|;
    assert s[i] == '/' && s[i + 1] == '/';
    forall k | i + 2 <= k < end ensures !At(s, "\n", k) {
      AtOne(s, '\n', k);
      assert s[i + (k - i)] == ("//" + text)[k - i] == text[k - i - 2];
    }
    if rest == "" {
      FindNothing(s, "\n", i + 2);
    } else {
      AtOne(s, '\n', end);
      assert s[i + |"//" + text| + 0] == rest[0];
      FindFirst(s, "\n", i + 2, end);
    }
  }

  lemma PlainStep(s: string, i: nat, c: char, rest: string, depth: nat)
    requires Stands(s, i, [c], rest) && depth > 0
    requires !("/*" <= [c] + rest) && !("*/" <= [c] + rest)
    ensures BlockEnd(s, i, depth) == BlockEnd(s, i + 1, depth)
  {
    StandsChars(s, i, [c], rest);
    if rest != "" {
      assert s[i + 1 + 0] == rest[0];
      assert ([c] + rest)[..2] == [c, rest[0]];
    }
  }

  lemma OpenStep(s: string, i: nat, rest: string, depth: nat)
    requires Stands(s, i, "/*", rest) && depth > 0
    ensures Pair(s, i, '/', '*') && BlockEnd(s, i, depth) == BlockEnd(s, i + 2, depth + 1)
  {
    StandsChars(s, i, "/*", rest);
    assert s[i + 0] == '/' && s[i + 1] == '*';
  }

  lemma CloseStep(s: string, i: nat, rest: string, depth: nat)
    requires Stands(s, i, "*/", rest) && depth > 0
    ensures BlockEnd(s, i, depth) == BlockEnd(s, i + 2, depth - 1)
  {
    StandsChars(s, i, "*/", rest);
    assert s[i + 0] == '*' && s[i + 1] == '/';
  }

  /** The inside of a comment, nested comments and all, leaves the depth as it was. */
  lemma {:induction false} PartsSkip(s: string, i: nat, parts: seq<Part>, rest: string, depth: nat)
    requires Stands(s, i, PartsText(parts), rest) && PartsOk(parts, rest) && depth > 0
    ensures BlockEnd(s, i, depth) == BlockEnd(s, i + |PartsText(parts)|, depth)
    decreases parts, 1
  {
    hide BlockEnd;
    hide Stands;
    if parts != [] {
      var first, more := PartText(parts[0]), PartsText(parts[1..]);
      hide PartText;
      hide PartOk;
      var j := i + |first|;
      StandsApart(s, i, first, more, rest);
      PartSkips(s, i, parts[0], more + rest, depth);
      PartsSkip(s, j, parts[1..], rest, depth);
      assert i + |PartsText(parts)| == j + |more|;
    }
  }

  lemma {:induction false} PartSkips(s: string, i: nat, p: Part, rest: string, depth: nat)
    requires Stands(s, i, PartText(p), rest) && PartOk(p, rest) && depth > 0
    ensures BlockEnd(s, i, depth) == BlockEnd(s, i + |PartText(p)|, depth)
    decreases p, 0
  {
    hide BlockEnd;
    hide Stands;
    hide PartsText;
    hide PartsOk;
    hide Pair;
    match p
    case Plain(c) => PlainStep(s, i, c, rest, depth);
    case Nested(parts) =>
      var body := PartsText(parts);
      var j := i + 2;
      var k := j + |body|;
      StandsWrapped(s, i, "/*", body, "*/", rest, j, k);
      OpenStep(s, i, (body + "*/") + rest, depth);
      PartsSkip(s, j, parts, "*/" + rest, depth + 1);
      CloseStep(s, k, rest, depth + 1);
  }

  lemma BlockIsMet(s: string, i: nat, parts: seq<Part>, rest: string)
    requires Stands(s, i, "/*" + (PartsText(parts) + "*/"), rest) && PartsOk(parts, "*/" + rest)
    ensures Pair(s, i, '/', '*') && BlockEnd(s, i + 2, 1) == Some(i + 2 + |PartsText(parts)| + 2)
  {
    hide Stands;
    hide PartsOk;
    hide PartsText;
    hide BlockEnd;
    hide Pair;
    var body := PartsText(parts);
    var j := i + 2;
    var k := j + |body|;
    StandsWrapped(s, i, "/*", body, "*/", rest, j, k);
    OpenStep(s, i, (body + "*/") + rest, 1);
    PartsSkip(s, j, parts, "*/" + rest, 1);
    CloseStep(s, k, rest, 1);
    NoDepth(s, k + 2);
  }

  lemma NoDepth(s: string, i: nat)
    ensures BlockEnd(s, i, 0) == Some(i)
  {
  }

  lemma StringPartSkips(s: string, i: nat, p: StringPart, rest: string)
    requires Stands(s, i, StringPartText(p), rest) && StringPartOk(p)
    ensures StringEnd(s, i) == StringEnd(s, i + |StringPartText(p)|)
  {
    StandsChars(s, i, StringPartText(p), rest);
    assert s[i + 0] == StringPartText(p)[0];
  }

  lemma StringPartsUnfold(pieces: seq<StringPart>)
    ensures StringPartsText(pieces) == if pieces == [] then "" else StringPartText(pieces[0]) + StringPartsText(pieces[1..])
  {
  }

  lemma {:induction false} StringPartsSkip(s: string, i: nat, pieces: seq<StringPart>, rest: string)
    requires Stands(s, i, StringPartsText(pieces), rest) && forall k :: 0 <= k < |pieces| ==> StringPartOk(pieces[k])
    ensures StringEnd(s, i) == StringEnd(s, i + |StringPartsText(pieces)|)
    decreases |pieces|
  {
    hide StringEnd;
    hide Stands;
    StringPartsUnfold(pieces);
    hide StringPartsText;
    if pieces != [] {
      var first, more := StringPartText(pieces[0]), StringPartsText(pieces[1..]);
      hide StringPartText;
      hide StringPartOk;
      var j := i + |first|;
      StandsApart(s, i, first, more, rest);
      StringPartSkips(s, i, pieces[0], more + rest);
      StringPartsSkip(s, j, pieces[1..], rest);
      assert i + |StringPartsText(pieces)| == j + |more|;
    }
  }

  lemma StringIsMet(s: string, i: nat, pieces: seq<StringPart>, rest: string)
    requires Stands(s, i, "\"" + (StringPartsText(pieces) + "\""), rest)
    requires forall k :: 0 <= k < |pieces| ==> StringPartOk(pieces[k])
    ensures i < |s| && s[i] == '"' && StringEnd(s, i + 1) == Some(i + 1 + |StringPartsText(pieces)| + 1)
  {
    hide Stands;
    hide StringPartsText;
    hide StringEnd;
    var body := StringPartsText(pieces);
    var j := i + 1;
    var k := j + |body|;
    StandsWrapped(s, i, "\"", body, "\"", rest, j, k);
    QuoteStep(s, i, (body + "\"") + rest);
    StringPartsSkip(s, j, pieces, "\"" + rest);
    QuoteStep(s, k, rest);
  }

  lemma QuoteStep(s: string, i: nat, rest: string)
    requires Stands(s, i, "\"", rest)
    ensures i < |s| && s[i] == '"' && StringEnd(s, i) == Some(i + 1)
  {
    StandsChars(s, i, "\"", rest);
    assert s[i + 0] == '"';
  }

  lemma {:induction false} HashRunIs(s: string, i: nat, n: nat)
    requires i + n < |s| && s[i + n] != '#' && forall j :: i <= j < i + n ==> s[j] == '#'
    ensures HashRun(s, i) == n
    decreases n
  {
    if n > 0 { HashRunIs(s, i + 1, n - 1); }
  }

  /** A prefix, hashes and a quote are a raw opener. */
  lemma RawStartOpens(s: string, i: nat, prefix: string, n: nat, rest: string)
    requires prefix in ["r", "br", "cr"] && n <= MAX_HASHES && Stands(s, i, RawStart(prefix, n), rest)
    ensures RawOpen(s, i) == Some(RawOpener(i + |prefix| + n + 1, n))
    ensures i < |s| && s[i] in "rbc"
  {
    var text := RawStart(prefix, n);
    StandsChars(s, i, text, rest);
    assert s[i + 0] == text[0] == prefix[0];
    if |prefix| == 2 { assert s[i + 1] == text[1] == prefix[1]; }
    forall j | i + |prefix| <= j < i + |prefix| + n ensures s[j] == '#' {
      assert s[i + (j - i)] == text[j - i] == Hashes(n)[j - i - |prefix|];
    }
    assert s[i + (|prefix| + n)] == text[|prefix| + n] == '"';
    HashRunIs(s, i + |prefix|, n);
  }

  /** And a raw opener is nothing else. */
  lemma RawOpenStarts(s: string, i: nat)
    requires i < |s| && RawOpen(s, i).Some?
    ensures StartsRaw(s[i..])
  {
    var raw := RawOpen(s, i).value;
    var n := raw.hashes;
    if Pair(s, i, 'b', 'r') || Pair(s, i, 'c', 'r') {
      var prefix := [s[i], 'r'];
      assert s[i..][..n + 3] == RawStart(prefix, n);
      assert RawStart(prefix, n) <= s[i..];
    } else {
      assert s[i..][..n + 2] == RawStart("r", n);
      assert RawStart("r", n) <= s[i..];
    }
  }

  lemma RawIsMet(s: string, i: nat, prefix: string, n: nat, body: string, rest: string)
    requires Stands(s, i, prefix + (Hashes(n) + ("\"" + (body + Delimiter(n)))), rest)
    requires prefix in ["r", "br", "cr"] && n <= MAX_HASHES
    requires forall k :: 0 <= k <= |body| ==> !At(body, Delimiter(n), k)
    ensures i < |s| && s[i] in "rbc" && RawOpen(s, i).Some?
    ensures RawToken(s, RawOpen(s, i).value) == Piece(Literal, i + |prefix| + 2 * n + 2 + |body|)
  {
    hide Stands;
    hide At;
    hide RawOpen;
    var inside := body + Delimiter(n);
    RawGroups(prefix, n, inside);
    StandsApart(s, i, RawStart(prefix, n), inside, rest);
    RawStartOpens(s, i, prefix, n, inside + rest);
    hide RawStart;
    var start := i + |prefix| + n + 1;
    DelimiterIsFirst(s, start, body, n, rest);
    FindFirst(s, Delimiter(n), start, start + |body|);
  }

  lemma RawGroups(prefix: string, n: nat, inside: string)
    ensures prefix + (Hashes(n) + ("\"" + inside)) == RawStart(prefix, n) + inside
    ensures |RawStart(prefix, n)| == |prefix| + n + 1
  {
  }

  lemma DelimiterIsFirst(s: string, start: nat, body: string, n: nat, rest: string)
    requires Stands(s, start, body + Delimiter(n), rest)
    requires forall k :: 0 <= k <= |body| ==> !At(body, Delimiter(n), k)
    ensures At(s, Delimiter(n), start + |body|)
    ensures forall k :: start <= k < start + |body| ==> !At(s, Delimiter(n), k)
  {
    var text, end := body + Delimiter(n), start + |body|;
    StandsChars(s, start, text, rest);
    forall j | 0 <= j <= n ensures s[end + j] == Delimiter(n)[j] {
      assert s[start + (|body| + j)] == text[|body| + j];
    }
    assert s[end..end + n + 1] == Delimiter(n);
    forall k | start <= k < end ensures !At(s, Delimiter(n), k) {
      if At(s, Delimiter(n), k) {
        EarlierIsInside(s, start, body, n, k);
      }
    }
  }

  /** A delimiter that starts in the body ends in it: the quote that ends the body is no hash. */
  lemma EarlierIsInside(s: string, start: nat, body: string, n: nat, k: nat)
    requires start + |body| + n + 1 <= |s| && start <= k < start + |body| && At(s, Delimiter(n), k)
    requires forall j :: 0 <= j < |body| ==> s[start + j] == body[j]
    requires s[start + |body|] == '"'
    ensures At(body, Delimiter(n), k - start)
  {
    var seen := s[k..k + n + 1];
    assert seen == Delimiter(n);
    assert forall m :: k < m <= k + n ==> s[m] == seen[m - k] == '#';
    assert body[k - start..k - start + n + 1] == seen;
  }

  lemma CharacterIsMet(s: string, i: nat, c: char, rest: string)
    requires Stands(s, i, ['\'', c, '\''], rest)
    ensures i < |s| && s[i] == '\'' && CharEnd(s, i) == Some(i + 3)
  {
    StandsChars(s, i, ['\'', c, '\''], rest);
    assert s[i + 0] == '\'' && s[i + 2] == '\'';
  }

  lemma EscapedIsMet(s: string, i: nat, c: char, body: string, rest: string)
    requires Stands(s, i, "'\\" + [c] + body + "'", rest) && EscapeForm(c, body) && c != '\'' && c != '\\'
    ensures i < |s| && s[i] == '\'' && CharEnd(s, i) == Some(i + 4 + |body|)
  {
    var text := "'\\" + [c] + body + "'";
    StandsChars(s, i, text, rest);
    assert s[i..i + |text|] == text;
    EscapedLiteralChars(s, i, c, body);
    EscapeReadExactly(s, i, c, body);
  }

  /** A character of code opens nothing. */
  lemma CodeIsMet(alnum: char -> bool, s: string, i: nat, before: string, c: char, rest: string)
    requires Stands(s, i, [c], rest) && s[..i] == before && ItemOk(alnum, before, CodeChar(c), rest)
    ensures TokenAt(alnum, s, i) == Piece(Code, i + 1)
  {
    StandsChars(s, i, [c], rest);
    assert s[i + 0] == c;
    DetachedIsApart(alnum, s, i);
    if RawOpen(s, i).Some? { RawOpenStarts(s, i); }
    hide StartsRaw;
    hide RawOpen;
    hide Detached;
    hide Apart;
    NoComment(s, i, c, rest);
    hide Pair;
    if c == '\'' { NoCharacter(s, i, rest); }
  }

  lemma NoComment(s: string, i: nat, c: char, rest: string)
    requires Stands(s, i, [c], rest) && !StartsComment([c] + rest)
    ensures !Pair(s, i, '/', '/') && !Pair(s, i, '/', '*')
  {
    StandsChars(s, i, [c], rest);
    assert s[i + 0] == c;
    if rest != "" {
      assert s[i + 1 + 0] == rest[0];
      assert ([c] + rest)[..2] == [c, rest[0]];
    }
  }

  lemma NoCharacter(s: string, i: nat, rest: string)
    requires Stands(s, i, "'", rest) && LifetimeQuote(rest)
    ensures CharEnd(s, i).None?
  {
    StandsChars(s, i, "'", rest);
    if |rest| >= 2 { assert s[i + 1 + 0] == rest[0] && s[i + 1 + 1] == rest[1]; }
  }

  lemma CommentToken(alnum: char -> bool, s: string, i: nat)
    requires i < |s|
    ensures Pair(s, i, '/', '/') ==> TokenAt(alnum, s, i) == Piece(Comment, LineEnd(s, i))
    ensures Pair(s, i, '/', '*') && BlockEnd(s, i + 2, 1).Some? ==>
      TokenAt(alnum, s, i) == Piece(Comment, BlockEnd(s, i + 2, 1).value)
  {
    hide RawOpen;
    hide LineEnd;
    hide BlockEnd;
  }

  lemma QuotedToken(alnum: char -> bool, s: string, i: nat)
    requires i < |s|
    ensures s[i] == '"' && StringEnd(s, i + 1).Some? ==> TokenAt(alnum, s, i) == Piece(Literal, StringEnd(s, i + 1).value)
    ensures s[i] == '\'' && CharEnd(s, i).Some? ==> TokenAt(alnum, s, i) == Piece(Literal, CharEnd(s, i).value)
  {
    if RawOpen(s, i).Some? { RawOpensWithLetter(s, i); }
    hide RawOpen;
    hide StringEnd;
    hide CharEnd;
  }

  lemma RawStringToken(alnum: char -> bool, s: string, i: nat)
    requires i < |s| && s[i] in "rbc" && RawOpen(s, i).Some? && Detached(alnum, s, i)
    ensures TokenAt(alnum, s, i) == RawToken(s, RawOpen(s, i).value)
  {
    hide RawOpen;
    hide RawToken;
    hide Detached;
  }

  lemma DetachedIsApart(alnum: char -> bool, s: string, i: nat)
    requires i <= |s|
    ensures Detached(alnum, s, i) <==> Apart(alnum, s[..i])
  {
  }

  /** Wherever an item stands, the walk meets it whole. */
  lemma ItemIsMet(alnum: char -> bool, s: string, i: nat, before: string, item: Item, rest: string)
    requires Stands(s, i, ItemText(item), rest) && s[..i] == before && ItemOk(alnum, before, item, rest)
    ensures ItemText(item) != "" && i < |s|
    ensures TokenAt(alnum, s, i) == Piece(ItemKind(item), i + |ItemText(item)|)
  {
    StandsChars(s, i, ItemText(item), rest);
    hide Stands;
    hide TokenAt;
    hide LineEnd;
    hide BlockEnd;
    hide StringEnd;
    hide CharEnd;
    hide RawOpen;
    hide RawToken;
    hide StartsRaw;
    hide Pair;
    hide Apart;
    hide Detached;
    match item
    case CodeChar(c) => CodeIsMet(alnum, s, i, before, c, rest);
    case LineComment(text) =>
      LineIsMet(s, i, text, rest);
      CommentToken(alnum, s, i);
    case BlockComment(parts) =>
      BlockIsMet(s, i, parts, rest);
      CommentToken(alnum, s, i);
    case Quoted(pieces) =>
      StringIsMet(s, i, pieces, rest);
      QuotedToken(alnum, s, i);
    case RawString(prefix, n, body) =>
      RawIsMet(s, i, prefix, n, body, rest);
      DetachedIsApart(alnum, s, i);
      RawStringToken(alnum, s, i);
    case Character(c) =>
      CharacterIsMet(s, i, c, rest);
      QuotedToken(alnum, s, i);
    case EscapedCharacter(c, body) =>
      EscapedIsMet(s, i, c, body, rest);
      QuotedToken(alnum, s, i);
  }

  // ----- whole sources

  lemma {:induction false} SourceFrom(alnum: char -> bool, s: string, i: nat, items: seq<Item>)
    requires Stands(s, i, SourceText(items), "") && SourceOk(alnum, s[..i], items)
    ensures Marks(alnum, s, i) == Some(SourceKinds(items))
    decreases |items|
  {
    hide TokenAt;
    hide ItemOk;
    hide ItemText;
    if items == [] {
      StandsChars(s, i, "", "");
    } else {
      var text, more := ItemText(items[0]), SourceText(items[1..]);
      StandsApart(s, i, text, more, "");
      assert more + "" == more;
      ItemIsMet(alnum, s, i, s[..i], items[0], more);
      StandsChars(s, i, text, more);
      assert s[..i + |text|] == s[..i] + text;
      SourceFrom(alnum, s, i + |text|, items[1..]);
    }
  }

  /** In the print of any list of items the walk meets exactly those items: the marks are
      their kinds, and the masks blank exactly what is to be blanked. */
  lemma SourceIsMarked(alnum: char -> bool, items: seq<Item>)
    requires SourceOk(alnum, "", items)
    ensures Marks(alnum, SourceText(items), 0) == Some(SourceKinds(items))
  {
    var s := SourceText(items);
    assert s[0..] == s + "" && s[..0] == "";
    SourceFrom(alnum, s, 0, items);
  }
}
