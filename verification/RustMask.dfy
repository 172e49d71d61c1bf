/** The two masks over Rust source text (scripts/version_domains.py, `rust_code_mask`
    and `rust_comment_mask`). `alnum` stands for the library's test of letters and
    digits. */
module RustMask {
  import opened Wrappers

  datatype Kind = Code | Comment | Literal
  datatype Token = Piece(kind: Kind, end: nat) | Unterminated

  predicate At(s: string, text: string, i: nat) {
    i + |text| <= |s| && s[i..i + |text|] == text
  }

  /** The two characters `a`, `b` stand at `i`. */
  predicate Pair(s: string, i: nat, a: char, b: char) {
    i + 1 < |s| && s[i] == a && s[i + 1] == b
  }

  /** The first occurrence of `text` from `from` on. */
  function Find(s: string, text: string, from: nat): (r: Option<nat>)
    ensures r.Some? ==> from <= r.value && At(s, text, r.value)
    decreases |s| - from
  {
    if from + |text| > |s| then None
    else if At(s, text, from) then Some(from)
    else if from == |s| then None
    else Find(s, text, from + 1)
  }

  // ----- tokens

  /** The last character of a block comment or a literal. */
  predicate Closer(c: char) { c == '/' || c == '"' || c == '#' || c == '\'' }

  function LineEnd(s: string, i: nat): (end: nat)
    requires i + 2 <= |s|
    ensures i < end <= |s|
    ensures end < |s| ==> s[end] == '\n'
  {
    var r := Find(s, "\n", i + 2);
    if r.None? then |s| else r.value
  }

  /** Where the block comment ends that is `depth` deep at `i`. */
  function BlockEnd(s: string, i: nat, depth: nat): (r: Option<nat>)
    ensures r.Some? ==> i <= r.value <= |s| || depth == 0
    ensures r.Some? && depth > 0 ==> i + 2 <= r.value && Pair(s, r.value - 2, '*', '/')
    decreases |s| - i
  {
    if depth == 0 then Some(i)
    else if i >= |s| then None
    else if Pair(s, i, '/', '*') then BlockEnd(s, i + 2, depth + 1)
    else if Pair(s, i, '*', '/') then BlockEnd(s, i + 2, depth - 1)
    else BlockEnd(s, i + 1, depth)
  }

  function HashRun(s: string, i: nat): (n: nat)
    ensures n > 0 ==> i + n <= |s|
    ensures forall j :: i <= j < i + n ==> s[j] == '#'
    ensures i + n < |s| ==> s[i + n] != '#'
    decreases |s| - i
  {
    if i < |s| && s[i] == '#' then 1 + HashRun(s, i + 1) else 0
  }

  function Hashes(n: nat): string { seq(n, _ => '#') }

  const MAX_HASHES: nat := 255

  datatype RawOpener = RawOpener(body: nat, hashes: nat)

  predicate RawChar(c: char) { c in {'b', 'c', 'r', '#', '"'} }

  /** `br`, `cr` or `r`, then at most 255 hashes, then a quote. */
  function RawOpen(s: string, i: nat): (r: Option<RawOpener>)
    ensures r.Some? ==> i < r.value.body <= |s| && s[r.value.body - 1] == '"'
    ensures r.Some? ==> forall j :: i <= j < r.value.body ==> RawChar(s[j])
  {
    var letters := if Pair(s, i, 'b', 'r') || Pair(s, i, 'c', 'r') then 2 else if i < |s| && s[i] == 'r' then 1 else 0;
    var n := HashRun(s, i + letters);
    if letters > 0 && n <= MAX_HASHES && i + letters + n < |s| && s[i + letters + n] == '"'
    then Some(RawOpener(i + letters + n + 1, n))
    else None
  }

  predicate Detached(alnum: char -> bool, s: string, i: nat)
    requires i <= |s|
  {
    i == 0 || !(alnum(s[i - 1]) || s[i - 1] == '_')
  }

  function StringEnd(s: string, i: nat): (r: Option<nat>)
    ensures r.Some? ==> i < r.value <= |s| && s[r.value - 1] == '"'
    decreases |s| - i
  {
    if i >= |s| then None
    else if s[i] == '\\' then StringEnd(s, i + 2)
    else if s[i] == '"' then Some(i + 1)
    else StringEnd(s, i + 1)
  }

  /** The first quote from `cursor` on, on the same line, with no backslash before it. */
  function EscapeEnd(s: string, cursor: nat): (r: Option<nat>)
    requires cursor > 0
    ensures r.Some? ==> cursor < r.value <= |s| && s[r.value - 1] == '\''
    decreases |s| - cursor
  {
    if cursor >= |s| || s[cursor] == '\n' then None
    else if s[cursor] == '\'' && s[cursor - 1] != '\\' then Some(cursor + 1)
    else EscapeEnd(s, cursor + 1)
  }

  function CharEnd(s: string, i: nat): (r: Option<nat>)
    ensures r.Some? ==> i + 2 < r.value <= |s| && s[r.value - 1] == '\''
  {
    if i + 2 < |s| && s[i + 2] == '\'' then Some(i + 3)
    else if i + 2 < |s| && s[i + 1] == '\\' then EscapeEnd(s, i + 2)
    else None
  }

  function RawToken(s: string, raw: RawOpener): (t: Token)
    requires raw.body <= |s|
    ensures t.Piece? ==> t.kind == Literal && raw.body < t.end <= |s| && Closer(s[t.end - 1])
  {
    var r := Find(s, "\"" + Hashes(raw.hashes), raw.body);
    if r.None? then Unterminated
    else
      var end := r.value + 1 + raw.hashes;
      assert s[r.value..end] == "\"" + Hashes(raw.hashes);
      assert s[end - 1] == s[r.value..end][raw.hashes];
      Piece(Literal, end)
  }

  function BlockToken(s: string, i: nat): (t: Token)
    requires Pair(s, i, '/', '*')
    ensures t.Piece? ==> t.kind == Comment && i + 4 <= t.end <= |s| && Closer(s[t.end - 1])
  {
    var end := BlockEnd(s, i + 2, 1);
    if end.None? then Unterminated
    else
      Piece(Comment, end.value)
  }

  /** The token the walk meets at `i`. */
  function TokenAt(alnum: char -> bool, s: string, i: nat): (t: Token)
    requires i < |s|
    ensures t.Piece? ==> i < t.end <= |s|
    ensures t.Piece? && t.kind == Code ==> t.end == i + 1
    ensures t.Piece? && t.kind != Code && t.end < |s| ==> s[t.end] == '\n' || Closer(s[t.end - 1])
  {
    if Pair(s, i, '/', '/') then Piece(Comment, LineEnd(s, i))
    else if Pair(s, i, '/', '*') then
      BlockToken(s, i)
    else if RawOpen(s, i).Some? && Detached(alnum, s, i) then RawToken(s, RawOpen(s, i).value)
    else if s[i] == '"' then
      var end := StringEnd(s, i + 1);
      if end.None? then Unterminated else Piece(Literal, end.value)
    else if s[i] == '\'' && CharEnd(s, i).Some? then Piece(Literal, CharEnd(s, i).value)
    else Piece(Code, i + 1)
  }

  // ----- what a walk marks and a mask keeps

  function Repeat(kind: Kind, n: nat): seq<Kind> { seq(n, _ => kind) }

  /** The kind of every offset from `i` on; None is an unterminated token. */
  function Marks(alnum: char -> bool, s: string, i: nat): (r: Option<seq<Kind>>)
    requires i <= |s|
    ensures r.Some? ==> |r.value| == |s| - i
    decreases |s| - i
  {
    if i == |s| then Some([])
    else
      var t := TokenAt(alnum, s, i);
      if t.Unterminated? then None
      else
        var rest := Marks(alnum, s, t.end);
        if rest.None? then None else Some(Repeat(t.kind, t.end - i) + rest.value)
  }

  datatype Mode = CodeOnly | NoComments

  predicate Erases(mode: Mode, kind: Kind) {
    kind == Comment || (mode == CodeOnly && kind == Literal)
  }

  function Blank(c: char): char { if c == '\n' then c else ' ' }

  function Masked(mode: Mode, s: string, marks: seq<Kind>): (t: string)
    requires |marks| == |s|
    ensures |t| == |s|
  {
    seq(|s|, j requires 0 <= j < |s| => if Erases(mode, marks[j]) then Blank(s[j]) else s[j])
  }

  function Mask(alnum: char -> bool, mode: Mode, s: string): Option<string> {
    var marks := Marks(alnum, s, 0);
    if marks.None? then None else Some(Masked(mode, s, marks.value))
  }

  // ----- the walk itself

  method BlockCommentEnd(s: string, start: nat) returns (r: Option<nat>)
    requires start <= |s|
    ensures r == BlockEnd(s, start, 1)
  {
    var index, depth := start, 1;
    while index < |s| && depth > 0
      invariant index <= |s|
      invariant BlockEnd(s, start, 1) == BlockEnd(s, index, depth)
    {
      if Pair(s, index, '/', '*') {
        index, depth := index + 2, depth + 1;
      } else if Pair(s, index, '*', '/') {
        index, depth := index + 2, depth - 1;
      } else {
        index := index + 1;
      }
    }
    r := if depth > 0 then None else Some(index);
  }

  method QuotedEnd(s: string, start: nat) returns (r: Option<nat>)
    ensures r == StringEnd(s, start)
  {
    var index := start;
    while index < |s|
      invariant StringEnd(s, start) == StringEnd(s, index)
      decreases |s| - index
    {
      if s[index] == '\\' {
        index := index + 2;
      } else if s[index] == '"' {
        return Some(index + 1);
      } else {
        index := index + 1;
      }
    }
    r := None;
  }

  method CharacterEnd(s: string, index: nat) returns (r: Option<nat>)
    requires index < |s|
    ensures r == CharEnd(s, index)
  {
    r := None;
    if index + 2 < |s| && s[index + 2] == '\'' {
      r := Some(index + 3);
    } else if index + 2 < |s| && s[index + 1] == '\\' {
      var cursor := index + 2;
      while cursor < |s| && s[cursor] != '\n'
        invariant index + 2 <= cursor <= |s|
        invariant r.None? && EscapeEnd(s, index + 2) == EscapeEnd(s, cursor)
      {
        if s[cursor] == '\'' && s[cursor - 1] != '\\' { return Some(cursor + 1); }
        cursor := cursor + 1;
      }
    }
  }

  method NextToken(alnum: char -> bool, s: string, index: nat) returns (t: Token)
    requires index < |s|
    ensures t == TokenAt(alnum, s, index)
  {
    if Pair(s, index, '/', '/') { return Piece(Comment, LineEnd(s, index)); }
    if Pair(s, index, '/', '*') {
      var end := BlockCommentEnd(s, index + 2);
      return if end.None? then Unterminated else Piece(Comment, end.value);
    }
    var raw := RawOpen(s, index);
    if raw.Some? && Detached(alnum, s, index) { return RawToken(s, raw.value); }
    if s[index] == '"' {
      var end := QuotedEnd(s, index + 1);
      return if end.None? then Unterminated else Piece(Literal, end.value);
    }
    if s[index] == '\'' {
      var end := CharacterEnd(s, index);
      if end.Some? { return Piece(Literal, end.value); }
    }
    t := Piece(Code, index + 1);
  }

  /** The same walk as the comment mask writes it out, its loops in place: a literal is
      stepped over, not erased. */
  method SkipToken(alnum: char -> bool, s: string, start: nat) returns (t: Token)
    requires start < |s|
    ensures t == TokenAt(alnum, s, start)
  {
    hide RawOpen;
    hide Detached;
    hide RawToken;
    var index := start;
    if Pair(s, index, '/', '/') { return Piece(Comment, LineEnd(s, index)); }
    if Pair(s, index, '/', '*') {
      var depth := 1;
      index := index + 2;
      while index < |s| && depth > 0
        invariant index <= |s|
        invariant BlockEnd(s, start + 2, 1) == BlockEnd(s, index, depth)
      {
        if Pair(s, index, '/', '*') {
          index, depth := index + 2, depth + 1;
        } else if Pair(s, index, '*', '/') {
          index, depth := index + 2, depth - 1;
        } else {
          index := index + 1;
        }
      }
      return if depth > 0 then Unterminated else Piece(Comment, index);
    }
    var raw := RawOpen(s, index);
    if raw.Some? && Detached(alnum, s, index) { return RawToken(s, raw.value); }
    if s[index] == '"' {
      index := index + 1;
      var closed := false;
      while index < |s| && !closed
        invariant if closed then StringEnd(s, start + 1) == Some(index) else StringEnd(s, start + 1) == StringEnd(s, index)
        decreases |s| - index, !closed
      {
        if s[index] == '\\' {
          index := index + 2;
        } else if s[index] == '"' {
          index, closed := index + 1, true;
        } else {
          index := index + 1;
        }
      }
      return if closed then Piece(Literal, index) else Unterminated;
    }
    if s[index] == '\'' {
      var end: Option<nat> := None;
      if index + 2 < |s| && s[index + 2] == '\'' {
        end := Some(index + 3);
      } else if index + 2 < |s| && s[index + 1] == '\\' {
        var cursor := index + 2;
        while cursor < |s| && s[cursor] != '\n' && end.None?
          invariant index + 2 <= cursor <= |s|
          invariant EscapeEnd(s, index + 2) == if end.None? then EscapeEnd(s, cursor) else end
          decreases |s| - cursor, end.None?
        {
          if s[cursor] == '\'' && s[cursor - 1] != '\\' {
            end := Some(cursor + 1);
          } else {
            cursor := cursor + 1;
          }
        }
      }
      if end.Some? { return Piece(Literal, end.value); }
    }
    t := Piece(Code, index + 1);
  }

  /** Blanks a range in place, newlines apart. */
  method Erase(masked: array<char>, start: nat, end: nat)
    requires start <= end <= masked.Length
    modifies masked
    ensures forall j :: 0 <= j < masked.Length ==>
      masked[j] == if start <= j < end then Blank(old(masked[j])) else old(masked[j])
  {
    for j := start to end
      invariant forall k :: 0 <= k < masked.Length ==>
        masked[k] == if start <= k < j then Blank(old(masked[k])) else old(masked[k])
    {
      if masked[j] != '\n' { masked[j] := ' '; }
    }
  }

  /** What the walk has done to the buffer on reaching `index`. */
  ghost predicate MaskedSoFar(mode: Mode, s: string, marks: seq<Kind>, masked: array<char>, index: nat)
    reads masked
  {
    && masked.Length == |s| && |marks| == index <= |s|
    && (forall j :: 0 <= j < index ==> masked[j] == if Erases(mode, marks[j]) then Blank(s[j]) else s[j])
    && (forall j :: index <= j < |s| ==> masked[j] == s[j])
  }

  method RustCodeMask(alnum: char -> bool, source: string) returns (r: Option<string>)
    ensures r == Mask(alnum, CodeOnly, source)
  {
    hide TokenAt;
    var masked := new char[|source|](j requires 0 <= j < |source| => source[j]);
    var index := 0;
    ghost var done: seq<Kind> := [];
    MarksStart(alnum, source);
    while index < |source|
      invariant index <= |source| && MaskedSoFar(CodeOnly, source, done, masked, index)
      invariant Continues(alnum, source, done, index)
    {
      var token := NextToken(alnum, source, index);
      MarksStep(alnum, source, done, index);
      if token.Unterminated? { return None; }
      if token.kind != Code { Erase(masked, index, token.end); }
      done := done + Repeat(token.kind, token.end - index);
      index := token.end;
    }
    assert done + [] == done;
    assert masked[..] == Masked(CodeOnly, source, done);
    r := Some(masked[..]);
  }

  method RustCommentMask(alnum: char -> bool, source: string) returns (r: Option<string>)
    ensures r == Mask(alnum, NoComments, source)
  {
    hide TokenAt;
    var masked := new char[|source|](j requires 0 <= j < |source| => source[j]);
    var index := 0;
    ghost var done: seq<Kind> := [];
    MarksStart(alnum, source);
    while index < |source|
      invariant index <= |source| && MaskedSoFar(NoComments, source, done, masked, index)
      invariant Continues(alnum, source, done, index)
    {
      var token := SkipToken(alnum, source, index);
      MarksStep(alnum, source, done, index);
      if token.Unterminated? { return None; }
      if token.kind == Comment { Erase(masked, index, token.end); }
      done := done + Repeat(token.kind, token.end - index);
      index := token.end;
    }
    assert done + [] == done;
    assert masked[..] == Masked(NoComments, source, done);
    r := Some(masked[..]);
  }

  /** The marks made so far are the beginning of all the marks. */
  ghost predicate Continues(alnum: char -> bool, s: string, done: seq<Kind>, i: nat)
    requires i <= |s|
  {
    var rest := Marks(alnum, s, i);
    Marks(alnum, s, 0) == if rest.None? then None else Some(done + rest.value)
  }

  lemma MarksStart(alnum: char -> bool, s: string)
    ensures Continues(alnum, s, [], 0)
  {
    var all := Marks(alnum, s, 0);
    if all.Some? { assert [] + all.value == all.value; }
  }

  lemma MarksStep(alnum: char -> bool, s: string, done: seq<Kind>, i: nat)
    requires i < |s| && |done| == i && Continues(alnum, s, done, i)
    ensures TokenAt(alnum, s, i).Unterminated? ==> Marks(alnum, s, 0).None?
    ensures var t := TokenAt(alnum, s, i); t.Piece? ==> Continues(alnum, s, done + Repeat(t.kind, t.end - i), t.end)
  {
    hide TokenAt;
    var t := TokenAt(alnum, s, i);
    if t.Piece? {
      var rest := Marks(alnum, s, t.end);
      if rest.Some? {
        assert done + (Repeat(t.kind, t.end - i) + rest.value) == done + Repeat(t.kind, t.end - i) + rest.value;
      }
    }
  }

  // ----- walking a masked text

  /** The characters that close a token, and a blank, are not letters or digits. */
  ghost predicate Separators(alnum: char -> bool) {
    forall c :: Closer(c) || c == ' ' ==> !alnum(c)
  }

  /** Where a comment or literal ends, a closing character or a line break says so. */
  ghost predicate Edges(s: string, marks: seq<Kind>) {
    |marks| == |s| &&
    forall j :: 0 < j < |s| && marks[j - 1] != Code && marks[j] != marks[j - 1] ==> Edge(s, j)
  }

  ghost predicate Edge(s: string, j: nat)
    requires 0 < j < |s|
  {
    s[j] == '\n' || Closer(s[j - 1])
  }

  lemma {:induction false} EdgesFrom(alnum: char -> bool, s: string, i: nat, j: nat)
    requires i < j < |s| && Marks(alnum, s, i).Some?
    ensures var m := Marks(alnum, s, i).value; m[j - 1 - i] != Code && m[j - i] != m[j - 1 - i] ==> Edge(s, j)
    decreases |s| - i
  {
    hide TokenAt;
    var t := TokenAt(alnum, s, i);
    if j > t.end {
      EdgesFrom(alnum, s, t.end, j);
    }
  }

  lemma EdgesHold(alnum: char -> bool, s: string)
    requires Marks(alnum, s, 0).Some?
    ensures Edges(s, Marks(alnum, s, 0).value)
  {
    var m := Marks(alnum, s, 0).value;
    forall j | 0 < j < |s| && m[j - 1] != Code && m[j] != m[j - 1] ensures Edge(s, j) {
      EdgesFrom(alnum, s, 0, j);
    }
  }

  /** `t` is `s` with its `mode` erased, and keeps edges recognisable. */
  ghost predicate IsMask(mode: Mode, s: string, marks: seq<Kind>, t: string) {
    |marks| == |s| && Edges(s, marks) && t == Masked(mode, s, marks)
  }

  /** Wherever a masked text shows something, it shows the source. */
  lemma ShownIsSource(mode: Mode, s: string, marks: seq<Kind>, t: string, j: nat)
    requires IsMask(mode, s, marks, t) && j < |s|
    ensures t[j] == s[j] || t[j] == ' '
    ensures t[j] == '\n' <==> s[j] == '\n'
    ensures t[j] != s[j] ==> Erases(mode, marks[j])
    ensures !Erases(mode, marks[j]) ==> t[j] == s[j]
    ensures Erases(mode, marks[j]) ==> t[j] == Blank(s[j])
  {
  }

  /** A shown quote has a shown character before it, unless a token ends there. */
  lemma BeforeShown(mode: Mode, s: string, marks: seq<Kind>, t: string, j: nat)
    requires IsMask(mode, s, marks, t) && 0 < j < |s| && t[j] == s[j] && s[j] != '\n' && s[j] != ' '
    ensures t[j - 1] == s[j - 1] || Closer(s[j - 1])
  {
    ShownIsSource(mode, s, marks, t, j);
    ShownIsSource(mode, s, marks, t, j - 1);
    if t[j - 1] != s[j - 1] {
      assert marks[j] != marks[j - 1];
    }
  }

  lemma {:induction false} FindSame(s: string, t: string, text: string, from: nat, end: nat)
    requires |s| == |t| && from <= end <= |s|
    requires forall j :: from <= j < end ==> s[j] == t[j]
    requires Find(s, text, from).Some? && Find(s, text, from).value + |text| <= end
    ensures Find(t, text, from) == Find(s, text, from)
    decreases |s| - from
  {
    assert s[from..from + |text|] == t[from..from + |text|];
    if !At(s, text, from) { FindSame(s, t, text, from + 1, end); }
  }

  lemma {:induction false} HashRunSame(s: string, t: string, i: nat, end: nat)
    requires |s| == |t| && i <= end < |s| && s[end] != '#' && end == i + HashRun(s, i)
    requires forall j :: i <= j <= end ==> s[j] == t[j]
    ensures HashRun(t, i) == HashRun(s, i)
    decreases |s| - i
  {
    if i < end { HashRunSame(s, t, i + 1, end); }
  }

  /** A raw opener is recognised from its own characters. */
  lemma RawOpenSame(s: string, t: string, i: nat)
    requires |s| == |t| && i < |s| && RawOpen(s, i).Some?
    requires forall j :: i <= j < RawOpen(s, i).value.body ==> s[j] == t[j]
    ensures RawOpen(t, i) == RawOpen(s, i)
  {
    var raw := RawOpen(s, i).value;
    var letters := raw.body - 1 - raw.hashes - i;
    HashRunSame(s, t, i + letters, raw.body - 1);
  }

  lemma {:induction false} StringEndSame(s: string, t: string, i: nat, end: nat)
    requires |s| == |t| && StringEnd(s, i) == Some(end)
    requires forall j :: i <= j < end ==> s[j] == t[j]
    ensures StringEnd(t, i) == Some(end)
    decreases |s| - i
  {
    if s[i] == '\\' {
      StringEndSame(s, t, i + 2, end);
    } else if s[i] != '"' {
      StringEndSame(s, t, i + 1, end);
    }
  }

  lemma {:induction false} EscapeEndSame(s: string, t: string, cursor: nat, end: nat)
    requires |s| == |t| && cursor > 0 && EscapeEnd(s, cursor) == Some(end)
    requires forall j :: cursor - 1 <= j < end ==> s[j] == t[j]
    ensures EscapeEnd(t, cursor) == Some(end)
    decreases |s| - cursor
  {
    if !(s[cursor] == '\'' && s[cursor - 1] != '\\') { EscapeEndSame(s, t, cursor + 1, end); }
  }

  lemma CharEndSame(s: string, t: string, i: nat, end: nat)
    requires |s| == |t| && i < |s| && CharEnd(s, i) == Some(end)
    requires forall j :: i <= j < end ==> s[j] == t[j]
    ensures CharEnd(t, i) == Some(end)
  {
    if s[i + 2] != '\'' { EscapeEndSame(s, t, i + 2, end); }
  }

  lemma RawTokenSame(s: string, t: string, raw: RawOpener, end: nat)
    requires |s| == |t| && raw.body <= |s| && RawToken(s, raw) == Piece(Literal, end)
    requires forall j :: raw.body <= j < end ==> s[j] == t[j]
    ensures RawToken(t, raw) == Piece(Literal, end)
  {
    FindSame(s, t, "\"" + Hashes(raw.hashes), raw.body, end);
  }

  lemma NoOpenerBefore(s: string, t: string, i: nat)
    requires |s| == |t| && i < |s| && s[i] == t[i] && s[i] != '/'
    ensures !Pair(t, i, '/', '/') && !Pair(t, i, '/', '*') && !Pair(s, i, '/', '/') && !Pair(s, i, '/', '*')
  {
  }

  /** A literal that is left standing is met again, whatever is erased around it. */
  lemma LiteralSame(alnum: char -> bool, s: string, t: string, i: nat, end: nat)
    requires |s| == |t| && i < |s| && TokenAt(alnum, s, i) == Piece(Literal, end)
    requires Detached(alnum, s, i) == Detached(alnum, t, i)
    requires forall j :: i <= j < end ==> s[j] == t[j]
    ensures TokenAt(alnum, t, i) == Piece(Literal, end)
  {
    hide RawOpen;
    hide RawToken;
    hide Detached;
    hide CharEnd;
    hide Pair;
    NotSlash(alnum, s, i);
    NoOpenerBefore(s, t, i);
    if RawOpen(s, i).Some? && Detached(alnum, s, i) {
      RawOpenSame(s, t, i);
      RawTokenSame(s, t, RawOpen(s, i).value, end);
    } else {
      NoRawLiteral(alnum, s, t, i, end);
      if s[i] == '"' {
        StringEndSame(s, t, i + 1, end);
      } else {
        CharEndSame(s, t, i, end);
      }
    }
  }

  lemma NotSlash(alnum: char -> bool, s: string, i: nat)
    requires i < |s| && TokenAt(alnum, s, i).Piece? && TokenAt(alnum, s, i).kind == Literal
    ensures s[i] != '/'
    ensures s[i] in "\"'bcr"
    ensures RawOpen(s, i).Some? ==> s[i] in "bcr"
  {
    if RawOpen(s, i).Some? { RawOpensWithLetter(s, i); }
  }

  lemma RawOpensWithLetter(s: string, i: nat)
    requires i < |s| && RawOpen(s, i).Some?
    ensures s[i] in "bcr"
  {
  }

  lemma NoRawLiteral(alnum: char -> bool, s: string, t: string, i: nat, end: nat)
    requires |s| == |t| && i < |s| && TokenAt(alnum, s, i) == Piece(Literal, end) && s[i] == t[i]
    requires !(RawOpen(s, i).Some? && Detached(alnum, s, i))
    ensures RawOpen(t, i).None? && s[i] in "\"'"
  {
    hide RawOpen;
    if RawOpen(t, i).Some? { RawOpensWithLetter(t, i); }
    assert s[i] in "\"'";
  }

  lemma DetachedSame(alnum: char -> bool, mode: Mode, s: string, marks: seq<Kind>, t: string, i: nat)
    requires Separators(alnum) && IsMask(mode, s, marks, t) && i < |s| && t[i] == s[i] && s[i] != '\n' && s[i] != ' '
    ensures Detached(alnum, s, i) == Detached(alnum, t, i)
  {
    if i > 0 {
      BeforeShown(mode, s, marks, t, i);
      ShownIsSource(mode, s, marks, t, i - 1);
      assert !alnum(' ');
    }
  }

  /** Erasing never makes a quote close an escape that had no end. */
  lemma {:induction false} EscapeStaysOpen(mode: Mode, s: string, marks: seq<Kind>, t: string, cursor: nat)
    requires IsMask(mode, s, marks, t) && cursor > 0 && EscapeEnd(s, cursor).None?
    ensures EscapeEnd(t, cursor).None?
    decreases |s| - cursor
  {
    hide IsMask;
    if cursor < |s| && s[cursor] != '\n' {
      assert |t| == |s| && (t[cursor] == '\'' ==> s[cursor] == '\'') && (t[cursor] == '\'' ==> t[cursor - 1] == s[cursor - 1]) by {
        MaskFacts(mode, s, marks, t, cursor);
      }
      EscapeStaysOpen(mode, s, marks, t, cursor + 1);
    } else {
      MaskFacts(mode, s, marks, t, cursor);
    }
  }

  lemma MaskFacts(mode: Mode, s: string, marks: seq<Kind>, t: string, j: nat)
    requires IsMask(mode, s, marks, t)
    ensures |t| == |s|
    ensures j < |s| ==> (t[j] == s[j] || t[j] == ' ') && (s[j] == '\n' ==> t[j] == '\n')
    ensures 0 < j < |s| && t[j] == '\'' && s[j - 1] == '\\' ==> t[j - 1] == s[j - 1]
  {
    if j < |s| {
      ShownIsSource(mode, s, marks, t, j);
      if j > 0 && t[j] == '\'' { BeforeShown(mode, s, marks, t, j); }
    }
  }

  /** An offset that is code stays code, whatever is erased around it. */
  lemma CodeSame(alnum: char -> bool, mode: Mode, s: string, marks: seq<Kind>, t: string, i: nat)
    requires Separators(alnum) && IsMask(mode, s, marks, t)
    requires i < |s| && TokenAt(alnum, s, i) == Piece(Code, i + 1) && marks[i] == Code
    ensures TokenAt(alnum, t, i) == Piece(Code, i + 1)
  {
    ShownIsSource(mode, s, marks, t, i);
    NoNewComment(mode, s, marks, t, i);
    NoNewRaw(alnum, mode, s, marks, t, i);
    hide RawOpen;
    hide Detached;
    hide Pair;
    hide IsMask;
    if s[i] == '\'' { NoNewCharacter(mode, s, marks, t, i); }
  }

  lemma NoNewComment(mode: Mode, s: string, marks: seq<Kind>, t: string, i: nat)
    requires IsMask(mode, s, marks, t) && i < |s|
    ensures Pair(t, i, '/', '/') ==> Pair(s, i, '/', '/')
    ensures Pair(t, i, '/', '*') ==> Pair(s, i, '/', '*')
  {
    if i + 2 <= |s| {
      ShownIsSource(mode, s, marks, t, i);
      ShownIsSource(mode, s, marks, t, i + 1);
    }
  }

  lemma NoNewRaw(alnum: char -> bool, mode: Mode, s: string, marks: seq<Kind>, t: string, i: nat)
    requires Separators(alnum) && IsMask(mode, s, marks, t) && i < |s|
    ensures RawOpen(t, i).Some? && Detached(alnum, t, i) ==> RawOpen(s, i).Some? && Detached(alnum, s, i)
  {
    if RawOpen(t, i).Some? && Detached(alnum, t, i) {
      forall j | i <= j < RawOpen(t, i).value.body ensures t[j] == s[j] {
        ShownIsSource(mode, s, marks, t, j);
      }
      RawOpenSame(t, s, i);
      RawOpensWithLetter(s, i);
      DetachedSame(alnum, mode, s, marks, t, i);
    }
  }

  lemma NoNewCharacter(mode: Mode, s: string, marks: seq<Kind>, t: string, i: nat)
    requires IsMask(mode, s, marks, t) && i < |s| && CharEnd(s, i).None?
    ensures CharEnd(t, i).None?
  {
    if i + 2 < |s| {
      ShownIsSource(mode, s, marks, t, i + 1);
      ShownIsSource(mode, s, marks, t, i + 2);
      if s[i + 1] == '\\' { EscapeStaysOpen(mode, s, marks, t, i + 2); }
    }
  }

  /** The marks of a masked text: what was erased has become code. */
  function Remarked(mode: Mode, marks: seq<Kind>): seq<Kind> {
    seq(|marks|, j requires 0 <= j < |marks| => if Erases(mode, marks[j]) then Code else marks[j])
  }

  lemma {:induction false} BlankRun(alnum: char -> bool, t: string, i: nat, end: nat)
    requires i <= end <= |t| && forall j :: i <= j < end ==> t[j] == ' ' || t[j] == '\n'
    requires Marks(alnum, t, end).Some?
    ensures Marks(alnum, t, i) == Some(Repeat(Code, end - i) + Marks(alnum, t, end).value)
    decreases end - i
  {
    hide TokenAt;
    if i == end {
      assert Repeat(Code, 0) + Marks(alnum, t, end).value == Marks(alnum, t, end).value;
    } else {
      BlankIsCode(alnum, t, i);
      BlankRun(alnum, t, i + 1, end);
      assert Repeat(Code, 1) + (Repeat(Code, end - i - 1) + Marks(alnum, t, end).value) == Repeat(Code, end - i) + Marks(alnum, t, end).value;
    }
  }

  lemma BlankIsCode(alnum: char -> bool, t: string, i: nat)
    requires i < |t| && (t[i] == ' ' || t[i] == '\n')
    ensures TokenAt(alnum, t, i) == Piece(Code, i + 1)
  {
    if RawOpen(t, i).Some? { RawOpensWithLetter(t, i); }
  }

  lemma MarksSplit(alnum: char -> bool, s: string, marks: seq<Kind>, i: nat)
    requires |marks| == |s| && i < |s| && Marks(alnum, s, i) == Some(marks[i..])
    ensures var token := TokenAt(alnum, s, i);
      && token.Piece? && Marks(alnum, s, token.end) == Some(marks[token.end..])
      && forall j :: i <= j < token.end ==> marks[j] == token.kind
  {
    hide TokenAt;
    var token := TokenAt(alnum, s, i);
    var rest := Marks(alnum, s, token.end).value;
    assert marks[i..] == Repeat(token.kind, token.end - i) + rest;
    assert forall j :: i <= j < token.end ==> marks[j] == marks[i..][j - i];
    assert marks[token.end..] == marks[i..][token.end - i..];
  }

  lemma RemarkedFrom(mode: Mode, marks: seq<Kind>, i: nat, end: nat, kind: Kind)
    requires i <= end <= |marks| && forall j :: i <= j < end ==> marks[j] == kind
    ensures Remarked(mode, marks)[i..] == Repeat(if Erases(mode, kind) then Code else kind, end - i) + Remarked(mode, marks)[end..]
  {
  }

  /** Walking the masked text meets the same tokens, the erased ones apart. */
  lemma {:induction false} MarksOfMask(alnum: char -> bool, mode: Mode, s: string, marks: seq<Kind>, t: string, i: nat)
    requires Separators(alnum) && IsMask(mode, s, marks, t)
    requires i <= |s| && Marks(alnum, s, i) == Some(marks[i..])
    ensures Marks(alnum, t, i) == Some(Remarked(mode, marks)[i..])
    decreases |s| - i
  {
    hide TokenAt;
    hide Separators;
    hide Edges;
    hide Masked;
    if i < |s| {
      var token := TokenAt(alnum, s, i);
      MarksSplit(alnum, s, marks, i);
      hide Marks;
      MarksOfMask(alnum, mode, s, marks, t, token.end);
      TokenOfMask(alnum, mode, s, marks, t, i);
      RemarkedFrom(mode, marks, i, token.end, token.kind);
      hide Remarked;
      if Erases(mode, token.kind) {
        BlankRun(alnum, t, i, token.end);
      } else {
        MarksJoin(alnum, t, i);
      }
    } else {
      assert Remarked(mode, marks)[i..] == [];
    }
  }

  lemma MarksJoin(alnum: char -> bool, t: string, i: nat)
    requires i < |t| && TokenAt(alnum, t, i).Piece?
    ensures var token := TokenAt(alnum, t, i);
      Marks(alnum, t, token.end).Some? ==>
        Marks(alnum, t, i) == Some(Repeat(token.kind, token.end - i) + Marks(alnum, t, token.end).value)
  {
  }

  lemma TokenOfMask(alnum: char -> bool, mode: Mode, s: string, marks: seq<Kind>, t: string, i: nat)
    requires Separators(alnum) && IsMask(mode, s, marks, t)
    requires i < |s| && TokenAt(alnum, s, i).Piece?
    requires forall j :: i <= j < TokenAt(alnum, s, i).end ==> marks[j] == TokenAt(alnum, s, i).kind
    ensures var token := TokenAt(alnum, s, i);
      if Erases(mode, token.kind) then forall j :: i <= j < token.end ==> t[j] == ' ' || t[j] == '\n'
      else TokenAt(alnum, t, i) == token
  {
    hide TokenAt;
    hide Separators;
    hide Detached;
    var token := TokenAt(alnum, s, i);
    if token.kind == Code {
      CodeSame(alnum, mode, s, marks, t, i);
    } else if !Erases(mode, token.kind) {
      NotSlash(alnum, s, i);
      DetachedSame(alnum, mode, s, marks, t, i);
      LiteralSame(alnum, s, t, i, token.end);
    }
  }

  // ----- what the masks promise

  /** A mask keeps the length and the line breaks, and changes an offset only to blank it. */
  lemma MaskKeepsPlace(alnum: char -> bool, mode: Mode, s: string, t: string)
    requires Mask(alnum, mode, s) == Some(t)
    ensures |t| == |s|
    ensures forall j :: 0 <= j < |s| ==> (t[j] == '\n' <==> s[j] == '\n') && (t[j] == s[j] || t[j] == ' ')
  {
    hide Marks;
  }

  /** Both masks fail on the same texts; elsewhere they differ exactly in the visible
      characters of literals, which only the code mask blanks. */
  lemma MasksWalkTogether(alnum: char -> bool, s: string)
    ensures Mask(alnum, CodeOnly, s).None? <==> Mask(alnum, NoComments, s).None?
    ensures Mask(alnum, CodeOnly, s).Some? ==>
      var code, text, marks := Mask(alnum, CodeOnly, s).value, Mask(alnum, NoComments, s).value, Marks(alnum, s, 0).value;
      forall j :: 0 <= j < |s| ==>
        && (code[j] != text[j] <==> marks[j] == Literal && s[j] != ' ' && s[j] != '\n')
        && (marks[j] == Literal ==> text[j] == s[j])
        && (code[j] != text[j] ==> code[j] == ' ')
  {
    hide Marks;
  }

  /** Masking twice is masking once, by the stronger of the two masks. */
  lemma MaskOfMask(alnum: char -> bool, first: Mode, second: Mode, s: string)
    requires Separators(alnum) && Mask(alnum, first, s).Some?
    ensures Mask(alnum, second, Mask(alnum, first, s).value) == Mask(alnum, if first == CodeOnly then CodeOnly else second, s)
  {
    var marks, t := Marks(alnum, s, 0).value, Mask(alnum, first, s).value;
    MarksAreWhole(alnum, first, s);
    var stronger := if first == CodeOnly then CodeOnly else second;
    hide Marks;
    assert Masked(second, t, Remarked(first, marks)) == Masked(stronger, s, marks);
  }

  lemma MarksAreWhole(alnum: char -> bool, mode: Mode, s: string)
    requires Separators(alnum) && Mask(alnum, mode, s).Some?
    ensures Marks(alnum, Mask(alnum, mode, s).value, 0) == Some(Remarked(mode, Marks(alnum, s, 0).value))
  {
    hide Separators;
    var marks, t := Marks(alnum, s, 0).value, Mask(alnum, mode, s).value;
    EdgesHold(alnum, s);
    assert marks[0..] == marks;
    MarksOfMask(alnum, mode, s, marks, t, 0);
    assert Remarked(mode, marks)[0..] == Remarked(mode, marks);
  }

  lemma {:induction false} AllCode(alnum: char -> bool, t: string, i: nat, j: nat)
    requires i <= j < |t| && Marks(alnum, t, i).Some?
    requires forall k :: 0 <= k < |t| - i ==> Marks(alnum, t, i).value[k] == Code
    ensures TokenAt(alnum, t, j) == Piece(Code, j + 1)
    decreases |t| - i
  {
    hide TokenAt;
    var token := TokenAt(alnum, t, i);
    var rest := Marks(alnum, t, token.end).value;
    assert Marks(alnum, t, i).value[0] == token.kind;
    if i < j {
      assert forall k :: 0 <= k < |rest| ==> rest[k] == Marks(alnum, t, i).value[token.end - i + k];
      AllCode(alnum, t, token.end, j);
    }
  }

  /** Masked code holds no comment opener, no quote and no character literal. */
  lemma CodeMaskIsClean(alnum: char -> bool, s: string, t: string, j: nat)
    requires Separators(alnum) && Mask(alnum, CodeOnly, s) == Some(t) && j < |t|
    ensures t[j] != '"' && !Pair(t, j, '/', '/') && !Pair(t, j, '/', '*')
    ensures !(t[j] == '\'' && CharEnd(t, j).Some?)
    ensures !(RawOpen(t, j).Some? && Detached(alnum, t, j))
  {
    MarksAreWhole(alnum, CodeOnly, s);
    AllCode(alnum, t, 0, j);
  }

  // ----- escaped character literals

  /** The character literal of the language whose escape is `c` followed by `body`:
      a quote, a backslash, `c`, `body` and a quote. */
  predicate EscapedLiteral(s: string, i: nat, c: char, body: string) {
    At(s, "'\\" + [c] + body + "'", i)
  }

  predicate PlainBody(body: string) {
    forall k :: 0 <= k < |body| ==> body[k] != '\'' && body[k] != '\\' && body[k] != '\n'
  }

  /** A simple escape has no body; only `x` and `u` escapes have one. */
  predicate EscapeForm(c: char, body: string) {
    && PlainBody(body) && c != '\n'
    && (c == '\'' || c == '\\' ==> body == "")
  }

  lemma {:induction false} EscapeScan(s: string, cursor: nat, end: nat)
    requires 0 < cursor <= end < |s| && s[end] == '\'' && s[end - 1] != '\\'
    requires forall k :: cursor <= k < end ==> s[k] != '\'' && s[k] != '\n'
    ensures EscapeEnd(s, cursor) == Some(end + 1)
    decreases end - cursor
  {
    if cursor < end { EscapeScan(s, cursor + 1, end); }
  }

  lemma EscapedLiteralChars(s: string, i: nat, c: char, body: string)
    requires EscapedLiteral(s, i, c, body)
    ensures i + 4 + |body| <= |s|
    ensures s[i] == '\'' && s[i + 1] == '\\' && s[i + 2] == c && s[i + 3 + |body|] == '\''
    ensures forall k :: 0 <= k < |body| ==> s[i + 3 + k] == body[k]
  {
    var text := "'\\" + [c] + body + "'";
    var seen := s[i..i + |text|];
    assert seen == text;
    assert seen[0] == s[i] && seen[1] == s[i + 1] && seen[2] == s[i + 2] && seen[3 + |body|] == s[i + 3 + |body|];
    forall k | 0 <= k < |body| ensures s[i + 3 + k] == body[k] {
      assert seen[3 + k] == text[3 + k] == body[k];
    }
  }

  /** An escaped character literal is read whole exactly when the escaped character is
      neither the quote nor the backslash. */
  lemma EscapeReadExactly(s: string, i: nat, c: char, body: string)
    requires EscapedLiteral(s, i, c, body) && EscapeForm(c, body)
    ensures CharEnd(s, i) == Some(i + 4 + |body|) <==> c != '\'' && c != '\\'
  {
    EscapedLiteralChars(s, i, c, body);
    if c != '\'' && c != '\\' {
      EscapeScan(s, i + 2, i + 3 + |body|);
    } else if c == '\\' {
      assert EscapeEnd(s, i + 2) == EscapeEnd(s, i + 3) == EscapeEnd(s, i + 4);
    }
  }

  /** So a valid array of two character literals, a quote and a double quote, is refused
      as an unterminated string. */
  lemma EscapedQuoteIsRefused(alnum: char -> bool, mode: Mode)
    requires Separators(alnum)
    ensures Mask(alnum, mode, "['\\'','\"']").None?
  {
    var s := "['\\'','\"']";
    assert |s| == 10 && s[1] == '\'' && s[3] == '\'' && s[4] == '\'' && s[6] == '\'' && s[7] == '"';
    assert TokenAt(alnum, s, 0) == Piece(Code, 1);
    assert TokenAt(alnum, s, 1) == Piece(Literal, 4);
    assert TokenAt(alnum, s, 4) == Piece(Literal, 7);
    assert StringEnd(s, 8) == StringEnd(s, 9) == StringEnd(s, 10);
    assert TokenAt(alnum, s, 7) == Unterminated;
    assert Marks(alnum, s, 7).None?;
    assert Marks(alnum, s, 4).None?;
    assert Marks(alnum, s, 1).None?;
  }
}
