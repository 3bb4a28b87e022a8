/** The lexical masker for Rust sources: comments and literals become blanks of the same length. */
module RustMask {
  import opened Common

  lemma OccursChar(s: string, i: nat, p: string, k: nat)
    requires k < |p|
    ensures OccursAt(s, p, i) ==> i + k < |s| && s[i + k] == p[k]
  {
    if OccursAt(s, p, i) { assert s[i..i + |p|][k] == s[i + k]; }
  }

  /** The first position at or after `i` where `p` starts. */
  function Find(s: string, p: string, i: nat): (r: Option<nat>)
    ensures r.Some? ==> i <= r.value && OccursAt(s, p, r.value) && forall j :: i <= j < r.value ==> !OccursAt(s, p, j)
    ensures r == None ==> forall j :: i <= j ==> !OccursAt(s, p, j)
    decreases |s| - i
  {
    if i > |s| then None else if OccursAt(s, p, i) then Some(i) else Find(s, p, i + 1)
  }

  predicate Identifier(c: char) {
    'A' <= c <= 'Z' || 'a' <= c <= 'z' || '0' <= c <= '9' || c == '_'
  }

  predicate IdentifierBefore(s: string, i: nat) {
    0 < i <= |s| && Identifier(s[i - 1])
  }

  // ---------------------------------------------------------------- where tokens end

  /** The end of a nested block comment whose `depth` openers are still open at `i`. */
  function BlockEnd(s: string, i: nat, depth: nat): (r: Option<nat>)
    ensures r.Some? ==> i <= r.value && (i <= |s| ==> r.value <= |s|)
    decreases |s| - i
  {
    if depth == 0 then Some(i)
    else if i >= |s| then None
    else if OccursAt(s, "/*", i) then BlockEnd(s, i + 2, depth + 1)
    else if OccursAt(s, "*/", i) then BlockEnd(s, i + 2, depth - 1)
    else BlockEnd(s, i + 1, depth)
  }

  /** The end of a string literal whose text starts at `i`; a bare newline is an error. */
  function StringEnd(s: string, i: nat): (r: Option<nat>)
    ensures r.Some? ==> i < r.value <= |s|
    decreases |s| - i
  {
    if i >= |s| then None
    else if s[i] == '\\' then StringEnd(s, i + 2)
    else if s[i] == '"' then Some(i + 1)
    else if s[i] == '\n' then None
    else StringEnd(s, i + 1)
  }

  /** The end of a character literal; it does not cross an unescaped newline. */
  function CharEnd(s: string, i: nat): (r: Option<nat>)
    ensures r.Some? ==> i < r.value <= |s|
    decreases |s| - i
  {
    if i >= |s| || s[i] == '\n' then None
    else if s[i] == '\\' then CharEnd(s, i + 2)
    else if s[i] == '\'' then Some(i + 1)
    else CharEnd(s, i + 1)
  }

  function HashCount(s: string, i: nat): (n: nat)
    ensures i <= |s| ==> i + n <= |s|
    decreases |s| - i
  {
    if i < |s| && s[i] == '#' then 1 + HashCount(s, i + 1) else 0
  }

  /** The number of hashes and the length of a raw string opener at `i`. */
  function RawOpener(s: string, i: nat): Option<(nat, nat)> {
    var prefix := if OccursAt(s, "br", i) then 2 else if OccursAt(s, "r", i) then 1 else 0;
    if prefix == 0 then None
    else
      var hashes := HashCount(s, i + prefix);
      if OccursAt(s, "\"", i + prefix + hashes) then Some((hashes, prefix + hashes + 1)) else None
  }

  function RawClose(hashes: nat): (p: string)
    ensures |p| == hashes + 1
  {
    if hashes == 0 then "\"" else RawClose(hashes - 1) + "#"
  }

  predicate IdentifierStart(c: char) {
    'A' <= c <= 'Z' || 'a' <= c <= 'z' || c == '_'
  }

  function IdentifierEnd(s: string, i: nat): (r: nat)
    ensures r >= i
    decreases |s| - i
  {
    if i < |s| && Identifier(s[i]) then IdentifierEnd(s, i + 1) else i
  }

  predicate Whitespace(c: char) {
    || '\t' <= c <= '\r' || c == ' ' || c == '\U{a0}' || c == '\U{1680}' || '\U{2000}' <= c <= '\U{200a}'
    || c == '\U{2028}' || c == '\U{2029}' || c == '\U{202f}' || c == '\U{205f}' || c == '\U{3000}' || c == '\U{feff}'
  }

  /** An apostrophe at `quote` that opens no literal must be a lifetime. */
  predicate Lifetime(s: string, quote: nat) {
    && quote + 1 < |s| && IdentifierStart(s[quote + 1])
    && var end := IdentifierEnd(s, quote + 1);
       end < |s| && (Whitespace(s[end]) || s[end] in ",:>+)")
  }

  // ---------------------------------------------------------------- what the token ends mean

  /** Closing a + b levels is closing a levels and then b more. */
  lemma {:induction false} BlockEndComposes(s: string, i: nat, a: nat, b: nat)
    ensures BlockEnd(s, i, a + b) == match BlockEnd(s, i, a) case None => None case Some(j) => BlockEnd(s, j, b)
    decreases |s| - i
  {
    hide OccursAt;
    if a > 0 && i < |s| {
      if OccursAt(s, "/*", i) { BlockEndComposes(s, i + 2, a + 1, b); }
      else if OccursAt(s, "*/", i) { BlockEndComposes(s, i + 2, a - 1, b); }
      else { BlockEndComposes(s, i + 1, a, b); }
    }
  }

  /** A comment inside a comment is skipped as a whole, and the outer one ends with its own closer. */
  lemma NestedCommentIsOne(s: string, i: nat, depth: nat)
    requires i < |s| && depth > 0 && OccursAt(s, "/*", i)
    ensures BlockEnd(s, i, depth) == match BlockEnd(s, i + 2, 1) case None => None case Some(j) => BlockEnd(s, j, depth)
  {
    hide OccursAt;
    BlockEndComposes(s, i + 2, 1, depth);
  }

  /** In a text that starts at `i`, an odd number of backslashes stands right before `k`. */
  predicate Escaped(s: string, i: nat, k: nat)
    requires k <= |s|
    decreases k
  {
    i < k && s[k - 1] == '\\' && !Escaped(s, i, k - 1)
  }

  lemma {:induction false} EscapedFrom(s: string, i: nat, j: nat, k: nat)
    requires i <= j <= k <= |s| && !Escaped(s, i, j)
    ensures Escaped(s, i, k) <==> Escaped(s, j, k)
    decreases k
  {
    if j < k { EscapedFrom(s, i, j, k - 1); }
  }

  /** The literal ends right behind the first `close` that is not escaped, and no newline that is not
      escaped comes earlier. */
  ghost predicate ClosesAt(s: string, i: nat, r: nat, close: char) {
    && i < r <= |s| && s[r - 1] == close && !Escaped(s, i, r - 1)
    && forall k :: i <= k < r - 1 && !Escaped(s, i, k) ==> s[k] != close && s[k] != '\n'
  }

  /** Skipping an ordinary character or an escape does not move the end of the literal. */
  lemma ClosesLater(s: string, i: nat, j: nat, r: nat, close: char)
    requires i < j && i < |s| && j == (if s[i] == '\\' then i + 2 else i + 1) && s[i] != close && s[i] != '\n'
             && close != '\\'
    ensures ClosesAt(s, i, r, close) <==> ClosesAt(s, j, r, close)
  {
    if j <= r - 1 < |s| {
      assert !Escaped(s, i, i);
      assert Escaped(s, i, i + 1) <==> s[i] == '\\';
      assert !Escaped(s, i, j);
      forall k | j <= k < r ensures Escaped(s, i, k) <==> Escaped(s, j, k) { EscapedFrom(s, i, j, k); }
    } else if r <= |s| {
      assert !Escaped(s, i, i);
      assert i + 1 <= |s| && s[i] == '\\' ==> Escaped(s, i, i + 1);
    }
  }

  lemma {:induction false} StringEndMeans(s: string, i: nat, r: nat)
    ensures StringEnd(s, i) == Some(r) <==> ClosesAt(s, i, r, '"')
    decreases |s| - i
  {
    hide ClosesAt;
    if i < |s| && s[i] != '"' && s[i] != '\n' {
      var j := if s[i] == '\\' then i + 2 else i + 1;
      StringEndMeans(s, j, r);
      ClosesLater(s, i, j, r, '"');
    } else {
      ClosesHere(s, i, r, '"');
    }
  }

  lemma {:induction false} CharEndMeans(s: string, i: nat, r: nat)
    ensures CharEnd(s, i) == Some(r) <==> ClosesAt(s, i, r, '\'')
    decreases |s| - i
  {
    hide ClosesAt;
    if i < |s| && s[i] != '\'' && s[i] != '\n' {
      var j := if s[i] == '\\' then i + 2 else i + 1;
      CharEndMeans(s, j, r);
      ClosesLater(s, i, j, r, '\'');
    } else {
      ClosesHere(s, i, r, '\'');
    }
  }

  lemma ClosesHere(s: string, i: nat, r: nat, close: char)
    requires i < |s| ==> s[i] == close || s[i] == '\n'
    requires close != '\n'
    ensures ClosesAt(s, i, r, close) <==> i < |s| && s[i] == close && r == i + 1
  {
    assert i < |s| ==> !Escaped(s, i, i);
  }

  // ---------------------------------------------------------------- the lexer

  /** What starts at a position: one ordinary character, a token to blank, or an error. */
  datatype Lexeme = Plain | Token(end: nat) | Bad

  function TokenTo(end: Option<nat>): Lexeme {
    if end.Some? then Token(end.value) else Bad
  }

  function LexemeAt(s: string, i: nat): (l: Lexeme)
    requires i < |s|
    ensures l.Token? ==> i < l.end <= |s|
    ensures l.Plain? ==> s[i] != '"' && !OccursAt(s, "//", i) && !OccursAt(s, "/*", i)
  {
    if OccursAt(s, "//", i) then
      var newline := Find(s, "\n", i);
      OccursChar(s, i, "//", 0);
      OccursChar(s, i, "\n", 0);
      if newline.Some? then Token(newline.value) else Token(|s|)
    else if OccursAt(s, "/*", i) then TokenTo(BlockEnd(s, i + 2, 1))
    else if RawOpener(s, i).Some? && !IdentifierBefore(s, i) then
      var (hashes, length) := RawOpener(s, i).value;
      var close := Find(s, RawClose(hashes), i + length);
      if close.Some? then Token(close.value + hashes + 1) else Bad
    else if s[i] == '"' then TokenTo(StringEnd(s, i + 1))
    else if OccursAt(s, "b\"", i) && !IdentifierBefore(s, i) then TokenTo(StringEnd(s, i + 2))
    else if s[i] == '\'' then QuoteAt(s, i, i)
    else if OccursAt(s, "b'", i) && !IdentifierBefore(s, i) then QuoteAt(s, i, i + 1)
    else Plain
  }

  function QuoteAt(s: string, i: nat, quote: nat): (l: Lexeme)
    requires i <= quote
    ensures l.Token? ==> i < l.end <= |s|
  {
    var end := CharEnd(s, quote + 1);
    if end.Some? then Token(end.value) else if Lifetime(s, quote) then Plain else Bad
  }

  predicate BlankedChar(before: char, after: char) {
    after == if before == '\n' then '\n' else ' '
  }

  function Blanks(t: string): (r: string)
    ensures |r| == |t| && forall i :: 0 <= i < |t| ==> BlankedChar(t[i], r[i])
  {
    if t == "" then "" else Blanks(t[..|t| - 1]) + [if t[|t| - 1] == '\n' then '\n' else ' ']
  }

  /** The masked text from position `i` on, or None when the source has an unfinished token. */
  function MaskFrom(s: string, i: nat): Option<string>
    decreases |s| - i
  {
    if i >= |s| then Some("")
    else match LexemeAt(s, i)
      case Bad => None
      case Plain =>
        var rest := MaskFrom(s, i + 1);
        if rest.Some? then Some([s[i]] + rest.value) else None
      case Token(end) =>
        var rest := MaskFrom(s, end);
        if rest.Some? then Some(Blanks(s[i..end]) + rest.value) else None
  }

  // ---------------------------------------------------------------- what a valid mask is

  /** Same length, same newlines, and every other character kept or blanked. */
  ghost predicate Masks(before: string, after: string) {
    |after| == |before| && forall i :: 0 <= i < |before| ==>
        after[i] == before[i] || (before[i] != '\n' && after[i] == ' ')
  }

  /** No double quote and no comment opener anywhere. */
  ghost predicate Clean(t: string) {
    forall i :: 0 <= i < |t| ==> t[i] != '"' && !(t[i] == '/' && i + 1 < |t| && (t[i + 1] == '/' || t[i + 1] == '*'))
  }

  lemma {:induction false} MaskFromMasks(s: string, i: nat)
    requires i <= |s| && MaskFrom(s, i).Some?
    ensures Masks(s[i..], MaskFrom(s, i).value)
    decreases |s| - i
  {
    hide LexemeAt, Masks, Blanks;
    if i < |s| {
      match LexemeAt(s, i)
      case Plain =>
        MaskFromMasks(s, i + 1);
        assert s[i..] == [s[i]] + s[i + 1..];
        MasksConcat([s[i]], [s[i]], s[i + 1..], MaskFrom(s, i + 1).value);
      case Token(end) =>
        MaskFromMasks(s, end);
        assert s[i..] == s[i..end] + s[end..];
        MasksConcat(s[i..end], Blanks(s[i..end]), s[end..], MaskFrom(s, end).value);
    } else {
      assert s[i..] == "" && Masks("", "") by { NothingMasked(); }
    }
  }

  lemma NothingMasked()
    ensures Masks("", "")
  {
  }

  lemma MasksConcat(a: string, x: string, b: string, y: string)
    requires (x == a || x == Blanks(a)) && Masks(b, y)
    ensures Masks(a + b, x + y)
  {
  }

  lemma CleanCons(c: char, rest: string)
    requires Clean(rest) && c != '"' && (c == '/' && rest != "" ==> rest[0] != '/' && rest[0] != '*')
    ensures Clean([c] + rest)
  {
    var t := [c] + rest;
    assert forall i :: 1 <= i < |t| ==> t[i] == rest[i - 1];
  }

  lemma {:induction false} CleanBlanks(t: string, rest: string)
    requires Clean(rest)
    ensures Clean(Blanks(t) + rest)
    decreases |t|
  {
    if t == "" {
      assert Blanks(t) + rest == rest;
    } else {
      var n := |t| - 1;
      var c := if t[n] == '\n' then '\n' else ' ';
      CleanCons(c, rest);
      CleanBlanks(t[..n], [c] + rest);
      assert Blanks(t) + rest == Blanks(t[..n]) + ([c] + rest);
    }
  }

  lemma FirstMasked(s: string, i: nat)
    requires i < |s| && MaskFrom(s, i).Some?
    ensures var m := MaskFrom(s, i).value; m != "" && (m[0] == s[i] || m[0] == ' ')
  {
    MaskFromMasks(s, i);
    assert s[i..][0] == s[i];
  }

  lemma {:induction false} MaskFromClean(s: string, i: nat)
    requires i <= |s| && MaskFrom(s, i).Some?
    ensures Clean(MaskFrom(s, i).value)
    decreases |s| - i
  {
    hide LexemeAt;
    if i < |s| {
      match LexemeAt(s, i)
      case Plain =>
        var rest := MaskFrom(s, i + 1).value;
        MaskFromClean(s, i + 1);
        if i + 1 < |s| {
          FirstMasked(s, i + 1);
          assert s[i..i + 2] == [s[i], s[i + 1]];
        } else {
          assert rest == "";
        }
        CleanCons(s[i], rest);
      case Token(end) =>
        MaskFromClean(s, end);
        CleanBlanks(s[i..end], MaskFrom(s, end).value);
    }
  }

  /** A valid mask keeps length and newlines, blanks only, and leaves no quote and no comment opener. */
  lemma ValidMask(s: string)
    requires MaskFrom(s, 0).Some?
    ensures Masks(s, MaskFrom(s, 0).value) && Clean(MaskFrom(s, 0).value)
  {
    MaskFromMasks(s, 0);
    MaskFromClean(s, 0);
    assert s[0..] == s;
  }

  /** Nothing is blanked without reason: text free of slashes and quotes is its own mask. */
  lemma {:induction false} PlainTextUnchanged(s: string, i: nat)
    requires i <= |s| && forall j :: 0 <= j < |s| ==> s[j] != '/' && s[j] != '"' && s[j] != '\''
    ensures MaskFrom(s, i) == Some(s[i..])
    decreases |s| - i
  {
    hide LexemeAt;
    if i < |s| {
      PlainHere(s, i);
      PlainTextUnchanged(s, i + 1);
      assert s[i..] == [s[i]] + s[i + 1..];
    }
  }

  lemma PlainHere(s: string, i: nat)
    requires i < |s| && forall j :: 0 <= j < |s| ==> s[j] != '/' && s[j] != '"' && s[j] != '\''
    ensures LexemeAt(s, i) == Plain
  {
    OccursChar(s, i, "//", 0);
    OccursChar(s, i, "/*", 0);
    OccursChar(s, i, "b\"", 1);
    OccursChar(s, i, "b'", 1);
    if RawOpener(s, i).Some? {
      var (hashes, length) := RawOpener(s, i).value;
      OccursChar(s, i + length - 1, "\"", 0);
    }
  }

  // ---------------------------------------------------------------- masking a mask changes nothing

  lemma {:induction false} BlockEndCloses(s: string, i: nat, depth: nat)
    requires depth > 0 && BlockEnd(s, i, depth).Some?
    ensures var r := BlockEnd(s, i, depth).value; 0 < r <= |s| && s[r - 1] == '/'
    decreases |s| - i
  {
    OccursChar(s, i, "*/", 1);
    if OccursAt(s, "/*", i) { BlockEndCloses(s, i + 2, depth + 1); }
    else if !OccursAt(s, "*/", i) { BlockEndCloses(s, i + 1, depth); }
    else if depth > 1 { BlockEndCloses(s, i + 2, depth - 1); }
  }

  lemma RawCloseEnds(s: string, i: nat, hashes: nat)
    requires OccursAt(s, RawClose(hashes), i)
    ensures i + hashes < |s| && s[i + hashes] != '\\'
  {
    OccursChar(s, i, RawClose(hashes), hashes);
  }

  /** Only a line comment can end in a backslash, and a newline or nothing follows it. */
  lemma TokenEdge(s: string, i: nat)
    requires i < |s| && LexemeAt(s, i).Token?
    ensures var e := LexemeAt(s, i).end; s[e - 1] != '\\' || e == |s| || s[e] == '\n'
  {
    hide BlockEnd, StringEnd, CharEnd, RawClose, Find, Lifetime, ClosesAt;
    var e := LexemeAt(s, i).end;
    if OccursAt(s, "//", i) {
      if Find(s, "\n", i).Some? { OccursChar(s, e, "\n", 0); }
    } else if OccursAt(s, "/*", i) {
      BlockEndCloses(s, i + 2, 1);
    } else if RawOpener(s, i).Some? && !IdentifierBefore(s, i) {
      var (hashes, length) := RawOpener(s, i).value;
      RawCloseEnds(s, Find(s, RawClose(hashes), i + length).value, hashes);
    } else {
      LiteralEdge(s, i, e);
    }
  }

  lemma LiteralEdge(s: string, i: nat, e: nat)
    ensures StringEnd(s, i + 1) == Some(e) || StringEnd(s, i + 2) == Some(e) || CharEnd(s, i + 1) == Some(e)
            || CharEnd(s, i + 2) == Some(e)
            ==> 0 < e <= |s| && s[e - 1] != '\\'
  {
    StringEndMeans(s, i + 1, e);
    StringEndMeans(s, i + 2, e);
    CharEndMeans(s, i + 1, e);
    CharEndMeans(s, i + 2, e);
  }

  /** `m` from `i` on is the mask of `s` from `i` on, and `i` is a place where the scan stops. */
  ghost predicate Reached(s: string, m: string, i: nat) {
    i <= |s| == |m| && MaskFrom(s, i) == Some(m[i..])
  }

  lemma ReachedNext(s: string, m: string, i: nat)
    requires i < |s| && Reached(s, m, i)
    ensures match LexemeAt(s, i)
            case Plain => m[i] == s[i] && Reached(s, m, i + 1)
            case Token(e) => i < e <= |s| && Reached(s, m, e) && forall k :: i <= k < e ==> BlankedChar(s[k], m[k])
            case Bad => false
  {
    hide LexemeAt;
    var rest := m[i..];
    match LexemeAt(s, i)
    case Plain => assert rest[0] == m[i] && rest[1..] == m[i + 1..];
    case Token(e) =>
      var b := Blanks(s[i..e]);
      assert rest[..e - i] == b && rest[e - i..] == m[e..];
      forall k | i <= k < e ensures BlankedChar(s[k], m[k]) { assert rest[k - i] == m[k] && s[i..e][k - i] == s[k]; }
    case Bad =>
  }

  predicate BlankChar(c: char) { c == ' ' || c == '\n' }

  /** What is neither blank nor newline in a mask was an ordinary character. */
  lemma {:induction false} KeptIsReached(s: string, m: string, i: nat, q: nat)
    requires Reached(s, m, i) && i <= q < |s| && !BlankChar(m[q])
    ensures Reached(s, m, q) && LexemeAt(s, q).Plain? && m[q] == s[q]
    decreases |s| - i
  {
    hide LexemeAt, Reached;
    ReachedBounds(s, m, i);
    ReachedNext(s, m, i);
    match LexemeAt(s, i)
    case Plain => if i < q { KeptIsReached(s, m, i + 1, q); }
    case Token(e) =>
      assert q < e ==> BlankedChar(s[q], m[q]);
      if e <= q { KeptIsReached(s, m, e, q); }
  }

  lemma ReachedBounds(s: string, m: string, i: nat)
    requires Reached(s, m, i)
    ensures i <= |s| == |m|
  {
  }

  /** A blanked backslash is followed by a blank or a newline. */
  lemma {:induction false} BlankEdge(s: string, m: string, i: nat, k: nat)
    requires Reached(s, m, i) && i <= k && k + 1 < |s| && s[k] == '\\' && m[k] != '\\'
    ensures BlankChar(m[k + 1])
    decreases |s| - i
  {
    hide LexemeAt, Reached;
    ReachedBounds(s, m, i);
    ReachedNext(s, m, i);
    match LexemeAt(s, i)
    case Plain => BlankEdge(s, m, i + 1, k);
    case Token(e) =>
      TokenEdge(s, i);
      if e <= k { BlankEdge(s, m, e, k); }
      else if k + 1 < e { assert BlankedChar(s[k + 1], m[k + 1]); }
      else { NewlineKept(s, m, e); }
  }

  lemma NewlineKept(s: string, m: string, e: nat)
    requires Reached(s, m, e) && e < |s| && s[e] == '\n'
    ensures m[e] == '\n'
  {
    hide LexemeAt;
    ReachedBounds(s, m, e);
    ReachedNext(s, m, e);
  }

  /** Where a mask shows a backslash, escaping is the same in the mask as in the source. */
  lemma {:induction false} SameEscapes(s: string, m: string, i: nat, k: nat)
    requires Reached(s, m, 0) && Masks(s, m) && i <= k <= |s|
    ensures Escaped(m, i, k) ==> Escaped(s, i, k)
    ensures k < |s| && !BlankChar(m[k]) ==> (Escaped(s, i, k) <==> Escaped(m, i, k))
    decreases k
  {
    hide Reached;
    if i < k {
      SameEscapes(s, m, i, k - 1);
      if k < |s| && s[k - 1] == '\\' && m[k - 1] != '\\' { BlankEdge(s, m, 0, k - 1); }
    }
  }

  /** The first place at or after `i` where a literal closes or breaks off. */
  lemma {:induction false} FirstStop(s: string, i: nat, p: nat, close: char) returns (k: nat)
    requires i <= p < |s| && !Escaped(s, i, p) && s[p] == close
    ensures i <= k <= p && !Escaped(s, i, k) && (s[k] == close || s[k] == '\n')
    ensures forall l :: i <= l < k && !Escaped(s, i, l) ==> s[l] != close && s[l] != '\n'
  {
    k := i;
    while k < p && (Escaped(s, i, k) || (s[k] != close && s[k] != '\n'))
      invariant i <= k <= p
      invariant forall l :: i <= l < k && !Escaped(s, i, l) ==> s[l] != close && s[l] != '\n'
    {
      k := k + 1;
    }
  }

  /** An apostrophe that closes nothing in the source closes nothing in its mask. */
  lemma StillUnclosed(s: string, m: string, i: nat)
    requires Reached(s, m, 0) && Masks(s, m) && CharEnd(s, i) == None
    ensures CharEnd(m, i) == None
  {
    hide Reached, CharEnd;
    if CharEnd(m, i).Some? {
      var r := CharEnd(m, i).value;
      CharEndMeans(m, i, r);
      var p := r - 1;
      SameEscapes(s, m, i, p);
      var k := FirstStop(s, i, p, '\'');
      SameEscapes(s, m, i, k);
      CharEndMeans(s, i, k + 1);
    }
  }

  /** Characters that end a lifetime. */
  predicate EndsLifetime(c: char) { Whitespace(c) || c in ",:>+)" }

  lemma IdentifierIsPlain(s: string, j: nat)
    requires j < |s| && Identifier(s[j]) && IdentifierEnd(s, j) < |s| && EndsLifetime(s[IdentifierEnd(s, j)])
    ensures LexemeAt(s, j).Plain?
  {
    OccursChar(s, j, "//", 0);
    OccursChar(s, j, "/*", 0);
    OccursChar(s, j, "b\"", 1);
    OccursChar(s, j, "b'", 1);
    if RawOpener(s, j).Some? { RawOpenerEndsIdentifier(s, j); }
    assert j + 1 < |s| && !Identifier(s[j + 1]) ==> IdentifierEnd(s, j) == j + 1;
  }

  lemma RawOpenerEndsIdentifier(s: string, j: nat)
    requires j < |s| && RawOpener(s, j).Some?
    ensures var e := IdentifierEnd(s, j); e < |s| && (s[e] == '#' || s[e] == '"')
  {
    var prefix := if OccursAt(s, "br", j) then 2 else 1;
    OccursChar(s, j, "br", 0);
    OccursChar(s, j, "br", 1);
    OccursChar(s, j, "r", 0);
    var hashes := HashCount(s, j + prefix);
    OccursChar(s, j + prefix + hashes, "\"", 0);
    assert IdentifierEnd(s, j + prefix) == j + prefix;
    assert IdentifierEnd(s, j) == j + prefix;
  }

  /** The name of a lifetime survives masking, and so does what ends it. */
  lemma {:induction false} SameIdentifier(s: string, m: string, j: nat)
    requires Reached(s, m, j) && Masks(s, m) && IdentifierEnd(s, j) < |s| && EndsLifetime(s[IdentifierEnd(s, j)])
    ensures IdentifierEnd(m, j) == IdentifierEnd(s, j) && (Identifier(s[j]) ==> m[j] == s[j])
    ensures EndsLifetime(m[IdentifierEnd(s, j)])
    decreases |s| - j
  {
    hide Reached, LexemeAt;
    if Identifier(s[j]) {
      IdentifierIsPlain(s, j);
      ReachedNext(s, m, j);
      SameIdentifier(s, m, j + 1);
    }
  }

  lemma StillLifetime(s: string, m: string, q: nat)
    requires Reached(s, m, q) && Masks(s, m) && q < |s| && LexemeAt(s, q).Plain? && s[q] == '\'' && Lifetime(s, q)
    ensures Lifetime(m, q)
  {
    hide Reached, LexemeAt;
    ReachedNext(s, m, q);
    SameIdentifier(s, m, q + 1);
  }

  /** A kept apostrophe is ordinary in the mask too. */
  lemma QuoteStaysPlain(s: string, m: string, i: nat, q: nat)
    requires Reached(s, m, 0) && Masks(s, m) && i <= q < |s| && m[q] == '\''
    ensures QuoteAt(m, i, q).Plain?
  {
    KeptIsReached(s, m, 0, q);
    QuoteIsLifetime(s, q);
    hide *;
    StillUnclosed(s, m, q + 1);
    StillLifetime(s, m, q);
    PlainQuote(m, i, q);
  }

  lemma QuoteIsLifetime(s: string, q: nat)
    requires q < |s| && s[q] == '\'' && LexemeAt(s, q).Plain?
    ensures CharEnd(s, q + 1) == None && Lifetime(s, q)
  {
    OccursChar(s, q, "//", 0);
    OccursChar(s, q, "/*", 0);
    OccursChar(s, q, "br", 0);
    OccursChar(s, q, "r", 0);
    OccursChar(s, q, "b\"", 0);
  }

  lemma PlainQuote(m: string, i: nat, q: nat)
    requires i <= q && CharEnd(m, q + 1) == None && Lifetime(m, q)
    ensures QuoteAt(m, i, q).Plain?
  {
  }

  lemma StaysPlain(s: string, m: string, i: nat)
    requires Reached(s, m, 0) && Masks(s, m) && Clean(m) && i < |m|
    ensures LexemeAt(m, i).Plain?
  {
    hide Reached, QuoteAt, Masks;
    assert |s| == |m| by { ReachedBounds(s, m, 0); }
    OccursChar(m, i, "//", 0);
    OccursChar(m, i, "//", 1);
    OccursChar(m, i, "/*", 0);
    OccursChar(m, i, "/*", 1);
    OccursChar(m, i, "b\"", 1);
    OccursChar(m, i, "b'", 1);
    if RawOpener(m, i).Some? {
      var (hashes, length) := RawOpener(m, i).value;
      OccursChar(m, i + length - 1, "\"", 0);
    }
    if m[i] == '\'' { QuoteStaysPlain(s, m, i, i); }
    if OccursAt(m, "b'", i) { QuoteStaysPlain(s, m, i, i + 1); }
  }

  lemma {:induction false} PlainMask(s: string, m: string, i: nat)
    requires Reached(s, m, 0) && Masks(s, m) && Clean(m) && i <= |m|
    ensures MaskFrom(m, i) == Some(m[i..])
    decreases |m| - i
  {
    hide Reached, LexemeAt, Masks, Clean;
    if i < |m| {
      StaysPlain(s, m, i);
      PlainMask(s, m, i + 1);
      assert m[i..] == [m[i]] + m[i + 1..];
    } else {
      assert m[i..] == "";
    }
  }

  /** Masking is idempotent: the mask of a valid source is valid and is its own mask. */
  lemma MaskIsIdempotent(s: string)
    requires MaskFrom(s, 0).Some?
    ensures MaskFrom(MaskFrom(s, 0).value, 0) == MaskFrom(s, 0)
  {
    hide MaskFrom, Masks, Clean;
    var m := MaskFrom(s, 0).value;
    ValidMask(s);
    assert m[0..] == m;
    assert |m| == |s| by { MasksLength(s, m); }
    PlainMask(s, m, 0);
  }

  lemma MasksLength(s: string, m: string)
    requires Masks(s, m)
    ensures |m| == |s|
  {
  }

  // ---------------------------------------------------------------- the in-place masker

  method BlockCommentEnd(source: string, start: nat) returns (r: Option<nat>)
    ensures r == BlockEnd(source, start, 1)
  {
    var index, depth := start, 1;
    while index < |source| && depth > 0
      invariant BlockEnd(source, start, 1) == BlockEnd(source, index, depth)
      decreases |source| - index
    {
      if OccursAt(source, "/*", index) {
        depth, index := depth + 1, index + 2;
      } else if OccursAt(source, "*/", index) {
        depth, index := depth - 1, index + 2;
      } else {
        index := index + 1;
      }
    }
    r := if depth != 0 then None else Some(index);
  }

  method StringLiteralEnd(source: string, start: nat) returns (r: Option<nat>)
    ensures r == StringEnd(source, start)
  {
    var index := start;
    while index < |source|
      invariant StringEnd(source, start) == StringEnd(source, index)
      decreases |source| - index
    {
      if source[index] == '\\' {
        index := index + 2;
      } else if source[index] == '"' {
        return Some(index + 1);
      } else if source[index] == '\n' {
        return None;
      } else {
        index := index + 1;
      }
    }
    r := None;
  }

  method CharLiteralEnd(source: string, start: nat) returns (r: Option<nat>)
    ensures r == CharEnd(source, start)
  {
    var index := start;
    while index < |source| && source[index] != '\n'
      invariant CharEnd(source, start) == CharEnd(source, index)
      decreases |source| - index
    {
      if source[index] == '\\' {
        index := index + 2;
      } else if source[index] == '\'' {
        return Some(index + 1);
      } else {
        index := index + 1;
      }
    }
    r := None;
  }

  method NextLexeme(source: string, index: nat) returns (l: Lexeme)
    requires index < |source|
    ensures l == LexemeAt(source, index)
  {
    hide Find, RawOpener, BlockEnd, StringEnd, CharEnd, Lifetime, OccursAt, IdentifierBefore;
    if OccursAt(source, "//", index) {
      var newline := Find(source, "\n", index);
      return Token(if newline.Some? then newline.value else |source|);
    }
    if OccursAt(source, "/*", index) {
      var end := BlockCommentEnd(source, index + 2);
      return TokenTo(end);
    }
    var raw := RawOpener(source, index);
    if raw.Some? && !IdentifierBefore(source, index) {
      var close := Find(source, RawClose(raw.value.0), index + raw.value.1);
      return if close.Some? then Token(close.value + raw.value.0 + 1) else Bad;
    }
    if source[index] == '"' || (OccursAt(source, "b\"", index) && !IdentifierBefore(source, index)) {
      var quote := if source[index] == '"' then index else index + 1;
      var end := StringLiteralEnd(source, quote + 1);
      return TokenTo(end);
    }
    if source[index] == '\'' || (OccursAt(source, "b'", index) && !IdentifierBefore(source, index)) {
      var quote := if source[index] == '\'' then index else index + 1;
      var end := CharLiteralEnd(source, quote + 1);
      return if end.Some? then Token(end.value) else if Lifetime(source, quote) then Plain else Bad;
    }
    l := Plain;
  }

  method Blank(code: array<char>, start: nat, end: nat)
    requires start <= end <= code.Length
    modifies code
    ensures code[..] == old(code[..start]) + Blanks(old(code[start..end])) + old(code[end..])
  {
    ghost var before := code[..];
    for index := start to end
      invariant forall i :: 0 <= i < code.Length ==>
                  if start <= i < index then BlankedChar(before[i], code[i]) else code[i] == before[i]
    {
      if code[index] != '\n' { code[index] := ' '; }
    }
    ghost var after := before[..start] + Blanks(before[start..end]) + before[end..];
    assert forall i :: start <= i < end ==> after[i] == Blanks(before[start..end])[i - start];
    assert forall i :: start <= i < end ==> BlankedChar(before[i], after[i]);
    assert code[..] == after;
  }

  function Prepend(done: string, rest: Option<string>): Option<string> {
    if rest.Some? then Some(done + rest.value) else None
  }

  lemma MaskAdvances(s: string, i: nat, done: string)
    requires i < |s| && !LexemeAt(s, i).Bad?
    ensures LexemeAt(s, i).Plain? ==> Prepend(done, MaskFrom(s, i)) == Prepend(done + [s[i]], MaskFrom(s, i + 1))
    ensures LexemeAt(s, i).Token? ==>
              Prepend(done, MaskFrom(s, i))
                  == Prepend(done + Blanks(s[i..LexemeAt(s, i).end]), MaskFrom(s, LexemeAt(s, i).end))
  {
    hide LexemeAt, Blanks;
    match LexemeAt(s, i)
    case Plain =>
      var rest := MaskFrom(s, i + 1);
      if rest.Some? { assert done + ([s[i]] + rest.value) == done + [s[i]] + rest.value; }
    case Token(end) =>
      var rest := MaskFrom(s, end);
      if rest.Some? { assert done + (Blanks(s[i..end]) + rest.value) == done + Blanks(s[i..end]) + rest.value; }
  }

  /** What the buffer looks like when the scan has reached `index`. */
  ghost predicate Scanned(source: string, code: string, index: nat) {
    && index <= |source| == |code| && code[index..] == source[index..] && Masks(source, code)
    && MaskFrom(source, 0) == Prepend(code[..index], MaskFrom(source, index))
  }

  lemma ScanStart(source: string)
    ensures Scanned(source, source, 0)
  {
    hide MaskFrom;
    assert MaskFrom(source, 0).Some? ==> "" + MaskFrom(source, 0).value == MaskFrom(source, 0).value;
    assert source[..0] == "";
  }

  lemma ScanPlain(source: string, code: string, index: nat)
    requires index < |source| && Scanned(source, code, index) && LexemeAt(source, index).Plain?
    ensures Scanned(source, code, index + 1)
  {
    hide LexemeAt, MaskFrom;
    MaskAdvances(source, index, code[..index]);
    assert code[index] == code[index..][0] == source[index..][0] == source[index];
    assert code[..index + 1] == code[..index] + [source[index]];
    assert code[index + 1..] == code[index..][1..] == source[index..][1..] == source[index + 1..];
  }

  lemma ScanToken(source: string, code: string, after: string, index: nat)
    requires index < |source| && Scanned(source, code, index) && LexemeAt(source, index).Token?
    requires after
             == code[..index] + Blanks(code[index..LexemeAt(source, index).end]) + code[LexemeAt(source, index).end..]
    ensures Scanned(source, after, LexemeAt(source, index).end)
  {
    var end := LexemeAt(source, index).end;
    hide LexemeAt, MaskFrom;
    MaskAdvances(source, index, code[..index]);
    assert code[index..end] == code[index..][..end - index] == source[index..end];
    assert code[end..] == code[index..][end - index..] == source[end..];
    var blanks := Blanks(source[index..end]);
    assert after[..end] == code[..index] + blanks && after[end..] == code[end..];
    BlankedMasks(source, code, index, end);
    hide Masks, Blanks;
  }

  /** Blanking a stretch of a partly blanked text keeps it a mask. */
  lemma BlankedMasks(source: string, code: string, index: nat, end: nat)
    requires index <= end <= |source| && Masks(source, code)
    ensures Masks(source, code[..index] + Blanks(source[index..end]) + code[end..])
  {
    var blanks := Blanks(source[index..end]);
    var after := code[..index] + blanks + code[end..];
    forall i | 0 <= i < |source| ensures after[i] == source[i] || (source[i] != '\n' && after[i] == ' ') {
      if index <= i < end {
        assert after[i] == blanks[i - index] && source[index..end][i - index] == source[i];
      } else {
        assert after[i] == code[i];
      }
    }
  }

  /** The masker: on a valid source the mask, and in every case only blanking. */
  method RustLexicalSource(source: string) returns (code: string, valid: bool)
    ensures valid <==> MaskFrom(source, 0).Some?
    ensures valid ==> code == MaskFrom(source, 0).value && Clean(code)
    ensures Masks(source, code)
  {
    hide LexemeAt;
    var buffer := new char[|source|](i requires 0 <= i < |source| => source[i]);
    ScanStart(source);
    assert buffer[..] == source;
    var index := 0;
    while index < |source|
      invariant fresh(buffer) && Scanned(source, buffer[..], index)
      decreases |source| - index
    {
      hide Scanned;
      var lexeme := NextLexeme(source, index);
      ghost var before := buffer[..];
      match lexeme
      case Bad =>
        InvalidHere(source, before, index);
        return buffer[..], false;
      case Plain =>
        ScanPlain(source, before, index);
        index := index + 1;
      case Token(end) =>
        ScanBounds(source, before, index);
        Blank(buffer, index, end);
        ScanToken(source, before, buffer[..], index);
        index := end;
    }
    ScanDone(source, buffer[..]);
    ValidMask(source);
    code, valid := buffer[..], true;
  }

  lemma ScanBounds(source: string, code: string, index: nat)
    requires Scanned(source, code, index)
    ensures |code| == |source|
  {
  }

  lemma InvalidHere(source: string, code: string, index: nat)
    requires index < |source| && Scanned(source, code, index) && LexemeAt(source, index).Bad?
    ensures MaskFrom(source, 0) == None && Masks(source, code)
  {
    hide LexemeAt;
  }

  lemma ScanDone(source: string, code: string)
    requires Scanned(source, code, |source|)
    ensures MaskFrom(source, 0) == Some(code) && Masks(source, code)
  {
    hide LexemeAt;
    assert code[..|source|] + "" == code;
  }

  // ---------------------------------------------------------------- brace matching

  /** Open minus closed braces in code[open..k]. */
  function Depth(code: string, open: nat, k: nat): int
    requires open <= k <= |code|
    decreases k
  {
    if k == open then 0
    else Depth(code, open, k - 1) + (if code[k - 1] == '{' then 1 else if code[k - 1] == '}' then -1 else 0)
  }

  /** The declaration ends behind the brace that balances its first open brace, when there is one. */
  method MatchBrace(code: string, open: nat) returns (r: Option<nat>)
    requires open < |code| && code[open] == '{'
    ensures r.Some? ==> open < r.value <= |code| && code[r.value - 1] == '}' && Depth(code, open, r.value) == 0
    ensures r.Some? ==> forall k :: open < k < r.value ==> Depth(code, open, k) > 0
    ensures r == None ==> forall k :: open < k <= |code| ==> Depth(code, open, k) > 0
  {
    var depth := 0;
    for index := open to |code|
      invariant depth == Depth(code, open, index)
      invariant forall k :: open < k <= index ==> Depth(code, open, k) > 0
    {
      if code[index] == '{' {
        depth := depth + 1;
      } else if code[index] == '}' {
        depth := depth - 1;
        if depth == 0 { return Some(index + 1); }
      }
    }
    r := None;
  }
}
