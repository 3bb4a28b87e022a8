/** What the Rust masker does to each kind of token, spelled out on text: laws that do not mention its
    lexer. */
module RustLaws {
  import opened Common
  import opened RustMask

  // ---------------------------------------------------------------- text in front does not matter

  function Shifted(n: nat, r: Option<nat>): Option<nat> {
    if r.Some? then Some(n + r.value) else None
  }

  lemma OccursShift(p: string, t: string, q: string, i: nat)
    ensures OccursAt(p + t, q, |p| + i) <==> OccursAt(t, q, i)
  {
    var s := p + t;
    if i + |q| <= |t| { assert s[|p| + i..|p| + i + |q|] == t[i..i + |q|]; }
  }

  lemma {:induction false} FindShift(p: string, t: string, q: string, i: nat)
    ensures Find(p + t, q, |p| + i) == Shifted(|p|, Find(t, q, i))
    decreases |t| - i
  {
    hide OccursAt;
    OccursShift(p, t, q, i);
    if !OccursAt(t, q, i) && i < |t| { FindShift(p, t, q, i + 1); }
  }

  lemma {:induction false} BlockEndShift(p: string, t: string, i: nat, depth: nat)
    ensures BlockEnd(p + t, |p| + i, depth) == Shifted(|p|, BlockEnd(t, i, depth))
    decreases |t| - i
  {
    hide OccursAt;
    OccursShift(p, t, "/*", i);
    OccursShift(p, t, "*/", i);
    if depth > 0 && i < |t| {
      if OccursAt(t, "/*", i) { BlockEndShift(p, t, i + 2, depth + 1); }
      else if OccursAt(t, "*/", i) { BlockEndShift(p, t, i + 2, depth - 1); }
      else { BlockEndShift(p, t, i + 1, depth); }
    }
  }

  lemma {:induction false} StringEndShift(p: string, t: string, i: nat)
    ensures StringEnd(p + t, |p| + i) == Shifted(|p|, StringEnd(t, i))
    decreases |t| - i
  {
    if i < |t| {
      assert (p + t)[|p| + i] == t[i];
      if t[i] == '\\' { StringEndShift(p, t, i + 2); } else if t[i] != '"'
          && t[i] != '\n' { StringEndShift(p, t, i + 1); }
    }
  }

  lemma {:induction false} CharEndShift(p: string, t: string, i: nat)
    ensures CharEnd(p + t, |p| + i) == Shifted(|p|, CharEnd(t, i))
    decreases |t| - i
  {
    if i < |t| {
      assert (p + t)[|p| + i] == t[i];
      if t[i] == '\\' { CharEndShift(p, t, i + 2); } else if t[i] != '\'' && t[i] != '\n' { CharEndShift(p, t, i + 1); }
    }
  }

  lemma {:induction false} HashCountShift(p: string, t: string, i: nat)
    ensures HashCount(p + t, |p| + i) == HashCount(t, i)
    decreases |t| - i
  {
    if i < |t| {
      assert (p + t)[|p| + i] == t[i];
      if t[i] == '#' { HashCountShift(p, t, i + 1); }
    }
  }

  lemma RawOpenerShift(p: string, t: string, i: nat)
    ensures RawOpener(p + t, |p| + i) == RawOpener(t, i)
  {
    hide OccursAt, HashCount;
    OccursShift(p, t, "br", i);
    OccursShift(p, t, "r", i);
    var prefix := if OccursAt(t, "br", i) then 2 else 1;
    HashCountShift(p, t, i + prefix);
    OccursShift(p, t, "\"", i + prefix + HashCount(t, i + prefix));
  }

  lemma {:induction false} IdentifierEndShift(p: string, t: string, i: nat)
    ensures IdentifierEnd(p + t, |p| + i) == |p| + IdentifierEnd(t, i)
    decreases |t| - i
  {
    if i < |t| {
      assert (p + t)[|p| + i] == t[i];
      if Identifier(t[i]) { IdentifierEndShift(p, t, i + 1); }
    }
  }

  lemma LifetimeShift(p: string, t: string, i: nat)
    ensures Lifetime(p + t, |p| + i) <==> Lifetime(t, i)
  {
    hide IdentifierEnd, Whitespace, IdentifierStart;
    IdentifierEndShift(p, t, i + 1);
    if i + 1 < |t| { assert (p + t)[|p| + i + 1] == t[i + 1]; }
    var end := IdentifierEnd(t, i + 1);
    if end < |t| { assert (p + t)[|p| + end] == t[end]; }
  }

  /** A place that text in front cannot turn into the middle of a word. */
  predicate Fresh(p: string, i: nat) {
    i > 0 || p == "" || !Identifier(p[|p| - 1])
  }

  lemma IdentifierBeforeShift(p: string, t: string, i: nat)
    requires i <= |t| && Fresh(p, i)
    ensures IdentifierBefore(p + t, |p| + i) <==> IdentifierBefore(t, i)
  {
    if i > 0 { assert (p + t)[|p| + i - 1] == t[i - 1]; } else if p != "" { assert (p + t)[|p| - 1] == p[|p| - 1]; }
  }

  function ShiftedLexeme(n: nat, l: Lexeme): Lexeme {
    match l
    case Token(end) => Token(n + end)
    case Plain => Plain
    case Bad => Bad
  }

  lemma QuoteShift(p: string, t: string, i: nat, q: nat)
    requires i <= q
    ensures QuoteAt(p + t, |p| + i, |p| + q) == ShiftedLexeme(|p|, QuoteAt(t, i, q))
  {
    hide CharEnd, Lifetime;
    CharEndShift(p, t, q + 1);
    LifetimeShift(p, t, q);
  }

  lemma RawShift(p: string, t: string, i: nat)
    requires i < |t| && Fresh(p, i)
    ensures RawOpener(p + t, |p| + i) == RawOpener(t, i)
    ensures RawOpener(t, i).Some? ==>
              var (hashes, length) := RawOpener(t, i).value;
              Find(p + t, RawClose(hashes), |p| + i + length) == Shifted(|p|, Find(t, RawClose(hashes), i + length))
  {
    hide RawOpener, Find, RawClose;
    RawOpenerShift(p, t, i);
    if RawOpener(t, i).Some? {
      var (hashes, length) := RawOpener(t, i).value;
      FindShift(p, t, RawClose(hashes), i + length);
    }
  }

  lemma LexemeShift(p: string, t: string, i: nat)
    requires i < |t| && Fresh(p, i)
    ensures LexemeAt(p + t, |p| + i) == ShiftedLexeme(|p|, LexemeAt(t, i))
  {
    hide OccursAt, Find, BlockEnd, StringEnd, CharEnd, RawOpener, Lifetime, IdentifierBefore, RawClose, Fresh, QuoteAt;
    OccursShift(p, t, "//", i);
    OccursShift(p, t, "/*", i);
    if OccursAt(t, "//", i) {
      FindShift(p, t, "\n", i);
    } else if OccursAt(t, "/*", i) {
      BlockEndShift(p, t, i + 2, 1);
    } else {
      RawShift(p, t, i);
      IdentifierBeforeShift(p, t, i);
      if !(RawOpener(t, i).Some? && !IdentifierBefore(t, i)) { LiteralShift(p, t, i); }
    }
  }

  lemma LiteralShift(p: string, t: string, i: nat)
    requires i < |t| && Fresh(p, i) && !OccursAt(t, "//", i) && !OccursAt(t, "/*", i)
    requires !(RawOpener(t, i).Some? && !IdentifierBefore(t, i))
    ensures LexemeAt(p + t, |p| + i) == ShiftedLexeme(|p|, LexemeAt(t, i))
  {
    hide OccursAt, Find, BlockEnd, StringEnd, RawOpener, IdentifierBefore, RawClose, Fresh, QuoteAt;
    assert (p + t)[|p| + i] == t[i];
    OccursShift(p, t, "//", i);
    OccursShift(p, t, "/*", i);
    OccursShift(p, t, "b\"", i);
    OccursShift(p, t, "b'", i);
    RawOpenerShift(p, t, i);
    IdentifierBeforeShift(p, t, i);
    StringEndShift(p, t, i + 1);
    StringEndShift(p, t, i + 2);
    QuoteShift(p, t, i, i);
    QuoteShift(p, t, i, i + 1);
  }

  /** The mask of the rest does not depend on what stands in front, as long as no word is cut. */
  lemma {:induction false} MaskShift(p: string, t: string, i: nat)
    requires i <= |t| && Fresh(p, i)
    ensures MaskFrom(p + t, |p| + i) == MaskFrom(t, i)
    decreases |t| - i
  {
    hide LexemeAt;
    if i < |t| {
      LexemeShift(p, t, i);
      match LexemeAt(t, i)
      case Bad =>
      case Plain =>
        assert (p + t)[|p| + i] == t[i];
        MaskShift(p, t, i + 1);
      case Token(end) =>
        assert (p + t)[|p| + i..|p| + end] == t[i..end];
        MaskShift(p, t, end);
    }
  }

  // ---------------------------------------------------------------- one token and the rest

  /** What masking makes of text: the mask, or None when some token is not finished. */
  function Mask(s: string): Option<string> {
    MaskFrom(s, 0)
  }

  lemma FirstToken(s: string, e: nat)
    requires s != "" && LexemeAt(s, 0) == Token(e)
    ensures e <= |s| && Mask(s) == Prepend(Blanks(s[..e]), MaskFrom(s, e))
  {
    hide LexemeAt, Blanks;
    assert s[0..e] == s[..e];
  }

  lemma TokenThenRest(x: string, t: string)
    requires x != "" && !Identifier(x[|x| - 1]) && LexemeAt(x + t, 0) == Token(|x|)
    ensures Mask(x + t) == Prepend(Blanks(x), Mask(t))
  {
    hide LexemeAt, MaskFrom, Blanks, Identifier, Prepend;
    FirstToken(x + t, |x|);
    MaskShift(x, t, 0);
    assert (x + t)[..|x|] == x;
  }

  lemma SpacesAreBlanks(c: string)
    requires '\n' !in c
    ensures Blanks(c) == seq(|c|, _ => ' ')
  {
    forall i | 0 <= i < |c| ensures Blanks(c)[i] == ' ' { assert BlankedChar(c[i], Blanks(c)[i]); }
  }

  lemma NewlineIsPlain(s: string, i: nat)
    requires i < |s| && s[i] == '\n'
    ensures LexemeAt(s, i).Plain?
  {
    OccursChar(s, i, "//", 0);
    OccursChar(s, i, "/*", 0);
    OccursChar(s, i, "br", 0);
    OccursChar(s, i, "r", 0);
    OccursChar(s, i, "b\"", 0);
    OccursChar(s, i, "b'", 0);
  }

  lemma NewlineFound(x: string, t: string)
    requires '\n' !in x
    ensures Find(x + "\n" + t, "\n", 0) == Some(|x|) && Find(x, "\n", 0) == None
  {
    hide Find;
    var s := x + "\n" + t;
    assert s[|x|..|x| + 1] == "\n";
    assert OccursAt(s, "\n", |x|);
    forall j | 0 <= j < |x| ensures !OccursAt(s, "\n", j) && !OccursAt(x, "\n", j) {
      OccursChar(s, j, "\n", 0);
      OccursChar(x, j, "\n", 0);
    }
  }

  /** A line comment is blanked up to its newline, and masking goes on behind it. */
  lemma LineComment(c: string, t: string)
    requires '\n' !in c
    ensures Mask("//" + c + "\n" + t) == Prepend(seq(2 + |c|, _ => ' ') + "\n", Mask(t))
    ensures Mask("//" + c) == Some(seq(2 + |c|, _ => ' '))
  {
    var x := "//" + c;
    var s := x + "\n" + t;
    NewlineFound(x, t);
    SpacesAreBlanks(x);
    assert s[0..2] == "//" && x[0..2] == "//";
    assert LexemeAt(s, 0) == Token(|x|) && LexemeAt(x, 0) == Token(|x|) by {
      assert OccursAt(s, "//", 0) && OccursAt(x, "//", 0);
    }
    hide LexemeAt, Find, Blanks;
    FirstToken(x, |x|);
    FirstToken(s, |x|);
    assert x[..|x|] == x && s[..|x|] == x && Blanks(x) + "" == Blanks(x);
    AfterNewline(x, t);
    hide MaskFrom;
    if Mask(t).Some? { assert Blanks(x) + ("\n" + Mask(t).value) == Blanks(x) + "\n" + Mask(t).value; }
  }

  lemma AfterNewline(x: string, t: string)
    ensures MaskFrom(x + "\n" + t, |x|) == Prepend("\n", Mask(t))
  {
    var s := x + "\n" + t;
    assert s[|x|] == '\n';
    NewlineIsPlain(s, |x|);
    hide LexemeAt;
    MaskShift(x + "\n", t, 0);
  }

  /** No comment opener or closer starts in the body, not even together with the closer behind it. */
  ghost predicate FlatComment(body: string) {
    forall i :: 0 <= i < |body| ==> !OccursAt(body + "*/", "/*", i) && !OccursAt(body + "*/", "*/", i)
  }

  lemma {:induction false} FlatEnd(body: string, t: string, i: nat)
    requires FlatComment(body) && i <= |body|
    ensures BlockEnd(body + "*/" + t, i, 1) == Some(|body| + 2)
    decreases |body| - i
  {
    var s, u := body + "*/" + t, body + "*/";
    assert forall k :: 0 <= k < |u| ==> s[k] == u[k];
    if i == |body| {
      assert s[i..i + 2] == "*/";
      assert OccursAt(s, "*/", i) && !OccursAt(s, "/*", i) by { OccursChar(s, i, "/*", 0); }
    } else {
      assert s[i..i + 2] == u[i..i + 2];
      assert !OccursAt(u, "/*", i) && !OccursAt(u, "*/", i);
      FlatEnd(body, t, i + 1);
    }
  }

  /** A block comment is blanked as a whole, newlines kept, and masking goes on behind it. */
  lemma BlockComment(body: string, t: string)
    requires FlatComment(body)
    ensures Mask("/*" + body + "*/" + t) == Prepend(Blanks("/*" + body + "*/"), Mask(t))
  {
    var x := "/*" + body + "*/";
    FlatEnd(body, t, 0);
    BlockEndShift("/*", body + "*/" + t, 0, 1);
    assert "/*" + (body + "*/" + t) == x + t;
    var s := x + t;
    assert s[0..2] == "/*";
    assert OccursAt(s, "/*", 0) && !OccursAt(s, "//", 0) by { OccursChar(s, 0, "//", 1); }
    TokenThenRest(x, t);
  }

  lemma ClosesEarly(u: string, v: string, r: nat, close: char)
    requires r <= |u|
    ensures ClosesAt(u + v, 0, r, close) <==> ClosesAt(u, 0, r, close)
  {
    var s := u + v;
    forall k | 0 <= k < |u| ensures Escaped(s, 0, k) <==> Escaped(u, 0, k) { EscapedPrefix(u, v, k); }
    assert forall k :: 0 <= k < |u| ==> s[k] == u[k];
  }

  lemma {:induction false} EscapedPrefix(u: string, v: string, k: nat)
    requires k <= |u|
    ensures Escaped(u + v, 0, k) <==> Escaped(u, 0, k)
  {
    if k > 0 {
      EscapedPrefix(u, v, k - 1);
      assert (u + v)[k - 1] == u[k - 1];
    }
  }

  /** The body and its closing character: every earlier one, and every newline, is escaped. */
  ghost predicate Closed(body: string, close: char) {
    ClosesAt(body + [close], 0, |body| + 1, close)
  }

  lemma QuoteStart(quote: char, rest: string)
    requires quote == '"' || quote == '\''
    ensures var s := [quote] + rest;
            LexemeAt(s, 0) == if quote == '"' then TokenTo(StringEnd(s, 1)) else QuoteAt(s, 0, 0)
  {
    var s := [quote] + rest;
    OccursChar(s, 0, "//", 0);
    OccursChar(s, 0, "/*", 0);
    OccursChar(s, 0, "br", 0);
    OccursChar(s, 0, "r", 0);
    OccursChar(s, 0, "b\"", 0);
    hide OccursAt, StringEnd, QuoteAt;
  }

  lemma ByteStart(quote: char, rest: string)
    requires quote == '"' || quote == '\''
    ensures var s := "b" + [quote] + rest;
            LexemeAt(s, 0) == if quote == '"' then TokenTo(StringEnd(s, 2)) else QuoteAt(s, 0, 1)
  {
    var s := "b" + [quote] + rest;
    OccursChar(s, 0, "//", 0);
    OccursChar(s, 0, "/*", 0);
    OccursChar(s, 0, "br", 1);
    OccursChar(s, 0, "r", 0);
    OccursChar(s, 0, "b\"", 1);
    assert s[0..2] == ['b', quote];
    assert quote == '"' ==> OccursAt(s, "b\"", 0);
    assert quote == '\'' ==> OccursAt(s, "b'", 0);
    hide OccursAt, StringEnd, QuoteAt;
  }

  lemma LiteralStart(prefix: string, quote: char, rest: string)
    requires (prefix == "" || prefix == "b") && (quote == '"' || quote == '\'')
    ensures var s := prefix + [quote] + rest;
            LexemeAt(s, 0) == if quote == '"' then TokenTo(StringEnd(s, |prefix| + 1)) else QuoteAt(s, 0, |prefix|)
  {
    hide LexemeAt, StringEnd, QuoteAt;
    if prefix == "" {
      QuoteStart(quote, rest);
      assert prefix + [quote] + rest == [quote] + rest;
    } else {
      ByteStart(quote, rest);
    }
  }

  /** A string or byte string is blanked with its quotes, and masking goes on behind it. */
  lemma StringLiteral(prefix: string, body: string, t: string)
    requires (prefix == "" || prefix == "b") && Closed(body, '"')
    ensures var x := prefix + "\"" + body + "\""; Mask(x + t) == Prepend(Blanks(x), Mask(t))
  {
    hide LexemeAt, StringEnd, QuoteAt, ClosesAt, Mask, Blanks, Prepend;
    var x, rest := prefix + "\"" + body + "\"", body + "\"" + t;
    assert x + t == prefix + ['"'] + rest == (prefix + "\"") + rest;
    LiteralStart(prefix, '"', rest);
    ClosesEarly(body + "\"", t, |body| + 1, '"');
    assert rest == body + ['"'] + t;
    StringEndMeans(rest, 0, |body| + 1);
    StringEndShift(prefix + "\"", rest, 0);
    TokenThenRest(x, t);
  }

  /** A string that is never closed, or not before an unescaped newline, makes the source invalid. */
  lemma UnclosedString(prefix: string, rest: string)
    requires (prefix == "" || prefix == "b") && forall r: nat :: !ClosesAt(rest, 0, r, '"')
    ensures Mask(prefix + "\"" + rest) == None
  {
    var s := prefix + "\"" + rest;
    assert s == prefix + ['"'] + rest;
    LiteralStart(prefix, '"', rest);
    if StringEnd(rest, 0).Some? { StringEndMeans(rest, 0, StringEnd(rest, 0).value); }
    StringEndShift(prefix + "\"", rest, 0);
    hide LexemeAt;
  }

  /** A character or byte literal is blanked with its apostrophes, and masking goes on behind it. */
  lemma CharLiteral(prefix: string, body: string, t: string)
    requires (prefix == "" || prefix == "b") && Closed(body, '\'')
    ensures var x := prefix + "'" + body + "'"; Mask(x + t) == Prepend(Blanks(x), Mask(t))
  {
    hide LexemeAt, StringEnd, CharEnd, Lifetime, ClosesAt, Mask, Blanks, Prepend;
    var x, rest := prefix + "'" + body + "'", body + "'" + t;
    assert x + t == prefix + ['\''] + rest == (prefix + "'") + rest;
    LiteralStart(prefix, '\'', rest);
    ClosesEarly(body + "'", t, |body| + 1, '\'');
    assert rest == body + ['\''] + t;
    CharEndMeans(rest, 0, |body| + 1);
    CharEndShift(prefix + "'", rest, 0);
    TokenThenRest(x, t);
  }

  /** An apostrophe that closes nothing on its line and opens a lifetime is kept; otherwise the source is invalid. */
  lemma LoneApostrophe(rest: string)
    requires forall r: nat :: !ClosesAt(rest, 0, r, '\'')
    ensures Mask("'" + rest) == if NamesLifetime(rest) then Prepend("'", Mask(rest)) else None
  {
    hide CharEnd, Lifetime, ClosesAt, NamesLifetime, LexemeAt, MaskFrom;
    var s := "'" + rest;
    assert s == "" + ['\''] + rest;
    LiteralStart("", '\'', rest);
    UnclosedChar(rest);
    CharEndShift("'", rest, 0);
    LifetimeMeans(rest);
    MaskShift("'", rest, 0);
    FirstLexeme(s);
  }

  lemma UnclosedChar(rest: string)
    requires forall r: nat :: !ClosesAt(rest, 0, r, '\'')
    ensures CharEnd(rest, 0) == None
  {
    hide ClosesAt;
    forall r: nat ensures CharEnd(rest, 0) != Some(r) { CharEndMeans(rest, 0, r); }
  }

  lemma FirstLexeme(s: string)
    requires s != ""
    ensures LexemeAt(s, 0).Plain? ==> Mask(s) == Prepend([s[0]], MaskFrom(s, 1))
    ensures LexemeAt(s, 0).Bad? ==> Mask(s) == None
  {
    hide LexemeAt;
  }

  /** A name and then a character that may follow a lifetime. */
  ghost predicate NamesLifetime(rest: string) {
    exists n :: 0 < n < |rest| && IdentifierStart(rest[0]) && EndsLifetime(rest[n]) && forall k :: 0 <= k < n ==>
        Identifier(rest[k])
  }

  lemma LifetimeMeans(rest: string)
    ensures Lifetime("'" + rest, 0) <==> NamesLifetime(rest)
  {
    hide Whitespace, IdentifierEnd;
    var s, e := "'" + rest, IdentifierEnd(rest, 0);
    IdentifierRun(rest, 0);
    IdentifierEndShift("'", rest, 0);
    if rest != "" { assert s[1] == rest[0]; }
    if e < |rest| { assert s[e + 1] == rest[e]; }
    LifetimeIs(s, e);
    if NamesLifetime(rest) {
      var n :| 0 < n < |rest| && IdentifierStart(rest[0]) && EndsLifetime(rest[n])
               && forall k :: 0 <= k < n ==> Identifier(rest[k]);
      StopsName(rest[n]);
      assert e == n;
    }
  }

  lemma LifetimeIs(s: string, e: nat)
    requires IdentifierEnd(s, 1) == 1 + e
    ensures Lifetime(s, 0) <==> 1 < |s| && IdentifierStart(s[1]) && 1 + e < |s| && EndsLifetime(s[1 + e])
  {
    hide Whitespace, IdentifierEnd;
  }

  lemma StopsName(c: char)
    requires EndsLifetime(c)
    ensures !Identifier(c)
  {
  }

  lemma {:induction false} IdentifierRun(s: string, i: nat)
    ensures var e := IdentifierEnd(s, i);
            && (i <= |s| ==> e <= |s|) && (forall k :: i <= k < e ==> k < |s| && Identifier(s[k]))
            && (e < |s| ==> !Identifier(s[e]))
    decreases |s| - i
  {
    if i < |s| && Identifier(s[i]) { IdentifierRun(s, i + 1); }
  }

  // ---------------------------------------------------------------- raw strings

  function Hashes(n: nat): (h: string)
    ensures |h| == n && forall i :: 0 <= i < n ==> h[i] == '#'
  {
    seq(n, _ => '#')
  }

  lemma {:induction false} RawCloseIs(n: nat)
    ensures RawClose(n) == "\"" + Hashes(n)
  {
    if n > 0 {
      RawCloseIs(n - 1);
      assert Hashes(n) == Hashes(n - 1) + "#";
    }
  }

  lemma {:induction false} HashRun(n: nat, rest: string, i: nat)
    requires i <= n && rest != "" && rest[0] != '#'
    ensures HashCount(Hashes(n) + rest, i) == n - i
    decreases n - i
  {
    var s := Hashes(n) + rest;
    if i < n { HashRun(n, rest, i + 1); } else { assert s[n] == rest[0]; }
  }

  /** The body does not hold a quote followed by so many hashes, not even with the closer behind it. */
  ghost predicate RawBody(body: string, n: nat) {
    forall i :: 0 <= i < |body| ==> !OccursAt(body + ("\"" + Hashes(n)), "\"" + Hashes(n), i)
  }

  lemma RawEnd(body: string, n: nat, t: string)
    requires RawBody(body, n)
    ensures Find(body + ("\"" + Hashes(n)) + t, "\"" + Hashes(n), 0) == Some(|body|)
  {
    hide Find;
    var close := "\"" + Hashes(n);
    var u := body + close;
    var s := u + t;
    assert s[|body|..|body| + |close|] == close;
    assert OccursAt(s, close, |body|);
    forall j | 0 <= j < |body| ensures !OccursAt(s, close, j) {
      assert s[j..j + |close|] == u[j..j + |close|];
      assert !OccursAt(u, close, j);
    }
  }

  lemma RawStart(prefix: string, n: nat, rest: string)
    requires prefix == "r" || prefix == "br"
    ensures var s := prefix + Hashes(n) + "\"" + rest;
            RawOpener(s, 0) == Some((n, |prefix| + n + 1)) && !OccursAt(s, "//", 0) && !OccursAt(s, "/*", 0)
  {
    var s := prefix + Hashes(n) + "\"" + rest;
    var tail := "\"" + rest;
    assert s == prefix + (Hashes(n) + tail);
    OccursChar(s, 0, "//", 0);
    OccursChar(s, 0, "/*", 0);
    OccursChar(s, 0, "br", 0);
    HashRun(n, tail, 0);
    HashCountShift(prefix, Hashes(n) + tail, 0);
    var q := |prefix| + n;
    assert s[q..q + 1] == "\"";
    assert OccursAt(s, "\"", q);
    if prefix == "r" { assert s[0..1] == "r"; } else { assert s[0..2] == "br"; }
    assert OccursAt(s, prefix, 0);
  }

  lemma RawLexeme(s: string, n: nat, length: nat, k: nat)
    requires s != "" && RawOpener(s, 0) == Some((n, length)) && !OccursAt(s, "//", 0) && !OccursAt(s, "/*", 0)
    requires Find(s, RawClose(n), length) == Some(k)
    ensures LexemeAt(s, 0) == Token(k + n + 1)
  {
    hide Find, RawOpener, RawClose, OccursAt;
  }

  lemma CloserEnds(n: nat)
    ensures !Identifier(("\"" + Hashes(n))[n])
  {
  }

  /** A raw string ends behind the first quote followed by as many hashes as its opener has. */
  lemma RawString(prefix: string, n: nat, body: string, t: string)
    requires (prefix == "r" || prefix == "br") && RawBody(body, n)
    ensures var x := prefix + Hashes(n) + "\"" + body + ("\"" + Hashes(n));
            Mask(x + t) == Prepend(Blanks(x), Mask(t))
  {
    hide *;
    var opener, close := prefix + Hashes(n) + "\"", "\"" + Hashes(n);
    var x, rest := opener + body + close, body + close + t;
    Regroup(opener, body, close, t);
    RawStart(prefix, n, rest);
    RawEnd(body, n, t);
    RawCloseIs(n);
    FindShift(opener, rest, close, 0);
    FoundAt(opener + rest, close, |opener|, |body|, rest);
    RawLexeme(opener + rest, n, |opener|, |opener| + |body|);
    assert x[|x| - 1] == close[n];
    CloserEnds(n);
    TokenThenRest(x, t);
  }

  lemma Regroup(a: string, b: string, c: string, d: string)
    ensures a + b + c + d == a + (b + c + d)
  {
  }

  lemma FoundAt(s: string, close: string, n: nat, k: nat, rest: string)
    requires Find(rest, close, 0) == Some(k) && Find(s, close, n + 0) == Shifted(n, Find(rest, close, 0))
    ensures Find(s, close, n) == Some(n + k)
  {
    hide Find;
  }

  /** A raw string without its closer makes the source invalid. */
  lemma UnclosedRawString(prefix: string, n: nat, rest: string)
    requires (prefix == "r" || prefix == "br") && forall i: nat :: !OccursAt(rest, "\"" + Hashes(n), i)
    ensures Mask(prefix + Hashes(n) + "\"" + rest) == None
  {
    var opener, close := prefix + Hashes(n) + "\"", "\"" + Hashes(n);
    var s := opener + rest;
    RawStart(prefix, n, rest);
    RawCloseIs(n);
    FindShift(opener, rest, close, 0);
    hide Find, RawOpener, RawClose;
    assert LexemeAt(s, 0) == Bad;
  }

  // ---------------------------------------------------------------- text between tokens

  /** Text without slashes and quotes that ends in white space. */
  predicate Between(p: string) {
    (p == "" || Whitespace(p[|p| - 1])) && forall i :: 0 <= i < |p| ==> p[i] != '/' && p[i] != '"' && p[i] != '\''
  }

  lemma NotInWord(c: char)
    requires Whitespace(c)
    ensures !Identifier(c) && c != '#' && c != 'r' && c != 'b'
  {
  }

  lemma {:induction false} HashesBefore(s: string, i: nat, k: nat)
    requires i <= k < i + HashCount(s, i)
    ensures k < |s| && s[k] == '#'
    decreases |s| - i
  {
    if i < k { HashesBefore(s, i + 1, k); }
  }

  lemma BetweenNoRaw(p: string, t: string, i: nat)
    requires Between(p) && i < |p|
    ensures RawOpener(p + t, i) == None
  {
    var s, last := p + t, |p| - 1;
    assert forall k :: 0 <= k < |p| ==> s[k] == p[k];
    NotInWord(p[last]);
    hide Whitespace;
    OccursChar(s, i, "br", 0);
    OccursChar(s, i, "br", 1);
    OccursChar(s, i, "r", 0);
    var prefix := if OccursAt(s, "br", i) then 2 else 1;
    var q := i + prefix + HashCount(s, i + prefix);
    OccursChar(s, q, "\"", 0);
    if i + prefix <= last < q { HashesBefore(s, i + prefix, last); }
  }

  lemma BetweenIsPlain(p: string, t: string, i: nat)
    requires Between(p) && i < |p|
    ensures LexemeAt(p + t, i).Plain?
  {
    var s := p + t;
    assert forall k :: 0 <= k < |p| ==> s[k] == p[k];
    BetweenNoRaw(p, t, i);
    NotInWord(p[|p| - 1]);
    OccursChar(s, i, "//", 0);
    OccursChar(s, i, "/*", 0);
    OccursChar(s, i, "b\"", 0);
    OccursChar(s, i, "b\"", 1);
    OccursChar(s, i, "b'", 0);
    OccursChar(s, i, "b'", 1);
    hide RawOpener, Whitespace, OccursAt;
  }

  lemma {:induction false} BetweenRun(p: string, t: string, i: nat)
    requires Between(p) && i <= |p|
    ensures MaskFrom(p + t, i) == Prepend(p[i..], MaskFrom(p + t, |p|))
    decreases |p| - i
  {
    hide LexemeAt, Between;
    var rest := MaskFrom(p + t, |p|);
    if i < |p| {
      BetweenIsPlain(p, t, i);
      BetweenRun(p, t, i + 1);
      assert p[i..] == [p[i]] + p[i + 1..];
      if rest.Some? { assert [p[i]] + (p[i + 1..] + rest.value) == p[i..] + rest.value; }
    } else if rest.Some? {
      assert p[i..] + rest.value == rest.value;
    }
  }

  /** Text between tokens is kept as it is. */
  lemma TextIsKept(p: string, t: string)
    requires Between(p)
    ensures Mask(p + t) == Prepend(p, Mask(t))
  {
    if p != "" { NotInWord(p[|p| - 1]); }
    hide Whitespace, Identifier, MaskFrom;
    BetweenRun(p, t, 0);
    MaskShift(p, t, 0);
    assert p[0..] == p;
  }

  lemma {:induction false} NoCloser(s: string, i: nat, depth: nat)
    requires depth > 0 && forall j: nat :: !OccursAt(s, "*/", j)
    ensures BlockEnd(s, i, depth) == None
    decreases |s| - i
  {
    hide OccursAt;
    if i < |s| { if OccursAt(s, "/*", i) { NoCloser(s, i + 2, depth + 1); } else { NoCloser(s, i + 1, depth); } }
  }

  /** A block comment without any closer makes the source invalid. */
  lemma UnclosedComment(rest: string)
    requires forall j: nat :: !OccursAt(rest, "*/", j)
    ensures Mask("/*" + rest) == None
  {
    var s := "/*" + rest;
    NoCloser(rest, 0, 1);
    BlockEndShift("/*", rest, 0, 1);
    assert s[0..2] == "/*";
    assert OccursAt(s, "/*", 0) && !OccursAt(s, "//", 0) by { OccursChar(s, 0, "//", 1); }
    hide BlockEnd, OccursAt;
  }

  /** The positions in code[open..k] that hold this character. */
  function Positions(code: string, open: nat, k: nat, c: char): set<nat>
    requires open <= k <= |code|
  {
    set i: nat | open <= i < k && code[i] == c
  }

  /** The depth is the number of open braces less the number of closing ones. */
  lemma {:induction false} DepthCounts(code: string, open: nat, k: nat)
    requires open <= k <= |code|
    ensures Depth(code, open, k) == |Positions(code, open, k, '{')| - |Positions(code, open, k, '}')|
    decreases k
  {
    if k == open {
      assert Positions(code, open, k, '{') == {} && Positions(code, open, k, '}') == {};
    } else {
      DepthCounts(code, open, k - 1);
      PositionsNext(code, open, k - 1, '{');
      PositionsNext(code, open, k - 1, '}');
    }
  }

  lemma PositionsNext(code: string, open: nat, k: nat, c: char)
    requires open <= k < |code|
    ensures |Positions(code, open, k + 1, c)| == |Positions(code, open, k, c)| + if code[k] == c then 1 else 0
  {
    assert Positions(code, open, k + 1, c) == Positions(code, open, k, c) + if code[k] == c then {k} else {};
  }
}
