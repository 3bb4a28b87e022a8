/** The text primitives of the tar codec: fatal UTF-8 decoding, byte order and octal numerals.
    A decoded string is represented by its UTF-8 bytes. */
module Text {
  import opened Common

  // ---------------------------------------------------------------- UTF-8

  predicate Continuation(b: byte) { 0x80 <= b <= 0xBF }

  /** Length of the well-formed UTF-8 character at the front of `s`, 0 when there is none. */
  function CharLength(s: seq<byte>): (n: nat)
    ensures n <= |s| && n <= 4
    ensures forall i :: 1 <= i < n ==> s[i] >= 0x80
  {
    if |s| >= 1 && s[0] < 0x80 then 1
    else if |s| >= 2 && 0xC2 <= s[0] <= 0xDF && Continuation(s[1]) then 2
    else if |s| >= 3 && 0xE0 <= s[0] <= 0xEF && Continuation(s[1]) && Continuation(s[2])
            && (s[0] == 0xE0 ==> s[1] >= 0xA0) && (s[0] == 0xED ==> s[1] <= 0x9F) then 3
    else if |s| >= 4 && 0xF0 <= s[0] <= 0xF4 && Continuation(s[1]) && Continuation(s[2]) && Continuation(s[3])
            && (s[0] == 0xF0 ==> s[1] >= 0x90) && (s[0] == 0xF4 ==> s[1] <= 0x8F) then 4
    else 0
  }

  predicate ValidUtf8(s: seq<byte>) {
    s == [] || (CharLength(s) > 0 && ValidUtf8(s[CharLength(s)..]))
  }

  const BOM: seq<byte> := [0xEF, 0xBB, 0xBF]

  /** A fatal UTF-8 text decoder: rejects malformed input and drops one leading byte order mark. */
  function Decode(s: seq<byte>): Option<seq<byte>> {
    if !ValidUtf8(s) then None
    else if BOM <= s then Some(s[3..])
    else Some(s)
  }

  /** An ASCII byte is always a character boundary. */
  lemma {:induction false} ValidAroundAscii(a: seq<byte>, c: byte, b: seq<byte>)
    requires c < 0x80
    ensures ValidUtf8(a + [c] + b) <==> ValidUtf8(a) && ValidUtf8(b)
    decreases |a|
  {
    var whole := a + [c] + b;
    if a == [] {
      assert whole[1..] == b;
    } else {
      var n := CharLength(a);
      assert forall i :: 0 <= i < |a| ==> whole[i] == a[i];
      assert whole[|a|] == c;
      assert CharLength(whole) == n;
      if n > 0 {
        assert whole[n..] == a[n..] + [c] + b;
        ValidAroundAscii(a[n..], c, b);
      }
    }
  }

  lemma DecodedIsValid(s: seq<byte>)
    ensures Decode(s).Some? ==> ValidUtf8(Decode(s).value)
  {
    if ValidUtf8(s) && BOM <= s {
      assert CharLength(s) == 3;
    }
  }

  // ---------------------------------------------------------------- byte order

  /** Buffer.compare(a, b) <= 0. */
  predicate LexLeq(a: seq<byte>, b: seq<byte>) {
    a == [] || (b != [] && (a[0] < b[0] || (a[0] == b[0] && LexLeq(a[1..], b[1..]))))
  }

  lemma {:induction false} LexTotal(a: seq<byte>, b: seq<byte>)
    ensures LexLeq(a, b) || LexLeq(b, a)
  {
    if a != [] && b != [] { LexTotal(a[1..], b[1..]); }
  }

  lemma {:induction false} LexTransitive(a: seq<byte>, b: seq<byte>, c: seq<byte>)
    requires LexLeq(a, b) && LexLeq(b, c)
    ensures LexLeq(a, c)
  {
    if a != [] && a[0] == b[0] == c[0] { LexTransitive(a[1..], b[1..], c[1..]); }
  }

  lemma {:induction false} LexAntisymmetric(a: seq<byte>, b: seq<byte>)
    requires LexLeq(a, b) && LexLeq(b, a)
    ensures a == b
  {
    if a != [] {
      LexAntisymmetric(a[1..], b[1..]);
      assert a == [a[0]] + a[1..] && b == [b[0]] + b[1..];
    }
  }

  /** The order is that of unsigned bytes at the first difference, a prefix coming first. */
  lemma {:induction false} LexMeans(a: seq<byte>, b: seq<byte>)
    ensures LexLeq(a, b) <==>
              a <= b || exists i :: 0 <= i < |a| && i < |b| && a[..i] == b[..i] && a[i] < b[i]
  {
    if a != [] && b != [] {
      var x, y := a[1..], b[1..];
      LexMeans(x, y);
      assert a == [a[0]] + x && b == [b[0]] + y;
      if a[0] == b[0] {
        if i :| 0 <= i < |x| && i < |y| && x[..i] == y[..i] && x[i] < y[i] {
          assert a[..i + 1] == [a[0]] + x[..i] && b[..i + 1] == [b[0]] + y[..i];
          assert a[i + 1] < b[i + 1];
        }
        if i :| 0 <= i < |a| && i < |b| && a[..i] == b[..i] && a[i] < b[i] {
          assert x[..i - 1] == a[..i][1..] && y[..i - 1] == b[..i][1..] && x[i - 1] < y[i - 1];
        }
      } else {
        if a[0] < b[0] { assert a[..0] == b[..0]; }
      }
    }
  }

  // ---------------------------------------------------------------- octal numerals

  predicate OctalDigits(s: seq<byte>) {
    forall i :: 0 <= i < |s| ==> 48 <= s[i] <= 55
  }

  /** value.toString(8) */
  function OctalText(v: nat): (s: seq<byte>)
    ensures s != [] && OctalDigits(s)
  {
    if v < 8 then [48 + v] else OctalText(v / 8) + [48 + v % 8]
  }

  /** Number.parseInt(s, 8) on octal digits */
  function OctalValue(s: seq<byte>): nat
    requires OctalDigits(s)
  {
    if s == [] then 0 else 8 * OctalValue(s[..|s| - 1]) + (s[|s| - 1] - 48)
  }

  function Pow8(n: nat): (p: nat)
    ensures p >= 1
  {
    if n == 0 then 1 else 8 * Pow8(n - 1)
  }

  /** s.padStart(n, "0") */
  function PadStart(s: seq<byte>, n: nat): (p: seq<byte>)
    ensures |s| <= n ==> |p| == n
    ensures OctalDigits(s) ==> OctalDigits(p)
  {
    if |s| >= n then s else seq(n - |s|, _ => 48) + s
  }

  lemma {:induction false} OctalTextValue(v: nat)
    ensures OctalValue(OctalText(v)) == v
  {
    if v >= 8 {
      OctalTextValue(v / 8);
      assert OctalText(v)[..|OctalText(v)| - 1] == OctalText(v / 8);
    }
  }

  lemma {:induction false} OctalTextLength(v: nat, n: nat)
    requires n >= 1
    ensures |OctalText(v)| <= n <==> v < Pow8(n)
  {
    if v >= 8 && n > 1 {
      OctalTextLength(v / 8, n - 1);
    } else if v < 8 {
      assert Pow8(n) == 8 * Pow8(n - 1) >= 8;
    } else {
      assert Pow8(1) == 8 * Pow8(0) == 8;
    }
  }

  lemma {:induction false} LeadingZeros(k: nat, s: seq<byte>)
    requires OctalDigits(s)
    ensures OctalDigits(seq(k, _ => 48) + s)
    ensures OctalValue(seq(k, _ => 48) + s) == OctalValue(s)
    decreases |s| + k
  {
    var t: seq<byte> := seq(k, _ => 48) + s;
    if s != [] {
      assert t[..|t| - 1] == seq(k, _ => 48) + s[..|s| - 1];
      LeadingZeros(k, s[..|s| - 1]);
    } else if k > 0 {
      assert t[..|t| - 1] == seq(k - 1, _ => 48) + s;
      LeadingZeros(k - 1, s);
    }
  }

  lemma PadStartValue(v: nat, n: nat)
    ensures OctalValue(PadStart(OctalText(v), n)) == v
  {
    var s := OctalText(v);
    OctalTextValue(v);
    if |s| < n { LeadingZeros(n - |s|, s); }
  }

  // ---------------------------------------------------------------- octal header fields

  /** Decoding as "ascii" clears the high bit of every byte. */
  function Ascii(s: seq<byte>): (a: seq<byte>)
    ensures |a| == |s|
    ensures forall i :: 0 <= i < |s| ==> a[i] == s[i] % 128
  {
    seq(|s|, i requires 0 <= i < |s| => s[i] % 128)
  }

  predicate NulOrSpace(b: byte) { b == 0 || b == 32 }
  predicate Whitespace(b: byte) { 9 <= b <= 13 || b == 32 }

  function StripTrailing(s: seq<byte>, strip: byte -> bool): (t: seq<byte>)
    ensures t <= s
    ensures t != [] ==> !strip(t[|t| - 1])
    ensures forall i :: |t| <= i < |s| ==> strip(s[i])
  {
    if s == [] || !strip(s[|s| - 1]) then s else StripTrailing(s[..|s| - 1], strip)
  }

  function StripLeading(s: seq<byte>, strip: byte -> bool): (t: seq<byte>)
    ensures |t| <= |s| && t == s[|s| - |t|..]
    ensures t != [] ==> !strip(t[0])
    ensures forall i :: 0 <= i < |s| - |t| ==> strip(s[i])
  {
    if s == [] || !strip(s[0]) then s else StripLeading(s[1..], strip)
  }

  /** The numeral of a header field: trailing NUL and space removed, then whitespace trimmed. */
  function FieldText(field: seq<byte>): seq<byte> {
    StripLeading(StripTrailing(StripTrailing(Ascii(field), NulOrSpace), Whitespace), Whitespace)
  }

  /** parseOctal: None stands for its two errors, a non-octal field and an unsafe integer. */
  function ParseOctal(field: seq<byte>): Option<nat> {
    var raw := FieldText(field);
    if raw == [] then Some(0)
    else if !OctalDigits(raw) then None
    else if OctalValue(raw) > MAX_SAFE_INTEGER then None
    else Some(OctalValue(raw))
  }

  lemma StripKeeps(s: seq<byte>, tail: seq<byte>, strip: byte -> bool)
    requires s != [] && !strip(s[|s| - 1]) && forall i :: 0 <= i < |tail| ==> strip(tail[i])
    ensures StripTrailing(s + tail, strip) == s
  {
    var t := StripTrailing(s + tail, strip);
    assert (s + tail)[|s| - 1] == s[|s| - 1];
    assert |t| == |s|;
    assert t == (s + tail)[..|s|];
  }

  lemma FieldTextKeeps(digits: seq<byte>, tail: seq<byte>)
    requires digits != [] && OctalDigits(digits)
    requires forall i :: 0 <= i < |tail| ==> NulOrSpace(tail[i])
    ensures FieldText(digits + tail) == digits
  {
    assert Ascii(digits + tail) == digits + tail;
    StripKeeps(digits, tail, NulOrSpace);
  }

  /** A zero-padded numeral followed by NUL and space terminators reads back as its value. */
  lemma OctalRoundTrip(v: nat, n: nat, tail: seq<byte>)
    requires v <= MAX_SAFE_INTEGER
    requires forall i :: 0 <= i < |tail| ==> NulOrSpace(tail[i])
    ensures ParseOctal(PadStart(OctalText(v), n) + tail) == Some(v)
  {
    PadStartValue(v, n);
    FieldTextKeeps(PadStart(OctalText(v), n), tail);
  }

  // ---------------------------------------------------------------- what well-formed means

  /** A Unicode scalar value. */
  type Scalar = c: nat | c < 0x110000 && !(0xD800 <= c <= 0xDFFF) witness 0

  /** The UTF-8 form of a scalar value. */
  function Utf8(c: Scalar): seq<byte> {
    if c < 0x80 then [c]
    else if c < 0x800 then [0xC0 + c / 64, 0x80 + c % 64]
    else if c < 0x10000 then [0xE0 + c / 4096, 0x80 + c / 64 % 64, 0x80 + c % 64]
    else [0xF0 + c / 262144, 0x80 + c / 4096 % 64, 0x80 + c / 64 % 64, 0x80 + c % 64]
  }

  function Utf8Text(cs: seq<Scalar>): seq<byte> {
    if cs == [] then [] else Utf8(cs[0]) + Utf8Text(cs[1..])
  }

  lemma CharOfScalar(c: Scalar, rest: seq<byte>)
    ensures CharLength(Utf8(c) + rest) == |Utf8(c)|
  {
    var u := Utf8(c);
    var s := u + rest;
    assert forall i :: 0 <= i < |u| ==> s[i] == u[i];
  }

  lemma Base64Digits(h: nat, l: nat)
    requires l < 64
    ensures (h * 64 + l) / 64 == h && (h * 64 + l) % 64 == l
  {
  }

  lemma TwoBytes(a: int, x: int) returns (c: Scalar)
    requires 0xC2 <= a <= 0xDF && 0x80 <= x <= 0xBF
    ensures Utf8(c) == [a, x]
  {
    c := (a - 0xC0) * 64 + (x - 0x80);
    Base64Digits(a - 0xC0, x - 0x80);
  }

  lemma ThreeBytes(a: int, x: int, y: int) returns (c: Scalar)
    requires 0xE0 <= a <= 0xEF && 0x80 <= x <= 0xBF && 0x80 <= y <= 0xBF
    requires (a == 0xE0 ==> x >= 0xA0) && (a == 0xED ==> x <= 0x9F)
    ensures Utf8(c) == [a, x, y]
  {
    var h := (a - 0xE0) * 64 + (x - 0x80);
    Base64Digits(a - 0xE0, x - 0x80);
    Base64Digits(h, y - 0x80);
    c := h * 64 + (y - 0x80);
    assert c / 4096 == c / 64 / 64;
  }

  lemma FourBytes(a: int, x: int, y: int, z: int) returns (c: Scalar)
    requires 0xF0 <= a <= 0xF4 && 0x80 <= x <= 0xBF && 0x80 <= y <= 0xBF && 0x80 <= z <= 0xBF
    requires (a == 0xF0 ==> x >= 0x90) && (a == 0xF4 ==> x <= 0x8F)
    ensures Utf8(c) == [a, x, y, z]
  {
    var g := (a - 0xF0) * 64 + (x - 0x80);
    var h := g * 64 + (y - 0x80);
    Base64Digits(a - 0xF0, x - 0x80);
    Base64Digits(g, y - 0x80);
    Base64Digits(h, z - 0x80);
    c := h * 64 + (z - 0x80);
    assert c / 4096 == c / 64 / 64 && c / 262144 == c / 64 / 64 / 64;
  }

  lemma ScalarOfChar(s: seq<byte>) returns (c: Scalar)
    requires CharLength(s) > 0
    ensures s[..CharLength(s)] == Utf8(c)
  {
    var n := CharLength(s);
    assert n == 1 ==> s[0] < 0x80;
    hide Utf8;
    if n == 1 {
      c := s[0];
      OneByte(c);
    } else if n == 2 {
      c := TwoBytes(s[0], s[1]);
    } else if n == 3 {
      c := ThreeBytes(s[0], s[1], s[2]);
    } else {
      c := FourBytes(s[0], s[1], s[2], s[3]);
    }
  }

  lemma OneByte(c: Scalar)
    requires c < 0x80
    ensures Utf8(c) == [c]
  {
  }

  lemma {:induction false} TextIsValid(cs: seq<Scalar>)
    ensures ValidUtf8(Utf8Text(cs))
  {
    hide CharLength, Utf8;
    if cs != [] {
      TextIsValid(cs[1..]);
      var u, rest := Utf8(cs[0]), Utf8Text(cs[1..]);
      CharOfScalar(cs[0], rest);
      Utf8IsShort(cs[0]);
      assert (u + rest)[|u|..] == rest;
    }
  }

  lemma Utf8IsShort(c: Scalar)
    ensures 0 < |Utf8(c)| <= 4
  {
  }

  /** Bytes are well-formed exactly when they are the UTF-8 form of some text. */
  lemma {:induction false} ValidMeans(s: seq<byte>)
    ensures ValidUtf8(s) <==> exists cs :: s == Utf8Text(cs)
  {
    hide CharLength, Utf8;
    if cs :| s == Utf8Text(cs) { TextIsValid(cs); }
    if ValidUtf8(s) {
      if s == [] {
        assert s == Utf8Text([]);
      } else {
        var n := CharLength(s);
        var c := ScalarOfChar(s);
        ValidMeans(s[n..]);
        var rest :| s[n..] == Utf8Text(rest);
        var cs := [c] + rest;
        assert cs[1..] == rest && s == s[..n] + s[n..];
        assert s == Utf8Text(cs);
      }
    }
  }

  /** A leading digit counts for its place. */
  lemma {:induction false} OctalPlace(d: byte, s: seq<byte>)
    requires 48 <= d <= 55 && OctalDigits(s)
    ensures OctalDigits([d] + s) && OctalValue([d] + s) == (d - 48) * Pow8(|s|) + OctalValue(s)
  {
    var t := [d] + s;
    if s == [] {
      assert t[..0] == [];
    } else {
      OctalPlace(d, s[..|s| - 1]);
      assert t[..|t| - 1] == [d] + s[..|s| - 1];
      assert (d - 48) * Pow8(|s|) == 8 * ((d - 48) * Pow8(|s| - 1));
    }
  }
}
