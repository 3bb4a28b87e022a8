/** What the reader and the canonical writer promise together. */
module TarTheorems {
  import opened Common
  import opened Text
  import opened TarWriter
  import opened TarReader

  // ---------------------------------------------------------------- reading one canonical header

  lemma FrontSlices(a: seq<byte>, b: seq<byte>, c: seq<byte>, d: seq<byte>, e: seq<byte>, g: seq<byte>)
    requires |a| == 100 && |b| == 8 && |c| == 8 && |d| == 8 && |e| == 12 && |g| == 12
    ensures var f := a + b + c + d + e + g;
            && f[0..100] == a && f[100..108] == b && f[108..116] == c && f[116..124] == d && f[124..136] == e
            && f[136..148] == g
  {
  }

  lemma FrontParts(e: Entry)
    requires Writable(e)
    ensures var f := HeaderFront(e); var name := SplitPath(e.path).value.name;
            && |name| <= 100 && |OctalText(e.mode % 512)| <= 7 && |OctalText(0)| <= 7
            && f[0..100] == Pad(name, 100) && f[100..108] == OctalField(e.mode % 512, 8)
            && f[108..116] == OctalField(0, 8) && f[116..124] == OctalField(0, 8)
            && f[124..136] == OctalField(SizeOf(e), 12) && f[136..148] == OctalField(0, 12)
  {
    hide OctalText, OctalField, Pad, SplitPath;
    SplitPathMeaning(e.path);
    SmallNumerals(e.mode);
    FrontSlices(Pad(SplitPath(e.path).value.name, 100), OctalField(e.mode % 512, 8), OctalField(0, 8), OctalField(0, 8),
                OctalField(SizeOf(e), 12), OctalField(0, 12));
  }

  lemma BackFields(e: Entry)
    requires Writable(e)
    ensures var b := HeaderBack(e); var prefix := SplitPath(e.path).value.prefix;
            |prefix| <= 155 && b[0] == TypeByte(e.kind) && b[189..344] == Pad(prefix, 155)
  {
    SplitPathMeaning(e.path);
    var prefix := Pad(SplitPath(e.path).value.prefix, 155);
    var b := HeaderBack(e);
    var t, z, y, x := [TypeByte(e.kind)], Zeros(100), Zeros(80), Zeros(12);
    assert b == t + z + MAGIC + VERSION + y + prefix + x;
    assert |MAGIC| == 6 && |VERSION| == 2;
    hide *;
    assert b[189..344] == prefix;
  }

  lemma HeaderFields(e: Entry)
    requires Writable(e)
    ensures var h := Header(e); var s := SplitPath(e.path).value;
            |s.name| <= 100 && |s.prefix| <= 155 && |OctalText(e.mode % 512)| <= 7
            && h[0..100] == Pad(s.name, 100)
            && h[100..108] == OctalField(e.mode % 512, 8)
            && h[124..136] == OctalField(SizeOf(e), 12)
            && h[148..156] == ChecksumField(HeaderSum(e))
            && h[156] == TypeByte(e.kind)
            && h[345..500] == Pad(s.prefix, 155)
            && Checksum(h) == HeaderSum(e)
  {
    hide HeaderFront, HeaderBack, ChecksumField, HeaderSum, Header, Sum, Pad, OctalField, OctalText, SplitPath,
      Writable;
    FrontParts(e);
    BackFields(e);
    HeaderParts(e);
    HeaderSlices(HeaderFront(e), ChecksumField(HeaderSum(e)), HeaderBack(e));
  }

  lemma HeaderParts(e: Entry)
    requires Writable(e)
    ensures Header(e) == HeaderFront(e) + ChecksumField(HeaderSum(e)) + HeaderBack(e)
    ensures Sum(HeaderFront(e)) + 8 * 32 + Sum(HeaderBack(e)) == HeaderSum(e)
  {
    hide HeaderFront, HeaderBack, ChecksumField, Sum, Writable, OctalText;
    BlankChecksum(HeaderFront(e), HeaderBack(e));
  }

  lemma HeaderSlices(f: seq<byte>, c: seq<byte>, b: seq<byte>)
    requires |f| == 148 && |c| == 8 && |b| == 356
    ensures var h := f + c + b;
            && h[..148] == f && h[148..156] == c && h[156..] == b && h[156] == b[0]
            && h[0..100] == f[0..100] && h[100..108] == f[100..108] && h[124..136] == f[124..136]
            && h[345..500] == b[189..344]
  {
  }

  /** A zero-padded text field reads back as its text, also when it fills the field. */
  lemma PaddedStringReads(h: seq<byte>, offset: nat, length: nat, s: seq<byte>)
    requires offset + length <= |h| && |s| <= length && 0 !in s
    requires h[offset..offset + length] == Pad(s, length)
    ensures TarString(h, offset, length) == Decode(s)
  {
    var end := IndexOf(h, 0, offset);
    var p := Pad(s, length);
    assert forall i :: 0 <= i < length ==> h[offset + i] == p[i];
    assert forall i :: 0 <= i < |s| ==> h[offset + i] == s[i];
    if |s| < length {
      assert h[offset + |s|] == 0;
    }
    var stop := if end == -1 || end > offset + length then offset + length else end;
    assert stop == offset + |s|;
    assert h[offset..stop] == s;
  }

  function DropBom(s: seq<byte>): seq<byte> {
    if BOM <= s then s[3..] else s
  }

  /** The path the reader reconstructs from a canonical header. */
  function ReadBack(path: seq<byte>): seq<byte>
    requires SplitPath(path).Some?
  {
    var s := SplitPath(path).value;
    Join(Split(DropBom(s.name), s.prefix))
  }

  /** The one shape a canonical header cannot carry: a byte order mark opening the split-off name. */
  predicate BomAtSplit(path: seq<byte>) {
    SplitPath(path).Some? && BOM <= SplitPath(path).value.name
  }

  lemma ReadBackMeaning(path: seq<byte>)
    requires SplitPath(path).Some?
    ensures if BomAtSplit(path) then |ReadBack(path)| == |path| - 3 else ReadBack(path) == path
  {
    SplitPathMeaning(path);
  }

  /** Safe decoded text: what every accepted path is. */
  predicate GoodPath(path: seq<byte>) {
    SafePath(path) && ValidUtf8(path)
  }

  lemma GoodPathParts(path: seq<byte>)
    requires GoodPath(path) && SplitPath(path).Some?
    ensures var s := SplitPath(path).value;
            && 0 !in s.name && 0 !in s.prefix
            && Decode(s.name) == Some(DropBom(s.name)) && Decode(s.prefix) == Some(s.prefix)
  {
    SplitPathMeaning(path);
    var s := SplitPath(path).value;
    var n := WithoutTrailingSlash(path);
    assert forall i :: 0 <= i < |n| ==> path[i] == n[i];
    assert 0 !in path;
    assert path[0] == PACKAGE[0] == 0x70;
    if s.prefix == [] {
      assert s.name == path;
    } else {
      assert path == s.prefix + [SLASH] + s.name;
      ValidAroundAscii(s.prefix, SLASH, s.name);
      assert forall i :: 0 <= i < |s.prefix| ==> s.prefix[i] == path[i];
      assert forall i :: 0 <= i < |s.name| ==> s.name[i] == path[|s.prefix| + 1 + i];
    }
  }

  lemma SizeIsSafe(e: Entry)
    requires Writable(e)
    ensures SizeOf(e) <= MAX_SAFE_INTEGER
  {
    OctalTextLength(SizeOf(e), 11);
    assert Pow8(3) == 512 by { assert Pow8(0) == 1 && Pow8(1) == 8 && Pow8(2) == 64; }
    assert Pow8(6) == 262144 by { assert Pow8(4) == 4096 && Pow8(5) == 32768; }
    assert Pow8(9) == 134217728 by { assert Pow8(7) == 2097152 && Pow8(8) == 16777216; }
    assert Pow8(10) == 1073741824 && Pow8(11) == 8589934592;
  }

  lemma ReadFieldsFrom(h: seq<byte>, limits: Limits, name: seq<byte>, prefix: seq<byte>, size: nat)
    requires |h| == BLOCK && ParseOctal(h[148..156]) == Some(Checksum(h))
    requires TarString(h, 0, 100) == Some(name) && TarString(h, 345, 155) == Some(prefix)
    requires ParseOctal(h[124..136]) == Some(size) && size <= limits.maxEntryBytes
    ensures ReadFields(h, limits) == Ok(Fields(name, prefix, size))
  {
    hide ParseOctal, TarString, Checksum;
  }

  lemma ChecksumReads(e: Entry)
    requires Writable(e)
    ensures ParseOctal(ChecksumField(HeaderSum(e))) == Some(HeaderSum(e))
  {
    SumBound(HeaderFront(e) + SPACES + HeaderBack(e));
    OctalRoundTrip(HeaderSum(e), 6, [0, 32]);
  }

  lemma NumbersRead(e: Entry)
    requires Writable(e)
    ensures ParseOctal(OctalField(SizeOf(e), 12)) == Some(SizeOf(e))
    ensures |OctalText(e.mode % 512)| <= 7 && ParseOctal(OctalField(e.mode % 512, 8)) == Some(e.mode % 512)
  {
    hide ParseOctal;
    SizeIsSafe(e);
    SmallNumerals(e.mode);
    OctalRoundTrip(SizeOf(e), 11, [0]);
    OctalRoundTrip(e.mode % 512, 7, [0]);
  }

  lemma CanonicalHeaderReads(e: Entry, limits: Limits)
    requires Writable(e) && GoodPath(e.path) && SizeOf(e) <= limits.maxEntryBytes
    ensures ReadFields(Header(e), limits)
         == Ok(Fields(DropBom(SplitPath(e.path).value.name), SplitPath(e.path).value.prefix, SizeOf(e)))
    ensures ParseOctal(Header(e)[100..108]) == Some(e.mode % 512)
    ensures Header(e)[156] == TypeByte(e.kind)
  {
    var h, s := Header(e), SplitPath(e.path).value;
    hide *;
    HeaderFields(e);
    GoodPathParts(e.path);
    PaddedStringReads(h, 0, 100, s.name);
    PaddedStringReads(h, 345, 155, s.prefix);
    NumbersRead(e);
    ChecksumReads(e);
    ReadFieldsFrom(h, limits, DropBom(s.name), s.prefix, SizeOf(e));
  }

  // ---------------------------------------------------------------- the fields that are always the same

  lemma ZeroField(n: nat)
    requires n >= 2
    ensures |OctalText(0)| <= n - 1 && OctalField(0, n) == seq(n - 1, _ => 48) + [0]
  {
    assert OctalText(0) == [48];
    var f: seq<byte> := seq(n - 1, _ => 48);
    assert PadStart([48], n - 1) == f;
  }

  lemma HeaderBackConstants(e: Entry)
    requires Writable(e)
    ensures var b := HeaderBack(e);
            && b[1..101] == Zeros(100) && b[101..107] == [0x75, 0x73, 0x74, 0x61, 0x72, 0]
                && b[107..109] == [0x30, 0x30]
            && b[109..189] == Zeros(80) && b[344..356] == Zeros(12)
  {
    SplitPathMeaning(e.path);
    var prefix := Pad(SplitPath(e.path).value.prefix, 155);
    var b := HeaderBack(e);
    var t, z, y, x, m, v := [TypeByte(e.kind)], Zeros(100), Zeros(80), Zeros(12), MAGIC, VERSION;
    assert b == t + z + m + v + y + prefix + x;
    assert m == [0x75, 0x73, 0x74, 0x61, 0x72, 0] && v == [0x30, 0x30];
    hide *;
    assert b[1..101] == z && b[101..107] == m && b[107..109] == v && b[109..189] == y && b[344..356] == x;
  }

  /** Owner, group and time are zero numerals, the magic is "ustar" NUL "00", and link name, owner names and
      device numbers are empty. */
  lemma HeaderConstants(e: Entry)
    requires Writable(e)
    ensures var h := Header(e);
            && h[108..116] == h[116..124] == [48, 48, 48, 48, 48, 48, 48, 0]
            && h[136..148] == [48, 48, 48, 48, 48, 48, 48, 48, 48, 48, 48, 0]
            && h[257..265] == [0x75, 0x73, 0x74, 0x61, 0x72, 0, 0x30, 0x30]
            && AllZero(h[157..257]) && AllZero(h[265..345]) && AllZero(h[500..512])
  {
    var f, c, b := HeaderFront(e), ChecksumField(HeaderSum(e)), HeaderBack(e);
    FrontParts(e);
    HeaderBackConstants(e);
    HeaderParts(e);
    ZeroField(8);
    ZeroField(12);
    var s7: seq<byte>, s11: seq<byte> := seq(7, _ => 48), seq(11, _ => 48);
    assert s7 + [0] == [48, 48, 48, 48, 48, 48, 48, 0];
    assert s11 + [0] == [48, 48, 48, 48, 48, 48, 48, 48, 48, 48, 48, 0];
    hide HeaderFront, HeaderBack, ChecksumField, HeaderSum, Header, Writable, OctalField;
    MoreSlices(f, c, b);
  }

  lemma MoreSlices(f: seq<byte>, c: seq<byte>, b: seq<byte>)
    requires |f| == 148 && |c| == 8 && |b| == 356
    ensures var h := f + c + b;
            && h[108..116] == f[108..116] && h[116..124] == f[116..124] && h[136..148] == f[136..148]
            && h[157..257] == b[1..101] && h[257..265] == b[101..107] + b[107..109] && h[265..345] == b[109..189]
            && h[500..512] == b[344..356]
  {
  }

  // ---------------------------------------------------------------- what a safe path is

  lemma {:induction false} FirstSegment(a: seq<byte>, b: seq<byte>)
    requires SLASH !in a
    ensures Segments(a + [SLASH] + b) == [a] + Segments(b)
  {
    var s := a + [SLASH] + b;
    var i := IndexOf(s, SLASH, 0);
    assert s[|a|] == SLASH;
    assert forall k :: 0 <= k < |a| ==> s[k] == a[k];
    assert i == |a|;
    assert s[..i] == a && s[i + 1..] == b;
  }

  lemma LastSegment(s: seq<byte>)
    requires SLASH !in s
    ensures Segments(s) == [s]
  {
    assert s[0..] == s;
  }

  function JoinSlash(segments: seq<seq<byte>>): seq<byte>
    requires segments != []
  {
    if |segments| == 1 then segments[0] else segments[0] + [SLASH] + JoinSlash(segments[1..])
  }

  /** A name a path may go through: not empty, not one or two dots, without slash, backslash and NUL. */
  predicate ProperName(s: seq<byte>) {
    s != [] && s != [0x2e] && s != [0x2e, 0x2e] && 0x2f !in s && 0x5c !in s && 0 !in s
  }

  /** "package" and then proper names. */
  ghost predicate ProperNames(segments: seq<seq<byte>>) {
    && segments != [] && segments[0] == [0x70, 0x61, 0x63, 0x6b, 0x61, 0x67, 0x65]
    && forall i :: 0 <= i < |segments| ==> ProperName(segments[i])
  }

  lemma {:induction false} SegmentsOfJoin(segments: seq<seq<byte>>)
    requires segments != [] && forall i :: 0 <= i < |segments| ==> SLASH !in segments[i]
    ensures Segments(JoinSlash(segments)) == segments
  {
    hide Segments;
    if |segments| == 1 {
      LastSegment(segments[0]);
    } else {
      SegmentsOfJoin(segments[1..]);
      FirstSegment(segments[0], JoinSlash(segments[1..]));
      assert segments == [segments[0]] + segments[1..];
    }
  }

  lemma {:induction false} JoinOfSegments(s: seq<byte>)
    ensures JoinSlash(Segments(s)) == s
    ensures forall i :: 0 <= i < |Segments(s)| ==> SLASH !in Segments(s)[i]
    ensures forall i, x :: 0 <= i < |Segments(s)| && x in Segments(s)[i] ==> x in s
  {
    var i := IndexOf(s, SLASH, 0);
    if i == -1 {
      assert s[0..] == s;
    } else {
      JoinOfSegments(s[i + 1..]);
      assert s[0..i] == s[..i] && s == s[..i] + [SLASH] + s[i + 1..];
      assert Segments(s)[1..] == Segments(s[i + 1..]);
    }
  }

  lemma {:induction false} JoinChars(segments: seq<seq<byte>>, x: byte)
    requires segments != [] && x != SLASH && forall i :: 0 <= i < |segments| ==> x !in segments[i]
    ensures x !in JoinSlash(segments)
  {
    if |segments| > 1 { JoinChars(segments[1..], x); }
  }

  lemma {:induction false} JoinEnds(segments: seq<seq<byte>>)
    requires segments != [] && forall i :: 0 <= i < |segments| ==> segments[i] != [] && SLASH !in segments[i]
    ensures JoinSlash(segments) != [] && JoinSlash(segments)[|JoinSlash(segments)| - 1] != SLASH
    ensures segments[0] <= JoinSlash(segments) && (|segments| > 1 ==> segments[0] + [SLASH] <= JoinSlash(segments))
  {
    if |segments| > 1 {
      JoinEnds(segments[1..]);
      var rest := JoinSlash(segments[1..]);
      var s := segments[0] + [SLASH] + rest;
      assert s[|s| - 1] == rest[|rest| - 1];
    }
  }

  lemma NoDots(segments: seq<seq<byte>>)
    requires ProperNames(segments)
    ensures forall i :: 0 <= i < |segments| ==> !DotSegment(segments[i]) && segments[i] != [] && SLASH !in segments[i]
    ensures forall i :: 0 <= i < |segments| ==> 0x5c !in segments[i] && 0 !in segments[i]
  {
    forall i | 0 <= i < |segments|
      ensures !DotSegment(segments[i]) && segments[i] != [] && SLASH !in segments[i] && 0x5c !in segments[i]
              && 0 !in segments[i]
    {
      assert ProperName(segments[i]);
    }
  }

  lemma SafeFromParts(path: seq<byte>, n: seq<byte>)
    requires WithoutTrailingSlash(path) == n && n != [] && (n == PACKAGE || PACKAGE + [SLASH] <= n)
    requires 0x5c !in n && 0 !in n && n[0] != SLASH
    requires forall i :: 0 <= i < |Segments(n)| ==> !DotSegment(Segments(n)[i])
    ensures SafePath(path)
  {
    hide Segments, DotSegment, WithoutTrailingSlash;
  }

  lemma ProperIsSafe(segments: seq<seq<byte>>)
    requires ProperNames(segments)
    ensures SafePath(JoinSlash(segments)) && SafePath(JoinSlash(segments) + [SLASH])
  {
    var n := JoinSlash(segments);
    assert segments[0] == PACKAGE && (|segments| == 1 ==> n == PACKAGE);
    NoDots(segments);
    hide Segments, JoinSlash, DotSegment, ProperNames, SafePath;
    SegmentsOfJoin(segments);
    JoinChars(segments, 0x5c);
    JoinChars(segments, 0);
    JoinEnds(segments);
    assert n[0] == PACKAGE[0];
    assert WithoutTrailingSlash(n + [SLASH]) == n by { assert (n + [SLASH])[..|n|] == n; }
    SafeFromParts(n, n);
    SafeFromParts(n + [SLASH], n);
  }

  lemma PackageFirst(n: seq<byte>)
    requires n == PACKAGE || PACKAGE + [SLASH] <= n
    ensures Segments(n)[0] == PACKAGE
  {
    hide Segments;
    if n == PACKAGE {
      LastSegment(n);
    } else {
      assert n == PACKAGE + [SLASH] + n[8..];
      FirstSegment(PACKAGE, n[8..]);
    }
  }

  lemma SafeIsProper(path: seq<byte>)
    requires SafePath(path)
    ensures ProperNames(Segments(WithoutTrailingSlash(path)))
  {
    var n := WithoutTrailingSlash(path);
    PackageFirst(n);
    JoinOfSegments(n);
    hide Segments, WithoutTrailingSlash, JoinSlash;
    var segments := Segments(n);
    forall i | 0 <= i < |segments| ensures ProperName(segments[i]) {
      assert !DotSegment(segments[i]);
      assert forall x :: x in segments[i] ==> x in n;
    }
  }

  /** A path is safe exactly when it is "package" and further proper names between slashes, with or without
      one more slash at the end. */
  lemma SafePathMeans(path: seq<byte>)
    ensures SafePath(path) <==>
              exists segments ::
                  ProperNames(segments) && (path == JoinSlash(segments) || path == JoinSlash(segments) + [SLASH])
  {
    hide Segments, JoinSlash, ProperName;
    if SafePath(path) {
      var n := WithoutTrailingSlash(path);
      SafeIsProper(path);
      JoinOfSegments(n);
      assert path == n || path == n + [SLASH];
      assert path == JoinSlash(Segments(n)) || path == JoinSlash(Segments(n)) + [SLASH];
    }
    if segments :| ProperNames(segments) && (path == JoinSlash(segments) || path == JoinSlash(segments) + [SLASH]) {
      ProperIsSafe(segments);
    }
  }

  /** Three octal digits of which the last does not grant writing. */
  predicate ModeDigits(mode: nat, a: nat, b: nat, c: nat) {
    a < 8 && b < 8 && c in {0, 1, 4, 5} && mode == 64 * a + 8 * b + c
  }

  lemma DigitsAreSafe(mode: nat, a: nat, b: nat, c: nat)
    requires ModeDigits(mode, a, b, c)
    ensures SafeMode(mode)
  {
    assert mode / 2 == 2 * (16 * a + 2 * b) + c / 2;
    assert c / 2 == 0 || c / 2 == 2;
  }

  lemma SafeHasDigits(mode: nat)
    requires SafeMode(mode)
    ensures ModeDigits(mode, mode / 64, mode / 8 % 8, mode % 8)
  {
    assert mode == 64 * (mode / 64) + 8 * (mode / 8 % 8) + mode % 8;
    assert mode / 2 % 2 == mode % 8 / 2 % 2;
  }

  /** A mode is safe exactly when it is three octal digits that do not let everyone write. */
  lemma SafeModeMeans(mode: nat)
    ensures SafeMode(mode) <==> exists a, b, c :: ModeDigits(mode, a, b, c)
  {
    hide SafeMode, ModeDigits;
    if SafeMode(mode) { SafeHasDigits(mode); }
    if a, b, c :| ModeDigits(mode, a, b, c) { DigitsAreSafe(mode, a, b, c); }
  }
}
