/** Compressed package tarballs. The compressor is a parameter: any pair whose decompressor undoes
    the compressor after the gzip MTIME and OS bytes are patched. */
module Tarball {
  import opened Common
  import opened Text
  import opened TarWriter
  import opened TarReader
  import opened TarTheorems
  import opened TarCodec
  import opened TarCanonical
  import opened TarSpelling

  datatype Codec = Codec(gzip: seq<byte> -> seq<byte>, gunzip: seq<byte> -> Option<seq<byte>>)

  /** MTIME (bytes 4 to 7) becomes zero and OS (byte 9) unknown, as in section 2.3 of RFC 1952. */
  function PatchHeader(z: seq<byte>): seq<byte> {
    if |z| < 10 then z else z[..4] + [0, 0, 0, 0] + z[8..9] + [255] + z[10..]
  }

  /** Patching a gzip header changes those five bytes and nothing else. */
  lemma PatchedBytes(z: seq<byte>, i: nat)
    requires |z| >= 10 && i < |z|
    ensures |PatchHeader(z)| == |z|
    ensures PatchHeader(z)[i] == if 4 <= i < 8 then 0 else if i == 9 then 255 else z[i]
  {
  }

  ghost predicate Faithful(c: Codec) {
    forall t :: c.gunzip(PatchHeader(c.gzip(t))) == Some(t)
  }

  function Compress(c: Codec, tar: seq<byte>): seq<byte> {
    PatchHeader(c.gzip(tar))
  }

  /** parseTarEntries, limits and decompression included. */
  function ParseTarball(tarball: seq<byte>, limits: Limits, c: Codec): Result<seq<Entry>, TarError> {
    if !ValidLimits(limits) then Err(BadLimits)
    else if |tarball| > limits.maxCompressedBytes then Err(CompressedTooLarge)
    else match c.gunzip(tarball)
      case None => Err(NotGzip)
      case Some(tar) => if |tar| > limits.maxUnpackedBytes then Err(UnpackedTooLarge) else ParseTar(tar, limits)
  }

  datatype CanonicalError = Unreadable(cause: TarError) | Unwritable(reason: WriteError)

  function Canonicalize(tarball: seq<byte>, limits: Limits, c: Codec): Result<seq<byte>, CanonicalError> {
    var entries := ParseTarball(tarball, limits, c);
    if entries.Err? then Err(Unreadable(entries.error))
    else
      var unwritable := FirstUnwritable(SortByPath(entries.value));
      if unwritable.Some? then Err(Unwritable(unwritable.value)) else Ok(Compress(c, CanonicalTar(entries.value)))
  }

  method CanonicalizePackageTarball(tarball: seq<byte>, limits: Limits, c: Codec)
    returns (r: Result<seq<byte>, CanonicalError>)
    ensures r == Canonicalize(tarball, limits, c)
  {
    hide ParseTar, AllWritable, CanonicalTar;
    if !ValidLimits(limits) { return Err(Unreadable(BadLimits)); }
    if |tarball| > limits.maxCompressedBytes { return Err(Unreadable(CompressedTooLarge)); }
    var tar := c.gunzip(tarball);
    if tar == None { return Err(Unreadable(NotGzip)); }
    if |tar.value| > limits.maxUnpackedBytes { return Err(Unreadable(UnpackedTooLarge)); }
    var entries := ParseTarEntries(tar.value, limits);
    if entries.Err? { return Err(Unreadable(entries.error)); }
    var canonical := CreateCanonicalTar(entries.value);
    if canonical.Err? { return Err(Unwritable(canonical.error)); }
    r := Ok(Compress(c, canonical.value));
  }

  /** Limits that can be used: positive safe integers, an entry not larger than the archive. */
  predicate Usable(l: Limits) {
    && 0 < l.maxCompressedBytes <= 9007199254740991 && 0 < l.maxFileCount <= 9007199254740991
    && 0 < l.maxEntryBytes <= l.maxUnpackedBytes <= 9007199254740991
  }

  /** The limits are checked first, then the compressed size, the gzip stream and the unpacked size; only
      then is the archive read. */
  lemma StagesInOrder(tarball: seq<byte>, limits: Limits, c: Codec)
    ensures ParseTarball(tarball, limits, c) ==
              if !Usable(limits) then Err(BadLimits)
              else if |tarball| > limits.maxCompressedBytes then Err(CompressedTooLarge)
              else if c.gunzip(tarball) == None then Err(NotGzip)
              else if |c.gunzip(tarball).value| > limits.maxUnpackedBytes then Err(UnpackedTooLarge)
              else Parse(c.gunzip(tarball).value, limits, State(0, None, []))
  {
    hide Parse;
  }

  /** What an accepted tarball decompresses to. */
  ghost function Unpacked(tarball: seq<byte>, limits: Limits, c: Codec): (tar: seq<byte>)
    requires ParseTarball(tarball, limits, c).Ok?
    ensures c.gunzip(tarball) == Some(tar) && |tar| <= limits.maxUnpackedBytes && ValidLimits(limits)
    ensures ParseTar(tar, limits) == ParseTarball(tarball, limits, c)
  {
    c.gunzip(tarball).value
  }

  lemma CompressInjective(c: Codec, a: seq<byte>, b: seq<byte>)
    requires Faithful(c)
    ensures Compress(c, a) == Compress(c, b) <==> a == b
  {
    assert c.gunzip(PatchHeader(c.gzip(a))) == Some(a);
    assert c.gunzip(PatchHeader(c.gzip(b))) == Some(b);
  }

  /** Two accepted tarballs canonicalize to the same bytes exactly when they hold the same members. */
  lemma TarballsCanonicalizeAlike(s: seq<byte>, t: seq<byte>, limits: Limits, c: Codec)
    requires Faithful(c) && Canonicalize(s, limits, c).Ok? && Canonicalize(t, limits, c).Ok?
    ensures Canonicalize(s, limits, c) == Canonicalize(t, limits, c)
       <==> forall e :: e in ParseTarball(s, limits, c).value <==> e in ParseTarball(t, limits, c).value
  {
    hide ParseTarball, ParseTar, AllWritable, CanonicalTar, Compress, Faithful, ValidLimits;
    var a, b := Unpacked(s, limits, c), Unpacked(t, limits, c);
    ArchivesCanonicalizeAlike(a, b, limits);
    CompressInjective(c, CanonicalTar(ParseTar(a, limits).value), CanonicalTar(ParseTar(b, limits).value));
  }

  /** A canonical tarball is a fixed point of canonicalization exactly when its compressed form meets
      the compressed limit and no split-off name opens with a byte order mark. The limits on unpacked
      bytes, entries and file counts can never be the reason for a failure. */
  lemma CanonicalTarballIsFixed(tarball: seq<byte>, limits: Limits, c: Codec)
    requires Faithful(c) && Canonicalize(tarball, limits, c).Ok?
    ensures var z := Canonicalize(tarball, limits, c).value;
            Canonicalize(z, limits, c) == Ok(z)
            <==> |z| <= limits.maxCompressedBytes && NoBom(ParseTarball(tarball, limits, c).value)
  {
    hide ParseTar, AllWritable, CanonicalTar, ValidLimits, NoBom, Stable, PatchHeader;
    var tar := Unpacked(tarball, limits, c);
    var es := ParseTar(tar, limits).value;
    var canonical := CanonicalTar(es);
    var z := Compress(c, canonical);
    CanonicalizationIdempotent(tar, limits);
    assert c.gunzip(z) == Some(canonical);
    if |z| <= limits.maxCompressedBytes {
      assert ParseTarball(z, limits, c) == ParseTar(canonical, limits);
      StableMeans(canonical, limits);
      if ParseTar(canonical, limits).Ok? && AllWritable(ParseTar(canonical, limits).value) {
        CompressInjective(c, CanonicalTar(ParseTar(canonical, limits).value), canonical);
      }
    }
  }

  lemma StableMeans(t: seq<byte>, limits: Limits)
    ensures Stable(t, limits) <==>
              ParseTar(t, limits).Ok? && AllWritable(ParseTar(t, limits).value)
                  && CanonicalTar(ParseTar(t, limits).value) == t
  {
  }

  // ---------------------------------------------------------------- the failing family is not empty

  const RELEASE_TARBALL_LIMITS := Limits(64 * 1024 * 1024, 256 * 1024 * 1024, 64 * 1024 * 1024, 10000)

  lemma {:induction false} AsciiIsValid(s: seq<byte>)
    requires forall i :: 0 <= i < |s| ==> s[i] < 0x80
    ensures ValidUtf8(s)
  {
    if s != [] { AsciiIsValid(s[1..]); }
  }

  /** package/ then 95 letters, a slash and the name. */
  function DeepPath(name: seq<byte>): seq<byte> {
    PACKAGE + [SLASH] + (seq(95, _ => 0x61) + [SLASH] + name)
  }

  lemma DeepPathIsValid(name: seq<byte>)
    requires ValidUtf8(name)
    ensures ValidUtf8(DeepPath(name))
  {
    var letters: seq<byte> := seq(95, _ => 0x61);
    AsciiIsValid(PACKAGE);
    AsciiIsValid(letters);
    hide ValidUtf8;
    ValidAroundAscii(letters, SLASH, name);
    ValidAroundAscii(PACKAGE, SLASH, letters + [SLASH] + name);
  }

  /** A name that a path can end with. */
  predicate PlainName(name: seq<byte>) {
    ValidUtf8(name) && 2 < |name| <= 100 && SLASH !in name && 0 !in name && 0x5c !in name
  }

  lemma DeepPathBytes(name: seq<byte>)
    ensures var path := DeepPath(name);
            && |path| == 104 + |name| && path[..8] == PACKAGE + [SLASH] && path[103] == SLASH && path[104..] == name
            && path[..103] + [SLASH] + name == path && path[..103] == DeepPath([])[..103]
            && forall i :: 0 <= i < 104 ==> path[i] != 0 && path[i] != 0x5c
  {
  }

  lemma DeepPathIsGood(name: seq<byte>)
    requires PlainName(name)
    ensures GoodPath(DeepPath(name))
  {
    DeepPathIsValid(name);
    var letters: seq<byte> := seq(95, _ => 0x61);
    var segments := [PACKAGE, letters, name];
    assert segments[1..] == [letters, name] && segments[1..][1..] == [name];
    assert JoinSlash([name]) == name && JoinSlash([letters, name]) == letters + [SLASH] + name;
    assert JoinSlash(segments) == DeepPath(name);
    hide ValidUtf8, DeepPath, JoinSlash;
    LongIsProper(PACKAGE);
    LongIsProper(letters);
    LongIsProper(name);
    ProperIsSafe(segments);
  }

  lemma LongIsProper(s: seq<byte>)
    requires |s| > 2 && SLASH !in s && 0 !in s && 0x5c !in s
    ensures ProperName(s)
  {
  }

  lemma DeepPathSplits(name: seq<byte>)
    requires PlainName(name)
    ensures SplitPath(DeepPath(name)) == Some(Split(name, DeepPath(name)[..103]))
  {
    DeepPathBytes(name);
    hide ValidUtf8, DeepPath;
    var path := DeepPath(name);
    assert forall j :: 104 <= j < |path| ==> path[j] == path[104..][j - 104];
    assert SplitsAt(path, 103);
    var i := SplitBelowMeaning(path, |path|);
    assert i == 103;
  }

  const BOM_NAME := BOM + [0x62]

  lemma BomNameIsPlain()
    ensures PlainName(BOM_NAME)
  {
    AsciiIsValid([0x62]);
    assert CharLength(BOM_NAME) == 3 && BOM_NAME[3..] == [0x62];
  }

  /** An archive that the reader accepts under the release limits, and whose canonical form neither reads
      back as the accepted members nor is stable. */
  lemma RoundTripCanFail() returns (tar: seq<byte>, e: Entry)
    ensures ParseTar(tar, RELEASE_TARBALL_LIMITS) == Ok([e]) && AllWritable([e]) && BomAtSplit(e.path)
    ensures ParseTar(CanonicalTar([e]), RELEASE_TARBALL_LIMITS) != Ok(SortByPath([e]))
    ensures !Stable(CanonicalTar([e]), RELEASE_TARBALL_LIMITS)
  {
    e := Entry(DeepPath(BOM_NAME), 420, File, []);
    BomNameIsPlain();
    DeepPathBytes(BOM_NAME);
    hide DeepPath, PlainName, SplitPath, GoodPath, ParseTar, CanonicalTar, Stable;
    DeepPathIsGood(BOM_NAME);
    DeepPathSplits(BOM_NAME);
    SmallEntry(e);
    tar := EveryAcceptableListArises([e], RELEASE_TARBALL_LIMITS);
    BomBreaksRoundTrip(e);
    BomBreaksIdempotence(tar, e);
  }

  lemma SmallEntry(e: Entry)
    requires GoodPath(e.path) && SplitPath(e.path).Some? && e.mode == 420 && e.kind == File && e.data == []
    ensures Accepted([e], RELEASE_TARBALL_LIMITS) && AllWritable([e]) && Writable(e)
            && GoodMember(e, RELEASE_TARBALL_LIMITS)
    ensures ValidLimits(RELEASE_TARBALL_LIMITS)
  {
    hide GoodPath, SplitPath, Total;
    assert OctalText(0) == [48];
    TotalSingle(e, IsFile);
    TotalSingle(e, SizeOf);
    assert [e][0] == e;
  }

  lemma BomBreaksRoundTrip(e: Entry)
    requires Accepted([e], RELEASE_TARBALL_LIMITS) && AllWritable([e]) && BomAtSplit(e.path)
    ensures ParseTar(CanonicalTar([e]), RELEASE_TARBALL_LIMITS) != Ok(SortByPath([e]))
  {
    hide Accepted, AllWritable, BomAtSplit, ParseTar, CanonicalTar, SortByPath;
    assert e in [e] && !NoBom([e]);
    RoundTripExactly([e], RELEASE_TARBALL_LIMITS);
  }

  lemma BomBreaksIdempotence(tar: seq<byte>, e: Entry)
    requires ParseTar(tar, RELEASE_TARBALL_LIMITS) == Ok([e]) && AllWritable([e]) && BomAtSplit(e.path)
    ensures !Stable(CanonicalTar([e]), RELEASE_TARBALL_LIMITS)
  {
    hide AllWritable, BomAtSplit, ParseTar, CanonicalTar, Stable;
    assert e in [e] && !NoBom([e]);
    CanonicalizationIdempotent(tar, RELEASE_TARBALL_LIMITS);
  }

  // ---------------------------------------------------------------- the compressed limit can fail alone

  /** A decompressor that also knows a one-byte form of the empty archive, which its compressor does not use. */
  function Lopsided(): Codec {
    Codec(t => Zeros(10) + t,
          z => if z == [1] then Some(Zeros(1024)) else if |z| >= 10 then Some(z[10..]) else None)
  }

  lemma LopsidedIsFaithful()
    ensures Faithful(Lopsided())
  {
    var c := Lopsided();
    forall t ensures c.gunzip(PatchHeader(c.gzip(t))) == Some(t) {
      var z := PatchHeader(c.gzip(t));
      assert |z| == 10 + |t| && z[10..] == t;
    }
  }

  /** With a faithful compressor and valid limits, an accepted tarball whose canonical form is refused for
      its compressed size, although no path opens with a byte order mark. */
  lemma CompressedLimitCanFail() returns (tarball: seq<byte>, limits: Limits, c: Codec)
    ensures Faithful(c) && Canonicalize(tarball, limits, c).Ok? && NoBom(ParseTarball(tarball, limits, c).value)
    ensures Canonicalize(Canonicalize(tarball, limits, c).value, limits, c) == Err(Unreadable(CompressedTooLarge))
  {
    tarball, limits, c := [1], Limits(1, 1024, 1024, 1), Lopsided();
    LopsidedIsFaithful();
    EmptyArchive(limits);
    var z := Canonicalize(tarball, limits, c).value;
    assert |z| == 1034;
  }

  lemma EmptyArchive(limits: Limits)
    requires ValidLimits(limits)
    ensures ParseTar(Zeros(1024), limits) == Ok([]) && AllWritable([]) && SortByPath([]) == []
            && CanonicalTar([]) == Zeros(1024)
  {
    assert Zeros(1024) == [] + Zeros(1024);
    ParseAtEnd(Zeros(1024), limits, State(0, None, []), []);
    assert Body([]) + Zeros(1024) == Zeros(1024);
  }
}
