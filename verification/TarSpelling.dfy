/** Archives spelled out as bytes, not as this writer would write them: any owner, time, link name and
    padding, PAX and GNU path headers, and what the reader makes of them. */
module TarSpelling {
  import opened Common
  import opened Text
  import opened TarWriter
  import opened TarReader
  import opened TarTheorems
  import opened TarCodec
  import opened TarCanonical

  // ---------------------------------------------------------------- headers

  /** A header by its fields; what the reader does not look at is arbitrary. */
  datatype Raw = Raw(name: seq<byte>, mode: nat, ids: seq<byte>, size: nat, time: seq<byte>, kind: byte,
                     filler: seq<byte>, prefix: seq<byte>, tail: seq<byte>)

  predicate Spelled(r: Raw) {
    && |r.name| <= 100 && 0 !in r.name && |r.prefix| <= 155 && 0 !in r.prefix
    && |r.ids| == 16 && |r.time| == 12 && |r.filler| == 188 && |r.tail| == 12
    && |OctalText(r.mode)| <= 7 && |OctalText(r.size)| <= 11
  }

  function RawFront(r: Raw): (f: seq<byte>)
    requires Spelled(r)
    ensures |f| == 148
  {
    Pad(r.name, 100) + OctalField(r.mode, 8) + r.ids + OctalField(r.size, 12) + r.time
  }

  function RawBack(r: Raw): (f: seq<byte>)
    requires Spelled(r)
    ensures |f| == 356
  {
    [r.kind] + r.filler + Pad(r.prefix, 155) + r.tail
  }

  lemma SumFits(f: seq<byte>, b: seq<byte>)
    requires |f| == 148 && |b| == 356
    ensures |OctalText(Sum(f) + 256 + Sum(b))| <= 6 && Sum(f) + 256 + Sum(b) < 262144
  {
    SumBound(f);
    SumBound(b);
    assert Pow8(6) == 262144 by {
      assert Pow8(0) == 1 && Pow8(1) == 8 && Pow8(2) == 64 && Pow8(3) == 512 && Pow8(4) == 4096;
    }
    OctalTextLength(Sum(f) + 256 + Sum(b), 6);
  }

  /** The header with the checksum of its bytes, the checksum field counted as spaces. */
  function RawHeader(r: Raw): (h: seq<byte>)
    requires Spelled(r)
    ensures |h| == BLOCK
  {
    SumFits(RawFront(r), RawBack(r));
    RawFront(r) + ChecksumField(Sum(RawFront(r)) + 256 + Sum(RawBack(r))) + RawBack(r)
  }

  lemma RawFrontFields(r: Raw)
    requires Spelled(r)
    ensures var f := RawFront(r);
            f[0..100] == Pad(r.name, 100) && f[100..108] == OctalField(r.mode, 8)
                && f[124..136] == OctalField(r.size, 12)
  {
    var a, b, c, d, e := Pad(r.name, 100), OctalField(r.mode, 8), r.ids, OctalField(r.size, 12), r.time;
    var f := RawFront(r);
    hide *;
    assert f == a + b + c + d + e;
    assert f[0..100] == a && f[100..108] == b && f[124..136] == d;
  }

  lemma RawBackFields(r: Raw)
    requires Spelled(r)
    ensures var b := RawBack(r); b[0] == r.kind && b[189..344] == Pad(r.prefix, 155)
  {
    var k, f, p, t := [r.kind], r.filler, Pad(r.prefix, 155), r.tail;
    var b := RawBack(r);
    hide *;
    assert b == k + f + p + t;
    assert b[189..344] == p;
  }

  lemma RawNumbers(r: Raw)
    requires Spelled(r)
    ensures ParseOctal(OctalField(r.mode, 8)) == Some(r.mode) && ParseOctal(OctalField(r.size, 12)) == Some(r.size)
  {
    hide ParseOctal;
    ElevenDigits(r.mode);
    ElevenDigits(r.size);
    OctalRoundTrip(r.mode, 7, [0]);
    OctalRoundTrip(r.size, 11, [0]);
  }

  lemma ElevenDigits(v: nat)
    requires |OctalText(v)| <= 11
    ensures v <= MAX_SAFE_INTEGER
  {
    OctalTextLength(v, 11);
    assert Pow8(3) == 512 by { assert Pow8(0) == 1 && Pow8(1) == 8 && Pow8(2) == 64; }
    assert Pow8(6) == 262144 by { assert Pow8(4) == 4096 && Pow8(5) == 32768; }
    assert Pow8(9) == 134217728 by { assert Pow8(7) == 2097152 && Pow8(8) == 16777216; }
    assert Pow8(10) == 1073741824 && Pow8(11) == 8589934592;
  }

  lemma RawChecksum(r: Raw)
    requires Spelled(r)
    ensures var h := RawHeader(r);
            && h[0..100] == Pad(r.name, 100) && h[100..108] == OctalField(r.mode, 8)
            && h[124..136] == OctalField(r.size, 12) && h[345..500] == Pad(r.prefix, 155) && h[156] == r.kind
            && ParseOctal(h[148..156]) == Some(Checksum(h)) && h[148..156][0] != 0
  {
    hide RawFront, RawBack, ChecksumField, Sum, Pad, OctalField, ParseOctal, Spelled, OctalText, PadStart;
    var f, b := RawFront(r), RawBack(r);
    var sum := Sum(f) + 256 + Sum(b);
    SumFits(f, b);
    var c := ChecksumField(sum);
    RawFrontFields(r);
    RawBackFields(r);
    HeaderSlices(f, c, b);
    ChecksumReadsBack(sum);
    FirstDigit(sum, c);
  }

  lemma ChecksumReadsBack(sum: nat)
    requires |OctalText(sum)| <= 6 && sum < 262144
    ensures ParseOctal(ChecksumField(sum)) == Some(sum)
  {
    hide ParseOctal;
    OctalRoundTrip(sum, 6, [0, 32]);
  }

  lemma FirstDigit(sum: nat, c: seq<byte>)
    requires |OctalText(sum)| <= 6 && c == ChecksumField(sum)
    ensures c[0] != 0
  {
    PadStartValue(sum, 6);
    var p := PadStart(OctalText(sum), 6);
    assert OctalDigits(p) && |p| == 6;
    assert c[0] == p[0];
  }

  /** Every header so spelled is accepted, whatever its owner, time, link name and other unread bytes. */
  lemma RawHeaderReads(r: Raw, limits: Limits)
    requires Spelled(r) && r.size <= limits.maxEntryBytes && Decode(r.name).Some? && Decode(r.prefix).Some?
    ensures ReadFields(RawHeader(r), limits) == Ok(Fields(Decode(r.name).value, Decode(r.prefix).value, r.size))
    ensures ParseOctal(RawHeader(r)[100..108]) == Some(r.mode) && RawHeader(r)[156] == r.kind
    ensures !AllZero(RawHeader(r))
  {
    hide RawHeader, ParseOctal, Pad, OctalField, Checksum, Decode, TarString, ReadFields;
    var h := RawHeader(r);
    RawChecksum(r);
    RawNumbers(r);
    PaddedStringReads(h, 0, 100, r.name);
    PaddedStringReads(h, 345, 155, r.prefix);
    ReadFieldsFrom(h, limits, Decode(r.name).value, Decode(r.prefix).value, r.size);
  }

  // ---------------------------------------------------------------- one header with its payload

  datatype Piece = Piece(header: Raw, data: seq<byte>, pad: seq<byte>)

  /** A payload of the stated size, padded with anything to a block boundary. */
  predicate GoodPiece(p: Piece, limits: Limits) {
    && Spelled(p.header) && p.header.size == |p.data| <= limits.maxEntryBytes && |p.pad| == Padding(|p.data|)
    && Decode(p.header.name).Some? && Decode(p.header.prefix).Some?
  }

  function PieceBytes(p: Piece): seq<byte>
    requires Spelled(p.header)
  {
    RawHeader(p.header) + p.data + p.pad
  }

  /** The path in the header itself. */
  function StoredPath(p: Piece): seq<byte>
    requires Decode(p.header.name).Some? && Decode(p.header.prefix).Some?
  {
    Join(Split(Decode(p.header.name).value, Decode(p.header.prefix).value))
  }

  lemma PieceLayout(pre: seq<byte>, h: seq<byte>, d: seq<byte>, z: seq<byte>, rest: seq<byte>)
    requires |h| == BLOCK && |z| == Padding(|d|)
    ensures var tar := pre + (h + d + z) + rest; var next := |pre| + BLOCK + PaddedSize(|d|);
            && next == |pre + (h + d + z)| <= |tar|
            && tar[|pre|..|pre| + BLOCK] == h && tar[|pre| + BLOCK..|pre| + BLOCK + |d|] == d
  {
    PaddingFills(|d|);
    var tar := pre + (h + d + z) + rest;
    assert tar == pre + h + d + (z + rest);
    hide PaddedSize, Padding;
  }

  /** What the reader does on any piece, by its type byte. */
  lemma StepOnPiece(tar: seq<byte>, limits: Limits, st: State, pre: seq<byte>, p: Piece, rest: seq<byte>)
    requires GoodPiece(p, limits) && tar == pre + PieceBytes(p) + rest && st.offset == |pre|
    ensures st.offset + BLOCK <= |tar| && !AllZero(tar[st.offset..st.offset + BLOCK])
    ensures var next := |pre + PieceBytes(p)|; var k := p.header.kind;
            Step(tar, limits, st) ==
              if k == 0x78 || k == 0x67 then StepPax(st, next, p.data, k == 0x67)
              else if k == 0x4c then StepGnu(st, next, p.data)
              else StepMember(st, next, RawHeader(p.header), StoredPath(p), p.data, limits)
  {
    hide ReadFields, RawHeader, Padding, PaddedSize, StepMember, AllZero, Join, StepPax, StepGnu, Decode, Spelled, Step;
    var h, next := RawHeader(p.header), |pre + PieceBytes(p)|;
    PieceLayout(pre, h, p.data, p.pad, rest);
    RawHeaderReads(p.header, limits);
    var fields := Fields(Decode(p.header.name).value, Decode(p.header.prefix).value, |p.data|);
    StepFrom(tar, limits, st, h, fields, p.data, next);
  }

  lemma StepFrom(tar: seq<byte>, limits: Limits, st: State, h: seq<byte>, fields: Fields, data: seq<byte>, next: nat)
    requires st.offset + BLOCK <= |tar| && tar[st.offset..st.offset + BLOCK] == h && ReadFields(h, limits) == Ok(fields)
    requires next == st.offset + BLOCK + PaddedSize(fields.size) <= |tar|
    requires tar[st.offset + BLOCK..st.offset + BLOCK + fields.size] == data
    ensures Step(tar, limits, st) ==
              if h[156] == 0x78 || h[156] == 0x67 then StepPax(st, next, data, h[156] == 0x67)
              else if h[156] == 0x4c then StepGnu(st, next, data)
              else StepMember(st, next, h, Join(Split(fields.name, fields.prefix)), data, limits)
  {
    hide ReadFields, PaddedSize, StepMember, Join, StepPax, StepGnu;
  }

  // ---------------------------------------------------------------- PAX records

  /** `length key=value NEWLINE`, as the pax Extended Header section of IEEE Std 1003.1 spells it. */
  datatype Record = Record(length: seq<byte>, key: seq<byte>, value: seq<byte>)

  function RecordBytes(r: Record): seq<byte> {
    r.length + [0x20] + r.key + [0x3d] + r.value + [0x0a]
  }

  /** The length is a decimal numeral of the whole record; the key is ASCII without an equals sign. */
  predicate GoodRecord(r: Record) {
    && r.length != [] && DecimalDigits(r.length) && r.length[0] != 48 && DecimalValue(r.length) == |RecordBytes(r)|
    && |RecordBytes(r)| <= MAX_SAFE_INTEGER
    && r.key != [] && 0x3d !in r.key && (forall i :: 0 <= i < |r.key| ==> r.key[i] < 128) && ValidUtf8(r.value)
  }

  lemma IndexIs(s: seq<byte>, x: byte, from: nat, i: nat)
    requires from <= i < |s| && s[i] == x && x !in s[from..i]
    ensures IndexOf(s, x, from) == i
  {
    var j := IndexOf(s, x, from);
    assert s[from..][i - from] == x;
  }

  lemma RecordSlices(pre: seq<byte>, r: Record, rest: seq<byte>)
    ensures var data := pre + RecordBytes(r) + rest;
            var space, end := |pre| + |r.length|, |pre| + |RecordBytes(r)|;
            && space + 1 < end <= |data| && data[|pre|..space] == r.length && data[space] == 0x20
            && data[space + 1..end] == r.key + [0x3d] + r.value + [0x0a]
  {
    var data := pre + RecordBytes(r) + rest;
    assert data == pre + r.length + [0x20] + (r.key + [0x3d] + r.value + [0x0a]) + rest;
  }

  lemma RecordParts(r: Record)
    requires r.key != [] && 0x3d !in r.key
    ensures var t := r.key + [0x3d] + r.value + [0x0a];
            && t[|t| - 1] == 0x0a && IndexOf(t, 0x3d, 0) == |r.key| && t[..|r.key|] == r.key
            && t[|r.key| + 1..|t| - 1] == r.value
  {
    var t := r.key + [0x3d] + r.value + [0x0a];
    assert t[0..|r.key|] == r.key;
    IndexIs(t, 0x3d, 0, |r.key|);
  }

  lemma AsciiIsSame(s: seq<byte>)
    requires forall i :: 0 <= i < |s| ==> s[i] < 128
    ensures Ascii(s) == s
  {
  }

  lemma RecordFrom(data: seq<byte>, offset: nat, space: nat, end: nat, t: seq<byte>, equals: nat, value: seq<byte>)
    requires offset <= space && space + 1 < end <= |data| && IndexOf(data, 0x20, offset) == space
    requires var text := Ascii(data[offset..space]);
             text != [] && DecimalDigits(text) && text[0] != 48
                 && DecimalValue(text) == end - offset <= MAX_SAFE_INTEGER
    requires t == data[space + 1..end] && t[|t| - 1] == 0x0a && 0 < equals < |t| - 1 && IndexOf(t, 0x3d, 0) == equals
    requires Decode(t[equals + 1..|t| - 1]) == Some(value)
    ensures ReadPaxRecord(data, offset) == Ok(PaxRecord(Ascii(t[..equals]), value, end))
  {
    hide IndexOf, Ascii, DecimalValue, DecimalDigits, Decode;
  }

  lemma RecordReads(pre: seq<byte>, r: Record, rest: seq<byte>)
    requires GoodRecord(r)
    ensures ReadPaxRecord(pre + RecordBytes(r) + rest, |pre|)
            == Ok(PaxRecord(r.key, DropBom(r.value), |pre| + |RecordBytes(r)|))
  {
    hide RecordBytes, DecimalValue, DecimalDigits, Ascii, Decode, DropBom, IndexOf, ValidUtf8, ReadPaxRecord;
    var data, space := pre + RecordBytes(r) + rest, |pre| + |r.length|;
    var t := r.key + [0x3d] + r.value + [0x0a];
    RecordSlices(pre, r, rest);
    RecordParts(r);
    NumeralBytes(r.length);
    AsciiIsSame(r.length);
    AsciiIsSame(r.key);
    IndexIs(data, 0x20, |pre|, space);
    DecodeIsDropBom(r.value);
    RecordFrom(data, |pre|, space, |pre| + |RecordBytes(r)|, t, |r.key|, DropBom(r.value));
  }

  lemma NumeralBytes(s: seq<byte>)
    requires DecimalDigits(s)
    ensures 0x20 !in s && forall i :: 0 <= i < |s| ==> s[i] < 128
  {
  }

  lemma DecodeIsDropBom(s: seq<byte>)
    requires ValidUtf8(s)
    ensures Decode(s) == Some(DropBom(s))
  {
  }

  function RecordsBytes(rs: seq<Record>): seq<byte> {
    if rs == [] then [] else RecordBytes(rs[0]) + RecordsBytes(rs[1..])
  }

  /** The attributes a list of records states, a later record replacing an earlier one of its key. */
  function Merged(rs: seq<Record>): map<seq<byte>, seq<byte>> {
    if rs == [] then map[]
    else var n := |rs| - 1; Merged(rs[..n])[rs[n].key := DropBom(rs[n].value)]
  }

  ghost predicate GoodRecords(rs: seq<Record>) {
    forall i :: 0 <= i < |rs| ==> GoodRecord(rs[i])
  }

  lemma {:induction false} RecordsRead(pre: seq<byte>, done: seq<Record>, rs: seq<Record>)
    requires GoodRecords(rs)
    ensures ParsePax(pre + RecordsBytes(rs), |pre|, Merged(done)) == Ok(Merged(done + rs))
    decreases |rs|
  {
    hide ReadPaxRecord, RecordBytes, GoodRecord, Merged, DropBom;
    if rs == [] {
      assert done + rs == done;
    } else {
      var r, more, rest := rs[0], done + [rs[0]], RecordsBytes(rs[1..]);
      RecordReads(pre, r, rest);
      MergedNext(done, r);
      RecordIsLong(r);
      RecordsRead(pre + RecordBytes(r), more, rs[1..]);
      assert more + rs[1..] == done + rs;
      assert pre + (RecordBytes(r) + rest) == pre + RecordBytes(r) + rest;
    }
  }

  lemma MergedNext(done: seq<Record>, r: Record)
    ensures Merged(done + [r]) == Merged(done)[r.key := DropBom(r.value)]
  {
    assert (done + [r])[..|done|] == done;
  }

  lemma RecordIsLong(r: Record)
    ensures RecordBytes(r) != []
  {
  }

  /** Reading spelled records gives exactly the attributes they state. */
  lemma PaxReads(rs: seq<Record>)
    requires GoodRecords(rs)
    ensures ParsePax(RecordsBytes(rs), 0, map[]) == Ok(Merged(rs))
  {
    RecordsRead([], [], rs);
    assert [] + RecordsBytes(rs) == RecordsBytes(rs) && [] + rs == rs;
  }

  /** The value of the last record whose key is the four letters "path". */
  function PathStated(rs: seq<Record>): Option<seq<byte>> {
    if rs == [] then None
    else
      var last := rs[|rs| - 1];
      if last.key == [0x70, 0x61, 0x74, 0x68] then Some(DropBom(last.value)) else PathStated(rs[..|rs| - 1])
  }

  lemma {:induction false} PathMerged(rs: seq<Record>)
    ensures PathStated(rs) == if PATH_KEY in Merged(rs) then Some(Merged(rs)[PATH_KEY]) else None
  {
    hide DropBom;
    if rs != [] { PathMerged(rs[..|rs| - 1]); }
  }

  /** A PAX header for the next member sets its path when it states one; a global one must not state one. */
  lemma PaxStep(st: State, next: nat, rs: seq<Record>)
    requires GoodRecords(rs)
    ensures StepPax(st, next, RecordsBytes(rs), false)
            == Ok(if PathStated(rs).Some? then st.(offset := next, pending := PathStated(rs)) else st.(offset := next))
    ensures StepPax(st, next, RecordsBytes(rs), true)
            == if PathStated(rs).Some? then Err(GlobalPaxPath) else Ok(st.(offset := next))
  {
    hide ParsePax, Merged;
    PaxReads(rs);
    PathMerged(rs);
  }

  // ---------------------------------------------------------------- GNU long paths

  /** Text without one final newline. */
  function WithoutNewline(s: seq<byte>): seq<byte> {
    if s != [] && s[|s| - 1] == 0x0a then s[..|s| - 1] else s
  }

  /** A GNU long path is the text before the first NUL, or all of it, without one final newline. */
  lemma GnuReads(text: seq<byte>, tail: seq<byte>)
    requires ValidUtf8(text) && 0 !in text
    ensures GnuLongPath(text + [0] + tail) == Some(WithoutNewline(DropBom(text)))
    ensures GnuLongPath(text) == Some(WithoutNewline(DropBom(text)))
  {
    var data := text + [0] + tail;
    assert data[0..|text|] == text && data[..|text|] == text;
    IndexIs(data, 0, 0, |text|);
    DecodeIsDropBom(text);
    hide Decode, DropBom, ValidUtf8;
  }

  // ---------------------------------------------------------------- whole archives

  datatype Extension =
    | Pax(piece: Piece, records: seq<Record>)
    | Global(piece: Piece, records: seq<Record>)
    | Gnu(piece: Piece, text: seq<byte>)

  ghost predicate GoodExtension(x: Extension, limits: Limits) {
    && GoodPiece(x.piece, limits)
    && match x
       case Pax(p, records) => p.header.kind == 0x78 && p.data == RecordsBytes(records) && GoodRecords(records)
       case Global(p, records) =>
         p.header.kind == 0x67 && p.data == RecordsBytes(records) && GoodRecords(records) && PathStated(records) == None
       case Gnu(p, text) =>
         p.header.kind == 0x4c && ValidUtf8(text) && 0 !in text
         && (p.data == text || exists tail :: p.data == text + [0] + tail)
  }

  /** The path for the next member after an extension. */
  function After(x: Extension, pending: Option<seq<byte>>): Option<seq<byte>> {
    match x
    case Pax(_, records) => if PathStated(records).Some? then PathStated(records) else pending
    case Global(_, _) => pending
    case Gnu(_, text) => Some(WithoutNewline(DropBom(text)))
  }

  function AfterAll(xs: seq<Extension>, pending: Option<seq<byte>>): Option<seq<byte>> {
    if xs == [] then pending else AfterAll(xs[1..], After(xs[0], pending))
  }

  lemma ExtensionStep(st: State, next: nat, x: Extension, limits: Limits)
    requires GoodExtension(x, limits)
    ensures var k := x.piece.header.kind;
            (if k == 0x78 || k == 0x67 then StepPax(st, next, x.piece.data, k == 0x67)
             else StepGnu(st, next, x.piece.data))
            == Ok(st.(offset := next, pending := After(x, st.pending)))
  {
    hide StepPax, PathStated, GnuLongPath, RecordsBytes, GoodRecords, DropBom, ValidUtf8, WithoutNewline, GoodPiece;
    match x
    case Pax(_, records) => PaxStep(st, next, records);
    case Global(_, records) => PaxStep(st, next, records);
    case Gnu(p, text) =>
      if p.data == text { GnuReads(text, []); } else {
        var tail :| p.data == text + [0] + tail;
        GnuReads(text, tail);
      }
  }

  ghost predicate GoodExtensions(xs: seq<Extension>, limits: Limits) {
    forall i :: 0 <= i < |xs| ==> GoodExtension(xs[i], limits)
  }

  lemma Spelling(x: Extension, limits: Limits)
    requires GoodExtension(x, limits)
    ensures Spelled(x.piece.header)
  {
  }

  ghost function ExtensionsBytes(xs: seq<Extension>, limits: Limits): seq<byte>
    requires GoodExtensions(xs, limits)
  {
    if xs == [] then []
    else
      Spelling(xs[0], limits);
      PieceBytes(xs[0].piece) + ExtensionsBytes(xs[1..], limits)
  }

  lemma {:induction false} ParseExtensions(tar: seq<byte>, limits: Limits, st: State, pre: seq<byte>,
                                           xs: seq<Extension>, rest: seq<byte>)
    requires GoodExtensions(xs, limits) && tar == pre + ExtensionsBytes(xs, limits) + rest && st.offset == |pre|
    ensures |pre + ExtensionsBytes(xs, limits)| <= |tar|
    ensures Parse(tar, limits, st)
            == Parse(tar, limits,
                     st.(offset := |pre + ExtensionsBytes(xs, limits)|, pending := AfterAll(xs, st.pending)))
    decreases |xs|
  {
    hide Step, Parse, After, GoodExtension, AllZero, PieceBytes, StepPax, StepGnu, StepMember;
    if xs == [] {
      assert pre + ExtensionsBytes(xs, limits) == pre;
      assert st.(offset := |pre|, pending := st.pending) == st;
    } else {
      var x := xs[0];
      ExtensionPiece(x, limits);
      var bytes, more := PieceBytes(x.piece), ExtensionsBytes(xs[1..], limits);
      Grouped(pre, bytes, more, rest);
      StepOnPiece(tar, limits, st, pre, x.piece, more + rest);
      ExtensionStep(st, |pre + bytes|, x, limits);
      var next := st.(offset := |pre + bytes|, pending := After(x, st.pending));
      ParseOnce(tar, limits, st, next);
      ParseExtensions(tar, limits, next, pre + bytes, xs[1..], rest);
    }
  }

  lemma Grouped(a: seq<byte>, b: seq<byte>, c: seq<byte>, d: seq<byte>)
    ensures a + (b + c) + d == a + b + (c + d) == a + b + c + d && a + (b + c) == a + b + c
  {
  }

  lemma ExtensionPiece(x: Extension, limits: Limits)
    requires GoodExtension(x, limits)
    ensures GoodPiece(x.piece, limits) && x.piece.header.kind in {0x78, 0x67, 0x4c}
  {
  }

  /** A member with the extension headers in front of it. */
  datatype Item = Item(extensions: seq<Extension>, member: Piece)

  ghost predicate GoodItem(item: Item, limits: Limits) {
    && GoodExtensions(item.extensions, limits) && GoodPiece(item.member, limits)
    && item.member.header.kind in {0, 0x30, 0x35}
  }

  /** The member an item states: its path from the last extension that gives one, otherwise from its own
      header; a file for type NUL or "0" and a directory for "5". */
  ghost function Stated(item: Item, limits: Limits): Entry
    requires GoodItem(item, limits)
  {
    var path := AfterAll(item.extensions, None);
    var h := item.member.header;
    Entry(if path.Some? then path.value else StoredPath(item.member), h.mode,
          if h.kind == 0x35 then Directory else File, item.member.data)
  }

  ghost predicate GoodItems(items: seq<Item>, limits: Limits) {
    forall i :: 0 <= i < |items| ==> GoodItem(items[i], limits)
  }

  ghost function AllStated(items: seq<Item>, limits: Limits): seq<Entry>
    requires GoodItems(items, limits)
  {
    if items == [] then [] else [Stated(items[0], limits)] + AllStated(items[1..], limits)
  }

  ghost function ItemBytes(item: Item, limits: Limits): seq<byte>
    requires GoodItem(item, limits)
  {
    ExtensionsBytes(item.extensions, limits) + PieceBytes(item.member)
  }

  ghost function ItemsBytes(items: seq<Item>, limits: Limits): seq<byte>
    requires GoodItems(items, limits)
  {
    if items == [] then [] else ItemBytes(items[0], limits) + ItemsBytes(items[1..], limits)
  }

  lemma MemberReads(st: State, next: nat, p: Piece, e: Entry, limits: Limits)
    requires GoodPiece(p, limits) && p.header.kind in {0, 0x30, 0x35} && Accepted(st.entries + [e], limits)
    requires e == Entry(if st.pending.Some? then st.pending.value else StoredPath(p), p.header.mode,
                        if p.header.kind == 0x35 then Directory else File, p.data)
    ensures StepMember(st, next, RawHeader(p.header), StoredPath(p), p.data, limits)
            == Ok(State(next, None, st.entries + [e]))
  {
    hide ParseOctal, RawHeader, SafePath, ValidUtf8, Accepted, Paths, FileCount, FileBytes, SafeMode, Decode, Spelled,
      Join,
      AllZero;
    RawHeaderReads(p.header, limits);
    MemberFits(st.entries, e, limits);
    LastIsGood(st.entries, e, limits);
  }

  lemma LastIsGood(es: seq<Entry>, e: Entry, limits: Limits)
    requires Accepted(es + [e], limits)
    ensures GoodMember(e, limits)
  {
    hide GoodMember, FileCount, FileBytes;
    assert (es + [e])[|es|] == e;
  }

  lemma PieceIsSpelled(p: Piece, limits: Limits)
    requires GoodPiece(p, limits)
    ensures Spelled(p.header) && Decode(p.header.name).Some? && Decode(p.header.prefix).Some?
  {
  }

  lemma ParseItem(tar: seq<byte>, limits: Limits, st: State, pre: seq<byte>, item: Item, rest: seq<byte>)
    requires GoodItem(item, limits) && tar == pre + ItemBytes(item, limits) + rest && st.offset == |pre|
             && st.pending == None
    requires Accepted(st.entries + [Stated(item, limits)], limits)
    ensures |pre + ItemBytes(item, limits)| <= |tar|
    ensures Parse(tar, limits, st)
            == Parse(tar, limits, State(|pre + ItemBytes(item, limits)|, None, st.entries + [Stated(item, limits)]))
  {
    hide Step, Parse, AfterAll, GoodExtensions, AllZero, PieceBytes, StepMember, Accepted, GoodPiece, StoredPath,
      ExtensionsBytes;
    PieceIsSpelled(item.member, limits);
    var xs, bytes := ExtensionsBytes(item.extensions, limits), PieceBytes(item.member);
    Grouped(pre, xs, bytes, rest);
    ParseExtensions(tar, limits, st, pre, item.extensions, bytes + rest);
    var mid := st.(offset := |pre + xs|, pending := AfterAll(item.extensions, None));
    StepOnPiece(tar, limits, mid, pre + xs, item.member, rest);
    MemberReads(mid, |pre + xs + bytes|, item.member, Stated(item, limits), limits);
    ParseOnce(tar, limits, mid, State(|pre + xs + bytes|, None, st.entries + [Stated(item, limits)]));
  }

  lemma ParseTail(tar: seq<byte>, limits: Limits, st: State, pre: seq<byte>, n: nat)
    requires n >= 1024 && tar == pre + Zeros(n) && st.offset == |pre| && st.pending == None
    ensures Parse(tar, limits, st) == Ok(st.entries)
  {
    hide Step;
    assert tar[st.offset..st.offset + 1024] == Zeros(1024);
    assert tar[st.offset..st.offset + BLOCK] == Zeros(BLOCK);
    assert tar[st.offset + 1024..] == Zeros(n - 1024);
  }

  lemma {:induction false} ParseItems(tar: seq<byte>, limits: Limits, st: State, pre: seq<byte>, items: seq<Item>,
                                      n: nat)
    requires n >= 1024 && GoodItems(items, limits) && tar == pre + ItemsBytes(items, limits) + Zeros(n)
    requires st.offset == |pre| && st.pending == None && Accepted(st.entries + AllStated(items, limits), limits)
    ensures Parse(tar, limits, st) == Ok(st.entries + AllStated(items, limits))
    decreases |items|
  {
    hide Parse, Accepted, GoodItem, ItemBytes, Stated, Zeros;
    if items == [] {
      assert pre + ItemsBytes(items, limits) == pre && st.entries + [] == st.entries;
      ParseTail(tar, limits, st, pre, n);
    } else {
      var e, more := Stated(items[0], limits), ItemsBytes(items[1..], limits);
      var bytes := ItemBytes(items[0], limits);
      Grouped(pre, bytes, more, Zeros(n));
      assert st.entries + AllStated(items, limits) == st.entries + [e] + AllStated(items[1..], limits);
      AcceptedPrefix(st.entries + AllStated(items, limits), |st.entries| + 1, limits);
      assert (st.entries + AllStated(items, limits))[..|st.entries| + 1] == st.entries + [e];
      ParseItem(tar, limits, st, pre, items[0], more + Zeros(n));
      ParseItems(tar, limits, State(|pre + bytes|, None, st.entries + [e]), pre + bytes, items[1..], n);
    }
  }

  /** An archive of spelled items and at least two zero blocks reads as exactly the members it states,
      whenever those are acceptable. */
  lemma ArchiveReads(items: seq<Item>, n: nat, limits: Limits)
    requires ValidLimits(limits) && n >= 1024 && GoodItems(items, limits) && Accepted(AllStated(items, limits), limits)
    ensures ParseTar(ItemsBytes(items, limits) + Zeros(n), limits) == Ok(AllStated(items, limits))
  {
    hide Parse, Accepted, GoodItems, ItemsBytes, AllStated, Zeros;
    var bytes := ItemsBytes(items, limits);
    assert [] + bytes + Zeros(n) == bytes + Zeros(n) && [] + AllStated(items, limits) == AllStated(items, limits);
    ParseItems(bytes + Zeros(n), limits, State(0, None, []), [], items, n);
  }

  // ---------------------------------------------------------------- what is refused

  /** A global header that states a path is refused, at whatever place it stands. */
  lemma GlobalPathIsRefused(tar: seq<byte>, limits: Limits, st: State, pre: seq<byte>, p: Piece, rs: seq<Record>,
                            rest: seq<byte>)
    requires GoodPiece(p, limits) && p.header.kind == 0x67 && p.data == RecordsBytes(rs) && GoodRecords(rs)
    requires PathStated(rs).Some? && tar == pre + PieceBytes(p) + rest && st.offset == |pre|
    ensures st.offset <= |tar| && Parse(tar, limits, st) == Err(GlobalPaxPath)
  {
    hide Step, AllZero, StepPax, StepGnu, StepMember, PieceBytes, RecordsBytes, GoodRecords, PathStated, GoodPiece;
    PieceIsSpelled(p, limits);
    StepOnPiece(tar, limits, st, pre, p, rest);
    PaxStep(st, |pre + PieceBytes(p)|, rs);
  }

  /** A member of any other type is refused when nothing else is wrong with its path and mode. */
  lemma OtherTypesAreRefused(tar: seq<byte>, limits: Limits, st: State, pre: seq<byte>, p: Piece, rest: seq<byte>)
    requires GoodPiece(p, limits) && p.header.kind !in {0, 0x30, 0x35, 0x78, 0x67, 0x4c} && SafeMode(p.header.mode)
    requires GoodPath(if st.pending.Some? then st.pending.value else StoredPath(p))
    requires tar == pre + PieceBytes(p) + rest && st.offset == |pre|
    ensures st.offset <= |tar| && Parse(tar, limits, st) == Err(UnsupportedType)
  {
    hide Step, AllZero, StepPax, StepGnu, PieceBytes, SafePath, ValidUtf8, SafeMode, ParseOctal, RawHeader, Decode,
      Join,
      Spelled;
    StepOnPiece(tar, limits, st, pre, p, rest);
    RawHeaderReads(p.header, limits);
  }

  /** A path extension must be followed by a member. */
  lemma ExtensionNeedsMember(xs: seq<Extension>, n: nat, limits: Limits)
    requires ValidLimits(limits) && GoodExtensions(xs, limits) && AfterAll(xs, None).Some? && n >= BLOCK
    ensures ParseTar(ExtensionsBytes(xs, limits) + Zeros(n), limits) == Err(ExtensionWithoutMember)
  {
    hide Step, AfterAll, GoodExtensions, ExtensionsBytes, ValidLimits;
    var bytes := ExtensionsBytes(xs, limits);
    var tar := bytes + Zeros(n);
    assert [] + bytes + Zeros(n) == tar && [] + bytes == bytes;
    ParseExtensions(tar, limits, State(0, None, []), [], xs, Zeros(n));
    assert tar[|bytes|..|bytes| + BLOCK] == Zeros(BLOCK);
  }

  /** The end of an archive: fewer than two zero blocks, or anything but zeros behind them, is refused. */
  lemma EndIsStrict(tar: seq<byte>, limits: Limits, st: State)
    requires st.offset <= |tar| && st.pending == None
    ensures |tar| < st.offset + BLOCK ==> Parse(tar, limits, st) == Err(MissingTerminator)
    ensures st.offset + BLOCK <= |tar| && AllZero(tar[st.offset..st.offset + BLOCK]) ==>
              Parse(tar, limits, st)
              == if |tar| < st.offset + 1024 || !AllZero(tar[st.offset..st.offset + 1024]) then Err(MissingTerminator)
                 else if AllZero(tar[st.offset + 1024..]) then Ok(st.entries) else Err(DataAfterTerminator)
  {
    hide Step, AllZero;
  }

  // ---------------------------------------------------------------- every acceptable list of members arises

  function DecimalText(v: nat): (s: seq<byte>)
    ensures s != [] && DecimalDigits(s) && DecimalValue(s) == v && (v > 0 ==> s[0] != 48)
  {
    if v < 10 then
      assert DecimalValue([48 + v][..0]) == 0;
      [48 + v]
    else
      var s := DecimalText(v / 10) + [48 + v % 10];
      assert s[..|s| - 1] == DecimalText(v / 10);
      s
  }

  lemma NumeralLength(v: nat)
    ensures |DecimalText(v)| == if v < 10 then 1 else |DecimalText(v / 10)| + 1
  {
  }

  lemma {:induction false} NumeralsAreShort(v: nat)
    ensures |DecimalText(v)| <= v / 2 + 1 && |DecimalText(v)| <= |DecimalText(v + 1)| <= |DecimalText(v)| + 1
  {
    hide DecimalText;
    NumeralLength(v);
    NumeralLength(v + 1);
    if v >= 10 {
      NumeralsAreShort(v / 10);
      assert (v + 1) / 10 == v / 10 || (v + 1) / 10 == v / 10 + 1;
    } else if v == 9 {
      NumeralLength(1);
    }
  }

  /** A record can state its own length: some numeral counts itself and n more bytes. */
  lemma {:induction false} LengthCountsItself(n: nat, from: nat) returns (total: nat)
    requires from > 0 && from <= n + |DecimalText(from)|
    ensures total > 0 && total == n + |DecimalText(total)|
    decreases 2 * n + 2 - from
  {
    NumeralsAreShort(from);
    if from == n + |DecimalText(from)| { return from; }
    total := LengthCountsItself(n, from + 1);
  }

  /** Any text can be stated as a path. */
  lemma PathRecord(path: seq<byte>) returns (r: Record)
    requires ValidUtf8(path) && 2 * |path| + 32 <= MAX_SAFE_INTEGER
    ensures GoodRecord(r) && r.key == [0x70, 0x61, 0x74, 0x68] && r.value == path && |RecordBytes(r)| <= 2 * |path| + 32
  {
    var n := |path| + 7;
    var total := LengthCountsItself(n, 1);
    NumeralsAreShort(total);
    r := Record(DecimalText(total), [0x70, 0x61, 0x74, 0x68], path);
    assert |RecordBytes(r)| == total;
    hide ValidUtf8;
  }

  /** A plain header: no name, owner or time. */
  function Bare(mode: nat, size: nat, kind: byte): Raw {
    Raw([], mode, Zeros(16), size, Zeros(12), kind, Zeros(188), [], Zeros(12))
  }

  lemma BarePiece(mode: nat, kind: byte, data: seq<byte>, limits: Limits) returns (p: Piece)
    requires mode < 512 && |data| <= limits.maxEntryBytes < 8589934592
    ensures GoodPiece(p, limits) && p.header == Bare(mode, |data|, kind) && p.data == data
  {
    p := Piece(Bare(mode, |data|, kind), data, Zeros(Padding(|data|)));
    assert Pow8(3) == 512 by { assert Pow8(0) == 1 && Pow8(1) == 8 && Pow8(2) == 64; }
    assert Pow8(6) == 262144 by { assert Pow8(4) == 4096 && Pow8(5) == 32768; }
    assert Pow8(9) == 134217728 by { assert Pow8(7) == 2097152 && Pow8(8) == 16777216; }
    assert Pow8(10) == 1073741824 && Pow8(11) == 8589934592;
    OctalTextLength(mode, 3);
    OctalTextLength(|data|, 11);
    hide OctalText, Padding;
    assert Decode([]) == Some([]);
  }

  lemma GoodPathHasNoBom(path: seq<byte>)
    requires GoodPath(path)
    ensures DropBom(path) == path && ValidUtf8(path)
  {
    hide ValidUtf8, Segments;
    assert path[0] == PACKAGE[0];
  }

  /** An item that states a given member, with its path in a PAX header. */
  lemma ItemFor(e: Entry, limits: Limits) returns (item: Item)
    requires ValidLimits(limits) && GoodMember(e, limits) && limits.maxEntryBytes < 8589934592
    requires 2 * |e.path| + 32 <= limits.maxEntryBytes
    ensures GoodItem(item, limits) && Stated(item, limits) == e
  {
    GoodPathHasNoBom(e.path);
    hide GoodPath, ValidUtf8, GoodRecord, GoodPiece, DropBom, RecordBytes;
    var r := PathRecord(e.path);
    assert RecordsBytes([r]) == RecordBytes(r) + [] == RecordBytes(r);
    var x := BarePiece(0, 0x78, RecordsBytes([r]), limits);
    var m := BarePiece(e.mode, if e.kind == File then 0x30 else 0x35, e.data, limits);
    var ext := Pax(x, [r]);
    assert PathStated([r]) == Some(e.path);
    assert GoodExtension(ext, limits) && AfterAll([ext], None) == Some(e.path);
    item := Item([ext], m);
  }

  lemma {:induction false} ItemsFor(es: seq<Entry>, limits: Limits) returns (items: seq<Item>)
    requires ValidLimits(limits) && limits.maxEntryBytes < 8589934592 && AllGood(es, limits)
    requires forall i :: 0 <= i < |es| ==> 2 * |es[i].path| + 32 <= limits.maxEntryBytes
    ensures GoodItems(items, limits) && AllStated(items, limits) == es
  {
    hide GoodMember, GoodItem, Stated;
    items := [];
    if es != [] {
      var first := ItemFor(es[0], limits);
      var rest := ItemsFor(es[1..], limits);
      items := [first] + rest;
      assert items[1..] == rest && es == [es[0]] + es[1..];
    }
  }

  /** The reader accepts exactly the acceptable member lists: under limits a header can express, every list
      with distinct good paths, safe modes, empty directories and sizes and counts within the limits is what
      some archive reads as, paths of any length included. */
  lemma EveryAcceptableListArises(es: seq<Entry>, limits: Limits) returns (tar: seq<byte>)
    requires ValidLimits(limits) && limits.maxEntryBytes < 8589934592 && Accepted(es, limits)
    requires forall i :: 0 <= i < |es| ==> 2 * |es[i].path| + 32 <= limits.maxEntryBytes
    ensures ParseTar(tar, limits) == Ok(es)
  {
    hide ParseTar, GoodMember, GoodItems, ItemsBytes, AllStated, ValidLimits;
    var items := ItemsFor(es, limits);
    ArchiveReads(items, 1024, limits);
    tar := ItemsBytes(items, limits) + Zeros(1024);
  }
}
