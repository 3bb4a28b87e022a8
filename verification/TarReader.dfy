/** The tar reader: header checks, PAX and GNU path extensions, member checks, limits and the terminator. */
module TarReader {
  import opened Common
  import opened Text
  import opened TarWriter

  datatype Limits = Limits(maxCompressedBytes: int, maxUnpackedBytes: int, maxEntryBytes: int, maxFileCount: int)

  datatype TarError =
    | BadLimits | CompressedTooLarge | UnpackedTooLarge | NotGzip
    | ExtensionWithoutMember | MissingTerminator | DataAfterTerminator
    | BadChecksum | BadOctal | BadUtf8 | EntryTooLarge | Truncated
    | BadPax | GlobalPaxPath
    | UnsafePath | UnsafeMode | UnsupportedType | DirectoryWithData | DuplicateMember | TooManyFiles | TooMuchData

  predicate Positive(v: int) { 0 < v <= MAX_SAFE_INTEGER }

  predicate ValidLimits(l: Limits) {
    && Positive(l.maxCompressedBytes) && Positive(l.maxUnpackedBytes)
    && Positive(l.maxEntryBytes) && Positive(l.maxFileCount)
    && l.maxEntryBytes <= l.maxUnpackedBytes
  }

  // ---------------------------------------------------------------- header fields

  function Checksum(header: seq<byte>): nat
    requires |header| == BLOCK
  {
    Sum(header[..148]) + 8 * 32 + Sum(header[156..])
  }

  lemma BlankChecksum(front: seq<byte>, back: seq<byte>)
    ensures Sum(front + SPACES + back) == Sum(front) + 8 * 32 + Sum(back)
  {
    SumConcat(front + SPACES, back);
    SumConcat(front, SPACES);
    SumSpaces(8);
    assert SPACES == seq(8, _ => 32);
  }

  lemma {:induction false} SumSpaces(n: nat)
    ensures Sum(seq(n, _ => 32)) == 32 * n
  {
    var s: seq<byte> := seq(n, _ => 32);
    if n > 0 {
      SumSpaces(n - 1);
      assert s[..n - 1] == seq(n - 1, _ => 32);
    }
  }

  method HeaderChecksumMatches(header: seq<byte>) returns (r: Option<bool>)
    requires |header| == BLOCK
    ensures r == (match ParseOctal(header[148..156]) case None => None case Some(v) => Some(v == Checksum(header)))
  {
    hide ParseOctal, Checksum;
    var stored := ParseOctal(header[148..156]);
    if stored == None { return None; }
    var calculated := SumBlanked(header);
    r := Some(stored.value == calculated);
  }

  /** The checksum loop, which counts the stored field as spaces. */
  method SumBlanked(header: seq<byte>) returns (calculated: nat)
    requires |header| == BLOCK
    ensures calculated == Checksum(header)
  {
    calculated := 0;
    ghost var counted := header[..148] + SPACES + header[156..];
    for index := 0 to 512
      invariant calculated == Sum(counted[..index])
    {
      calculated := calculated + (if 148 <= index < 156 then 0x20 else header[index]);
      assert counted[..index + 1][..index] == counted[..index];
    }
    assert counted[..512] == counted;
    BlankChecksum(header[..148], header[156..]);
  }

  /** A NUL-terminated or full-width text field. */
  function TarString(header: seq<byte>, offset: nat, length: nat): Option<seq<byte>>
    requires offset + length <= |header|
  {
    var end := IndexOf(header, 0, offset);
    Decode(header[offset..if end == -1 || end > offset + length then offset + length else end])
  }

  // ---------------------------------------------------------------- paths

  /** path.split("/") */
  function Segments(s: seq<byte>): (r: seq<seq<byte>>)
    ensures r != []
  {
    var i := IndexOf(s, SLASH, 0);
    if i == -1 then [s] else [s[..i]] + Segments(s[i + 1..])
  }

  const PACKAGE: seq<byte> := [0x70, 0x61, 0x63, 0x6b, 0x61, 0x67, 0x65]

  predicate DotSegment(s: seq<byte>) { s == [] || s == [0x2e] || s == [0x2e, 0x2e] }

  function WithoutTrailingSlash(path: seq<byte>): seq<byte> {
    if path != [] && path[|path| - 1] == SLASH then path[..|path| - 1] else path
  }

  predicate SafePath(path: seq<byte>) {
    var normalized := WithoutTrailingSlash(path);
    && (normalized == PACKAGE || PACKAGE + [SLASH] <= normalized)
    && 0x5c !in normalized
    && !([SLASH] <= normalized)
    && 0 !in normalized
    && forall i :: 0 <= i < |Segments(normalized)| ==> !DotSegment(Segments(normalized)[i])
  }

  // ---------------------------------------------------------------- path extensions

  predicate DecimalDigits(s: seq<byte>) {
    forall i :: 0 <= i < |s| ==> 48 <= s[i] <= 57
  }

  function DecimalValue(s: seq<byte>): nat
    requires DecimalDigits(s)
  {
    if s == [] then 0 else 10 * DecimalValue(s[..|s| - 1]) + (s[|s| - 1] - 48)
  }

  datatype PaxRecord = PaxRecord(key: seq<byte>, value: seq<byte>, next: nat)

  /** One `length key=value NEWLINE` record. */
  function ReadPaxRecord(data: seq<byte>, offset: nat): (r: Result<PaxRecord, TarError>)
    requires offset < |data|
    ensures r.Ok? ==> offset < r.value.next <= |data| && ValidUtf8(r.value.value)
  {
    var space := IndexOf(data, 0x20, offset);
    if space == -1 then Err(BadPax) else
    var lengthText := Ascii(data[offset..space]);
    if lengthText == [] || !DecimalDigits(lengthText) || lengthText[0] == 48 then Err(BadPax) else
    var length := DecimalValue(lengthText);
    var end := offset + length;
    if length > MAX_SAFE_INTEGER || end > |data| || end <= space + 1 then Err(BadPax) else
    var record := data[space + 1..end];
    if record[|record| - 1] != 0x0a then Err(BadPax) else
    var equals := IndexOf(record, 0x3d, 0);
    if equals <= 0 then Err(BadPax) else
    var value := Decode(record[equals + 1..|record| - 1]);
    DecodedIsValid(record[equals + 1..|record| - 1]);
    if value == None then Err(BadUtf8) else
    Ok(PaxRecord(Ascii(record[..equals]), value.value, end))
  }

  type Attributes = map<seq<byte>, seq<byte>>

  ghost predicate ValidAttributes(a: Attributes) {
    forall k :: k in a ==> ValidUtf8(a[k])
  }

  function ParsePax(data: seq<byte>, offset: nat, attributes: Attributes): (r: Result<Attributes, TarError>)
    requires offset <= |data|
    ensures r.Ok? && ValidAttributes(attributes) ==> ValidAttributes(r.value)
    decreases |data| - offset
  {
    if offset == |data| then Ok(attributes) else
    var record := ReadPaxRecord(data, offset);
    if record.Err? then Err(record.error) else
    ParsePax(data, record.value.next, attributes[record.value.key := record.value.value])
  }

  method ParsePaxAttributes(data: seq<byte>) returns (r: Result<Attributes, TarError>)
    ensures r == ParsePax(data, 0, map[])
  {
    var attributes: Attributes := map[];
    var offset := 0;
    while offset < |data|
      invariant offset <= |data|
      invariant ParsePax(data, 0, map[]) == ParsePax(data, offset, attributes)
    {
      var record :- ReadPaxRecord(data, offset);
      attributes := attributes[record.key := record.value];
      offset := record.next;
    }
    r := Ok(attributes);
  }

  lemma DropAsciiEnd(s: seq<byte>)
    requires s != [] && s[|s| - 1] < 0x80 && ValidUtf8(s)
    ensures ValidUtf8(s[..|s| - 1])
  {
    hide ValidUtf8;
    assert s[..|s| - 1] + [s[|s| - 1]] + [] == s;
    ValidAroundAscii(s[..|s| - 1], s[|s| - 1], []);
  }

  function GnuLongPath(data: seq<byte>): (r: Option<seq<byte>>)
    ensures r.Some? ==> ValidUtf8(r.value)
  {
    var terminator := IndexOf(data, 0, 0);
    var raw := if terminator == -1 then data else data[..terminator];
    var text := Decode(raw);
    DecodedIsValid(raw);
    if text == None then None
    else if text.value != [] && text.value[|text.value| - 1] == 0x0a then
      DropAsciiEnd(text.value);
      Some(text.value[..|text.value| - 1])
    else text
  }

  // ---------------------------------------------------------------- members

  const PATH_KEY: seq<byte> := [0x70, 0x61, 0x74, 0x68]

  /** The sum of a measure over members. */
  function Total(es: seq<Entry>, f: Entry -> nat): nat {
    if es == [] then 0 else Total(es[..|es| - 1], f) + f(es[|es| - 1])
  }

  function IsFile(e: Entry): nat {
    if e.kind == File then 1 else 0
  }

  function FileCount(es: seq<Entry>): nat { Total(es, IsFile) }
  function FileBytes(es: seq<Entry>): nat { Total(es, SizeOf) }

  function Paths(es: seq<Entry>): set<seq<byte>> {
    set i | 0 <= i < |es| :: es[i].path
  }

  predicate SafeMode(mode: nat) {
    mode < 512 && (mode / 2) % 2 == 0
  }

  function KindOf(typeByte: byte): Option<Kind> {
    if typeByte == 0 || typeByte == 0x30 then Some(File) else if typeByte == 0x35 then Some(Directory) else None
  }

  /** Every check on an ordinary member, given what was accepted before it. */
  function CheckMember(header: seq<byte>, path: seq<byte>, data: seq<byte>, limits: Limits,
                       seen: set<seq<byte>>, fileCount: nat, fileBytes: nat): (r: Result<Entry, TarError>)
    requires |header| == BLOCK
    ensures r.Ok? ==> r.value.path == path && r.value.data == data
  {
    if !SafePath(path) then Err(UnsafePath) else
    var mode := ParseOctal(header[100..108]);
    if mode == None then Err(BadOctal) else
    if !SafeMode(mode.value) then Err(UnsafeMode) else
    var kind := KindOf(header[156]);
    if kind == None then Err(UnsupportedType) else
    if kind.value == Directory && data != [] then Err(DirectoryWithData) else
    if path in seen then Err(DuplicateMember) else
    if kind.value == File && fileCount + 1 > limits.maxFileCount then Err(TooManyFiles) else
    if kind.value == File && fileBytes + |data| > limits.maxUnpackedBytes then Err(TooMuchData) else
    Ok(Entry(path, mode.value, kind.value, data))
  }

  function PaddedSize(size: nat): (p: nat)
    ensures p >= size
  {
    (size + 511) / 512 * 512
  }

  /** What the reader takes from a header before it looks at the member type. */
  datatype Fields = Fields(name: seq<byte>, prefix: seq<byte>, size: nat)

  function ReadFields(header: seq<byte>, limits: Limits): (r: Result<Fields, TarError>)
    requires |header| == BLOCK
    ensures r.Ok? ==> ValidUtf8(r.value.name) && ValidUtf8(r.value.prefix) && r.value.size <= limits.maxEntryBytes
  {
    var stored := ParseOctal(header[148..156]);
    if stored == None then Err(BadOctal) else
    if stored.value != Checksum(header) then Err(BadChecksum) else
    var name, prefix := TarString(header, 0, 100), TarString(header, 345, 155);
    StringIsValid(header, 0, 100);
    StringIsValid(header, 345, 155);
    if name == None || prefix == None then Err(BadUtf8) else
    var size := ParseOctal(header[124..136]);
    if size == None then Err(BadOctal) else
    if size.value > limits.maxEntryBytes then Err(EntryTooLarge) else
    Ok(Fields(name.value, prefix.value, size.value))
  }

  /** The header checks in the reader's order, with the checksum loop. */
  method ReadHeader(header: seq<byte>, limits: Limits) returns (r: Result<Fields, TarError>)
    requires |header| == BLOCK
    ensures r == ReadFields(header, limits)
  {
    hide ParseOctal, Checksum, TarString;
    var matches := HeaderChecksumMatches(header);
    if matches == None { return Err(BadOctal); }
    if !matches.value { return Err(BadChecksum); }
    var name, prefix := TarString(header, 0, 100), TarString(header, 345, 155);
    if name == None || prefix == None { return Err(BadUtf8); }
    var size := ParseOctal(header[124..136]);
    if size == None { return Err(BadOctal); }
    if size.value > limits.maxEntryBytes { return Err(EntryTooLarge); }
    r := Ok(Fields(name.value, prefix.value, size.value));
  }

  lemma StringIsValid(header: seq<byte>, offset: nat, length: nat)
    requires offset + length <= |header|
    ensures TarString(header, offset, length).Some? ==> ValidUtf8(TarString(header, offset, length).value)
  {
    var end := IndexOf(header, 0, offset);
    DecodedIsValid(header[offset..if end == -1 || end > offset + length then offset + length else end]);
  }

  datatype State = State(offset: nat, pending: Option<seq<byte>>, entries: seq<Entry>)

  /** A PAX header changes only the pending path, and a global one may not. */
  function StepPax(st: State, next: nat, data: seq<byte>, global: bool): (r: Result<State, TarError>)
    ensures r.Ok? ==> r.value.offset == next
  {
    var attributes := ParsePax(data, 0, map[]);
    if attributes.Err? then Err(attributes.error)
    else if PATH_KEY !in attributes.value then Ok(st.(offset := next))
    else if global then Err(GlobalPaxPath)
    else Ok(st.(offset := next, pending := Some(attributes.value[PATH_KEY])))
  }

  function StepGnu(st: State, next: nat, data: seq<byte>): (r: Result<State, TarError>)
    ensures r.Ok? ==> r.value.offset == next
  {
    var path := GnuLongPath(data);
    if path == None then Err(BadUtf8) else Ok(st.(offset := next, pending := path))
  }

  function StepMember(st: State, next: nat, header: seq<byte>, stored: seq<byte>, data: seq<byte>, limits: Limits)
    : (r: Result<State, TarError>)
    requires |header| == BLOCK
    ensures r.Ok? ==> r.value.offset == next
  {
    var path := if st.pending.Some? then st.pending.value else stored;
    var entry := CheckMember(header, path, data, limits, Paths(st.entries), FileCount(st.entries),
                             FileBytes(st.entries));
    if entry.Err? then Err(entry.error) else Ok(State(next, None, st.entries + [entry.value]))
  }

  /** One turn of the reader's loop on a header block that is not all zero. */
  function Step(tar: seq<byte>, limits: Limits, st: State): (r: Result<State, TarError>)
    requires st.offset + BLOCK <= |tar|
    ensures r.Ok? ==> st.offset + BLOCK <= r.value.offset <= |tar|
  {
    hide *;
    var header := tar[st.offset..st.offset + BLOCK];
    var fields := ReadFields(header, limits);
    if fields.Err? then Err(fields.error) else
    var Fields(name, prefix, size) := fields.value;
    var next := st.offset + BLOCK + PaddedSize(size);
    if next > |tar| then Err(Truncated) else
    var data := tar[st.offset + BLOCK..st.offset + BLOCK + size];
    if header[156] == 0x78 || header[156] == 0x67 then StepPax(st, next, data, header[156] == 0x67)
    else if header[156] == 0x4c then StepGnu(st, next, data)
    else StepMember(st, next, header, Join(Split(name, prefix)), data, limits)
  }

  /** The end of the archive: two zero blocks and nothing but zeros after them. */
  function Finish(tar: seq<byte>, st: State): Result<seq<Entry>, TarError>
    requires st.offset + BLOCK <= |tar|
  {
    if st.pending.Some? then Err(ExtensionWithoutMember)
    else if st.offset + 1024 > |tar| || !AllZero(tar[st.offset..st.offset + 1024]) then Err(MissingTerminator)
    else if !AllZero(tar[st.offset + 1024..]) then Err(DataAfterTerminator)
    else Ok(st.entries)
  }

  function Parse(tar: seq<byte>, limits: Limits, st: State): Result<seq<Entry>, TarError>
    requires st.offset <= |tar|
    decreases |tar| - st.offset
  {
    if st.offset + BLOCK > |tar| then Err(MissingTerminator)
    else if AllZero(tar[st.offset..st.offset + BLOCK]) then Finish(tar, st)
    else
      var next := Step(tar, limits, st);
      if next.Err? then Err(next.error) else Parse(tar, limits, next.value)
  }

  /** The members of an uncompressed archive. */
  function ParseTar(tar: seq<byte>, limits: Limits): Result<seq<Entry>, TarError> {
    if !ValidLimits(limits) then Err(BadLimits) else Parse(tar, limits, State(0, None, []))
  }

  // ---------------------------------------------------------------- the reader's loop

  lemma TotalAfter(es: seq<Entry>, e: Entry, f: Entry -> nat)
    ensures Total(es + [e], f) == Total(es, f) + f(e)
  {
    assert (es + [e])[..|es|] == es;
  }

  lemma CountersAfter(es: seq<Entry>, e: Entry)
    ensures FileCount(es + [e]) == FileCount(es) + (if e.kind == File then 1 else 0)
    ensures FileBytes(es + [e]) == FileBytes(es) + (if e.kind == File then |e.data| else 0)
    ensures Paths(es + [e]) == Paths(es) + {e.path}
  {
    TotalAfter(es, e, IsFile);
    TotalAfter(es, e, SizeOf);
    var all := es + [e];
    assert forall i :: 0 <= i < |es| ==> all[i] == es[i];
    assert all[|es|] == e;
  }

  method ReadPayload(tar: seq<byte>, offset: nat, size: nat) returns (r: Option<(seq<byte>, nat)>)
    requires offset + BLOCK <= |tar|
    ensures r == if offset + BLOCK + PaddedSize(size) > |tar| then None
                 else Some((tar[offset + BLOCK..offset + BLOCK + size], offset + BLOCK + PaddedSize(size)))
  {
    var contentStart := offset + 512;
    var paddedSize := (size + 511) / 512 * 512;
    if contentStart + paddedSize > |tar| { return None; }
    r := Some((tar[contentStart..contentStart + size], contentStart + paddedSize));
  }

  /** The reader's working variables, updated in place by every turn of its loop. */
  class Reader {
    var entries: seq<Entry>
    var seen: set<seq<byte>>
    var pendingPath: Option<seq<byte>>
    var totalFileBytes: nat
    var fileCount: nat
    var offset: nat

    ghost predicate Valid()
      reads this
    {
      seen == Paths(entries) && fileCount == FileCount(entries) && totalFileBytes == FileBytes(entries)
    }

    ghost function Current(): State
      reads this
    {
      State(offset, pendingPath, entries)
    }

    constructor ()
      ensures Valid() && Current() == State(0, None, [])
    {
      entries, seen, pendingPath := [], {}, None;
      totalFileBytes, fileCount, offset := 0, 0, 0;
    }

    method Pax(data: seq<byte>, global: bool, nextOffset: nat) returns (r: Result<(), TarError>)
      requires Valid()
      modifies this
      ensures Valid()
      ensures var s := StepPax(old(Current()), nextOffset, data, global);
              if r.Ok? then s == Ok(Current()) else s == Err(r.error)
    {
      var attributes :- ParsePaxAttributes(data);
      if global && PATH_KEY in attributes { return Err(GlobalPaxPath); }
      if !global && PATH_KEY in attributes { pendingPath := Some(attributes[PATH_KEY]); }
      offset := nextOffset;
      r := Ok(());
    }

    method Member(header: seq<byte>, stored: seq<byte>, data: seq<byte>, limits: Limits, nextOffset: nat)
      returns (r: Result<(), TarError>)
      requires Valid() && |header| == BLOCK
      modifies this
      ensures r.Ok? ==> Valid()
      ensures var s := StepMember(old(Current()), nextOffset, header, stored, data, limits);
              if r.Ok? then s == Ok(Current()) else s == Err(r.error)
    {
      hide CheckMember, FileCount, FileBytes, Paths;
      var path := if pendingPath.Some? then pendingPath.value else stored;
      pendingPath := None;
      var entry :- CheckMember(header, path, data, limits, seen, fileCount, totalFileBytes);
      if entry.kind == File {
        fileCount := fileCount + 1;
        totalFileBytes := totalFileBytes + |data|;
      }
      seen := seen + {path};
      CountersAfter(entries, entry);
      entries := entries + [entry];
      offset := nextOffset;
      r := Ok(());
    }

    method Advance(tar: seq<byte>, limits: Limits) returns (r: Result<(), TarError>)
      requires Valid() && offset + BLOCK <= |tar|
      modifies this
      ensures r.Ok? ==> Valid()
      ensures var s := Step(tar, limits, old(Current()));
              if r.Ok? then s == Ok(Current()) else s == Err(r.error)
    {
      hide ReadFields, StepPax, StepMember, GnuLongPath, PaddedSize, FileCount, FileBytes, Paths;
      var header := tar[offset..offset + 512];
      var fields :- ReadHeader(header, limits);
      var payload := ReadPayload(tar, offset, fields.size);
      if payload == None { return Err(Truncated); }
      var (data, nextOffset) := payload.value;
      if header[156] == 0x78 || header[156] == 0x67 {
        r := Pax(data, header[156] == 0x67, nextOffset);
      } else if header[156] == 0x4c {
        var path := GnuLongPath(data);
        if path == None { return Err(BadUtf8); }
        pendingPath := path;
        offset := nextOffset;
        r := Ok(());
      } else {
        r := Member(header, Join(Split(fields.name, fields.prefix)), data, limits, nextOffset);
      }
    }
  }

  /** parseTarEntries on the decompressed bytes. */
  method ParseTarEntries(tar: seq<byte>, limits: Limits) returns (r: Result<seq<Entry>, TarError>)
    ensures r == ParseTar(tar, limits)
  {
    hide Step, ValidLimits, Paths, FileCount, FileBytes;
    if !ValidLimits(limits) { return Err(BadLimits); }
    var reader := new Reader();
    while reader.offset + 512 <= |tar|
      invariant fresh(reader) && reader.Valid() && reader.offset <= |tar|
      invariant ParseTar(tar, limits) == Parse(tar, limits, reader.Current())
      decreases |tar| - reader.offset
    {
      if AllZero(tar[reader.offset..reader.offset + 512]) {
        if reader.pendingPath.Some? { return Err(ExtensionWithoutMember); }
        if reader.offset + 1024 > |tar| || !AllZero(tar[reader.offset..reader.offset + 1024]) {
          return Err(MissingTerminator);
        }
        if !AllZero(tar[reader.offset + 1024..]) { return Err(DataAfterTerminator); }
        return Ok(reader.entries);
      }
      var _ :- reader.Advance(tar, limits);
    }
    r := Err(MissingTerminator);
  }
}
