/** The canonical ustar writer: path splitting, the 512-byte header and the archive layout. */
module TarWriter {
  import opened Common
  import opened Text
  import Sorting

  datatype Kind = File | Directory
  datatype Entry = Entry(path: seq<byte>, mode: nat, kind: Kind, data: seq<byte>)
  datatype Split = Split(name: seq<byte>, prefix: seq<byte>)
  datatype WriteError = PathTooLong | SizeTooLarge

  const SLASH: byte := 0x2f
  const BLOCK := 512

  // ---------------------------------------------------------------- path splitting

  predicate SplitsAt(path: seq<byte>, i: nat) {
    0 < i < |path| && path[i] == SLASH && i <= 155 && |path| - i - 1 <= 100
  }

  function SplitBelow(path: seq<byte>, bound: nat): Option<Split>
    requires bound <= |path|
  {
    if bound <= 1 then None
    else if SplitsAt(path, bound - 1) then Some(Split(path[bound..], path[..bound - 1]))
    else SplitBelow(path, bound - 1)
  }

  function SplitPath(path: seq<byte>): Option<Split> {
    if |path| <= 100 then Some(Split(path, [])) else SplitBelow(path, |path|)
  }

  /** How a reader puts the two header fields together again. */
  function Join(s: Split): seq<byte> {
    if s.prefix == [] then s.name else s.prefix + [SLASH] + s.name
  }

  /** The split is at the last slash below `bound` that allows one. */
  lemma {:induction false} SplitBelowMeaning(path: seq<byte>, bound: nat) returns (i: nat)
    requires bound <= |path|
    ensures SplitBelow(path, bound) == None ==> forall j: nat :: j < bound ==> !SplitsAt(path, j)
    ensures SplitBelow(path, bound).Some? ==>
              && 0 < i < bound && SplitsAt(path, i) && (forall j :: i < j < bound ==> !SplitsAt(path, j))
              && SplitBelow(path, bound) == Some(Split(path[i + 1..], path[..i]))
  {
    assert !SplitsAt(path, 0);
    hide SplitsAt;
    i := 0;
    if bound > 1 {
      if SplitsAt(path, bound - 1) { i := bound - 1; } else { i := SplitBelowMeaning(path, bound - 1); }
    }
  }

  /** A split loses nothing, fits its header fields and exists exactly when some slash allows it. */
  lemma SplitPathMeaning(path: seq<byte>)
    ensures SplitPath(path).Some? <==> |path| <= 100 || exists i: nat :: SplitsAt(path, i)
    ensures SplitPath(path).Some? ==>
              var s := SplitPath(path).value;
              Join(s) == path && |s.name| <= 100 && |s.prefix| <= 155 && (s.prefix == [] <==> |path| <= 100)
  {
    var i := SplitBelowMeaning(path, |path|);
    if |path| > 100 && SplitPath(path).Some? {
      assert path == path[..i] + [path[i]] + path[i + 1..];
    }
  }

  method SplitUstarPath(path: seq<byte>) returns (r: Option<Split>)
    ensures r == SplitPath(path)
  {
    if |path| <= 100 { return Some(Split(path, [])); }
    var index := |path| - 1;
    while index > 0
      invariant 0 <= index < |path|
      invariant SplitPath(path) == SplitBelow(path, index + 1)
    {
      if path[index] == SLASH {
        var prefix, name := path[..index], path[index + 1..];
        if |prefix| <= 155 && |name| <= 100 { return Some(Split(name, prefix)); }
      }
      index := index - 1;
    }
    r := None;
  }

  // ---------------------------------------------------------------- the header

  function Pad(s: seq<byte>, n: nat): (p: seq<byte>)
    requires |s| <= n
    ensures |p| == n
  {
    s + Zeros(n - |s|)
  }

  function OctalField(v: nat, n: nat): (f: seq<byte>)
    requires n >= 1 && |OctalText(v)| <= n - 1
    ensures |f| == n
  {
    PadStart(OctalText(v), n - 1) + [0]
  }

  function Sum(s: seq<byte>): nat {
    if s == [] then 0 else Sum(s[..|s| - 1]) + s[|s| - 1]
  }

  lemma {:induction false} SumConcat(a: seq<byte>, b: seq<byte>)
    ensures Sum(a + b) == Sum(a) + Sum(b)
    decreases |b|
  {
    if b == [] {
      assert a + b == a;
    } else {
      SumConcat(a, b[..|b| - 1]);
      assert (a + b)[..|a + b| - 1] == a + b[..|b| - 1];
    }
  }

  lemma {:induction false} SumBound(s: seq<byte>)
    ensures Sum(s) <= 255 * |s|
  {
    if s != [] { SumBound(s[..|s| - 1]); }
  }

  function SizeOf(e: Entry): nat {
    if e.kind == File then |e.data| else 0
  }

  /** The members the writer accepts. */
  predicate Writable(e: Entry) {
    SplitPath(e.path).Some? && |OctalText(SizeOf(e))| <= 11
  }

  function WriteErrorOf(e: Entry): WriteError {
    if SplitPath(e.path) == None then PathTooLong else SizeTooLarge
  }

  const SPACES: seq<byte> := [32, 32, 32, 32, 32, 32, 32, 32]

  lemma SmallNumerals(mode: nat)
    ensures |OctalText(0)| <= 7 && |OctalText(mode % 512)| <= 7
  {
    assert Pow8(3) == 512 by { assert Pow8(0) == 1 && Pow8(1) == 8 && Pow8(2) == 64; }
    OctalTextLength(mode % 512, 3);
  }

  /** Bytes 0 to 147: name, mode, uid, gid, size and mtime. */
  function HeaderFront(e: Entry): (f: seq<byte>)
    requires Writable(e)
    ensures |f| == 148
  {
    SplitPathMeaning(e.path);
    SmallNumerals(e.mode);
    Pad(SplitPath(e.path).value.name, 100) + OctalField(e.mode % 512, 8) + OctalField(0, 8) + OctalField(0, 8)
    + OctalField(SizeOf(e), 12) + OctalField(0, 12)
  }

  const MAGIC: seq<byte> := [0x75, 0x73, 0x74, 0x61, 0x72, 0] // "ustar" NUL
  const VERSION: seq<byte> := [0x30, 0x30]

  function TypeByte(k: Kind): byte {
    if k == File then 0x30 else 0x35
  }

  /** Bytes 156 to 511: type, link name, magic, version, owner names, device numbers and prefix. */
  function HeaderBack(e: Entry): (f: seq<byte>)
    requires Writable(e)
    ensures |f| == 356
  {
    SplitPathMeaning(e.path);
    [TypeByte(e.kind)] + Zeros(100) + MAGIC + VERSION + Zeros(80) + Pad(SplitPath(e.path).value.prefix, 155) + Zeros(12)
  }

  /** The checksum counts its own field as eight spaces. */
  function HeaderSum(e: Entry): (sum: nat)
    requires Writable(e)
    ensures |OctalText(sum)| <= 6
  {
    var blank := HeaderFront(e) + SPACES + HeaderBack(e);
    SumBound(blank);
    assert Pow8(6) == 262144 by {
      assert Pow8(0) == 1 && Pow8(1) == 8 && Pow8(2) == 64 && Pow8(3) == 512 && Pow8(4) == 4096;
    }
    OctalTextLength(Sum(blank), 6);
    Sum(blank)
  }

  function ChecksumField(sum: nat): (f: seq<byte>)
    requires |OctalText(sum)| <= 6
    ensures |f| == 8
  {
    PadStart(OctalText(sum), 6) + [0, 32]
  }

  function Header(e: Entry): (h: seq<byte>)
    requires Writable(e)
    ensures |h| == BLOCK
  {
    HeaderFront(e) + ChecksumField(HeaderSum(e)) + HeaderBack(e)
  }

  function Overwrite(s: seq<byte>, offset: nat, value: seq<byte>): (r: seq<byte>)
    requires offset + |value| <= |s|
    ensures |r| == |s|
  {
    s[..offset] + value + s[offset + |value|..]
  }

  method WriteTarString(header: array<byte>, offset: nat, length: nat, value: seq<byte>) returns (ok: bool)
    requires offset + length <= header.Length
    modifies header
    ensures ok <==> |value| <= length
    ensures !ok ==> header[..] == old(header[..])
    ensures ok ==> header[..] == Overwrite(old(header[..]), offset, value)
  {
    if |value| > length { return false; }
    forall i | 0 <= i < |value| { header[offset + i] := value[i]; }
    ok := true;
    assert header[..] == Overwrite(old(header[..]), offset, value);
  }

  method WriteTarOctal(header: array<byte>, offset: nat, length: nat, value: nat) returns (ok: bool)
    requires 1 <= length && offset + length <= header.Length
    modifies header
    ensures ok <==> |OctalText(value)| <= length - 1
    ensures !ok ==> header[..] == old(header[..])
    ensures ok ==> header[..] == Overwrite(old(header[..]), offset, OctalField(value, length))
  {
    var encoded := OctalText(value);
    if |encoded| > length - 1 { return false; }
    ok := WriteTarString(header, offset, length - 1, PadStart(encoded, length - 1));
    header[offset + length - 1] := 0;
    assert header[..] == Overwrite(old(header[..]), offset, OctalField(value, length));
  }

  /** `done` is written and every later byte of the header is still zero. */
  ghost predicate Written(header: array<byte>, done: seq<byte>)
    reads header
  {
    header.Length == BLOCK && |done| <= BLOCK && header[..] == done + Zeros(BLOCK - |done|)
  }

  lemma SkipZeros(header: array<byte>, done: seq<byte>, n: nat)
    requires Written(header, done) && |done| + n <= BLOCK
    ensures Written(header, done + Zeros(n))
  {
    assert Zeros(BLOCK - |done|) == Zeros(n) + Zeros(BLOCK - |done| - n);
  }

  /** writeTarString into the next zero-padded field. */
  method PutString(header: array<byte>, offset: nat, length: nat, value: seq<byte>, ghost done: seq<byte>)
    requires Written(header, done) && offset == |done| && |value| <= length && offset + length <= BLOCK
    modifies header
    ensures Written(header, done + Pad(value, length))
  {
    var _ := WriteTarString(header, offset, length, value);
    assert header[..] == done + Pad(value, length) + Zeros(BLOCK - |done| - length);
  }

  /** writeTarOctal into the next field. */
  method PutOctal(header: array<byte>, offset: nat, length: nat, value: nat, ghost done: seq<byte>) returns (ok: bool)
    requires Written(header, done) && offset == |done| && 1 <= length && offset + length <= BLOCK
    modifies header
    ensures ok <==> |OctalText(value)| <= length - 1
    ensures ok ==> Written(header, done + OctalField(value, length))
  {
    ok := WriteTarOctal(header, offset, length, value);
    if ok {
      assert header[..] == done + OctalField(value, length) + Zeros(BLOCK - |done| - length);
    }
  }

  method FillFront(header: array<byte>, e: Entry, name: seq<byte>) returns (ok: bool)
    requires SplitPath(e.path).Some? && name == SplitPath(e.path).value.name
    requires Written(header, [])
    modifies header
    ensures ok <==> Writable(e)
    ensures ok ==> Written(header, HeaderFront(e))
  {
    SplitPathMeaning(e.path);
    SmallNumerals(e.mode);
    PutString(header, 0, 100, name, []);
    ghost var done := Pad(name, 100);
    assert [] + done == done;
    ok := PutOctal(header, 100, 8, e.mode % 512, done);
    done := done + OctalField(e.mode % 512, 8);
    ok := PutOctal(header, 108, 8, 0, done);
    done := done + OctalField(0, 8);
    ok := PutOctal(header, 116, 8, 0, done);
    done := done + OctalField(0, 8);
    ok := PutOctal(header, 124, 12, if e.kind == File then |e.data| else 0, done);
    if !ok { return; }
    done := done + OctalField(SizeOf(e), 12);
    ok := PutOctal(header, 136, 12, 0, done);
  }

  /** The header bytes after the numeric fields, with the checksum still blank. */
  method FillBack(header: array<byte>, e: Entry, prefix: seq<byte>)
    requires Writable(e) && prefix == SplitPath(e.path).value.prefix
    requires Written(header, HeaderFront(e))
    modifies header
    ensures header[..] == HeaderFront(e) + SPACES + HeaderBack(e)
  {
    SplitPathMeaning(e.path);
    ghost var done := HeaderFront(e);
    PutString(header, 148, 8, SPACES, done);
    done := done + Pad(SPACES, 8);
    var kind := if e.kind == File then 0x30 else 0x35;
    PutString(header, 156, 1, [kind], done);
    done := done + Pad([kind], 1);
    SkipZeros(header, done, 100);
    done := done + Zeros(100);
    PutString(header, 257, 6, MAGIC[..5], done); // the sixth magic byte stays NUL
    done := done + Pad(MAGIC[..5], 6);
    PutString(header, 263, 2, VERSION, done);
    done := done + Pad(VERSION, 2);
    SkipZeros(header, done, 80);
    done := done + Zeros(80);
    PutString(header, 345, 155, prefix, done);
    done := done + Pad(prefix, 155);
    SkipZeros(header, done, 12);
    BackLayout(e, prefix);
  }

  lemma BackLayout(e: Entry, prefix: seq<byte>)
    requires Writable(e) && prefix == SplitPath(e.path).value.prefix && |prefix| <= 155
    ensures HeaderFront(e) + Pad(SPACES, 8) + Pad([TypeByte(e.kind)], 1) + Zeros(100) + Pad(MAGIC[..5], 6)
            + Pad(VERSION, 2) + Zeros(80) + Pad(prefix, 155) + Zeros(12)
         == HeaderFront(e) + SPACES + HeaderBack(e)
  {
    assert Pad(SPACES, 8) == SPACES && Pad([TypeByte(e.kind)], 1) == [TypeByte(e.kind)];
    assert Pad(MAGIC[..5], 6) == MAGIC && Pad(VERSION, 2) == VERSION;
    Regroup(HeaderFront(e) + SPACES, [TypeByte(e.kind)], Zeros(100), MAGIC, VERSION, Zeros(80), Pad(prefix, 155),
            Zeros(12));
  }

  lemma Regroup(a: seq<byte>, b: seq<byte>, c: seq<byte>, d: seq<byte>, e: seq<byte>, f: seq<byte>, g: seq<byte>,
                h: seq<byte>)
    ensures a + b + c + d + e + f + g + h == a + (b + c + d + e + f + g + h)
  {
    assert a + b + c + d == a + (b + c + d);
    var x := b + c + d;
    assert a + x + e + f == a + (x + e + f);
    var y := x + e + f;
    assert a + y + g + h == a + (y + g + h);
  }

  method FillChecksum(header: array<byte>, checksum: nat, ghost front: seq<byte>, ghost back: seq<byte>)
    requires header.Length == BLOCK && |front| == 148 && |back| == 356 && |OctalText(checksum)| <= 6
    requires header[..] == front + SPACES + back
    modifies header
    ensures header[..] == front + ChecksumField(checksum) + back
  {
    var _ := WriteTarString(header, 148, 6, PadStart(OctalText(checksum), 6));
    header[154] := 0;
    header[155] := 32;
    assert header[..] == front + ChecksumField(checksum) + back;
  }

  method CanonicalTarHeader(e: Entry) returns (r: Result<array<byte>, WriteError>)
    ensures r.Ok? <==> Writable(e)
    ensures r.Ok? ==> fresh(r.value) && r.value[..] == Header(e)
    ensures r.Err? ==> r.error == WriteErrorOf(e)
  {
    var header := new byte[512](_ => 0);
    var split := SplitUstarPath(e.path);
    if split == None { return Err(PathTooLong); }
    assert header[..] == [] + Zeros(512);
    var ok := FillFront(header, e, split.value.name);
    if !ok { return Err(SizeTooLarge); }
    FillBack(header, e, split.value.prefix);
    var checksum := SumHeader(header);
    assert checksum == HeaderSum(e);
    FillChecksum(header, checksum, HeaderFront(e), HeaderBack(e));
    r := Ok(header);
  }

  method SumHeader(header: array<byte>) returns (sum: nat)
    ensures sum == Sum(header[..])
  {
    sum := 0;
    for i := 0 to header.Length
      invariant sum == Sum(header[..i])
    {
      sum := sum + header[i];
      assert header[..i + 1][..i] == header[..i];
    }
    assert header[..header.Length] == header[..];
  }

  // ---------------------------------------------------------------- the archive

  function Padding(n: nat): nat {
    (BLOCK - n % BLOCK) % BLOCK
  }

  function Block(e: Entry): seq<byte>
    requires Writable(e)
  {
    if e.kind == File then Header(e) + e.data + Zeros(Padding(|e.data|)) else Header(e)
  }

  predicate AllWritable(es: seq<Entry>) {
    forall i :: 0 <= i < |es| ==> Writable(es[i])
  }

  function Body(es: seq<Entry>): seq<byte>
    requires AllWritable(es)
  {
    if es == [] then [] else Block(es[0]) + Body(es[1..])
  }

  /** The error of the first member that cannot be written. */
  function FirstUnwritable(es: seq<Entry>): (r: Option<WriteError>)
    ensures r == None <==> AllWritable(es)
  {
    if es == [] then None
    else if !Writable(es[0]) then Some(WriteErrorOf(es[0]))
    else FirstUnwritable(es[1..])
  }

  predicate PathLeq(a: Entry, b: Entry) {
    LexLeq(a.path, b.path)
  }

  function SortByPath(es: seq<Entry>): (r: seq<Entry>)
    ensures multiset(r) == multiset(es) && |r| == |es|
    ensures AllWritable(es) <==> AllWritable(r)
  {
    SortKeepsWritable(es);
    Sorting.Sort(es, PathLeq)
  }

  lemma SortKeepsWritable(es: seq<Entry>)
    ensures var r := Sorting.Sort(es, PathLeq);
            multiset(r) == multiset(es) && |r| == |es| && (AllWritable(es) <==> AllWritable(r))
  {
    var r := Sorting.Sort(es, PathLeq);
    Sorting.SortPermutes(es, PathLeq);
    Sorting.SameElements(es, r);
    assert AllWritable(es) <==> forall e :: e in es ==> Writable(e);
    assert AllWritable(r) <==> forall e :: e in r ==> Writable(e);
  }

  /** The uncompressed canonical archive of a set of members. */
  function CanonicalTar(es: seq<Entry>): seq<byte>
    requires AllWritable(es)
  {
    Body(SortByPath(es)) + Zeros(1024)
  }

  /** One turn of the archive loop: header, then file data and its padding. */
  method EntryBytes(entry: Entry) returns (r: Result<seq<byte>, WriteError>)
    ensures r.Ok? <==> Writable(entry)
    ensures r.Ok? ==> r.value == Block(entry)
    ensures r.Err? ==> r.error == WriteErrorOf(entry)
  {
    hide Writable, Header, WriteErrorOf;
    var header :- CanonicalTarHeader(entry);
    var output: seq<byte> := header[..];
    if entry.kind == File {
      output := output + entry.data;
      var padding := (512 - |entry.data| % 512) % 512;
      if padding > 0 { output := output + Zeros(padding); }
    }
    r := Ok(output);
  }

  /** The members before `i` are written to `output`. */
  ghost predicate Emitted(ordered: seq<Entry>, i: nat, output: seq<byte>) {
    && i <= |ordered| && FirstUnwritable(ordered) == FirstUnwritable(ordered[i..])
    && (AllWritable(ordered) ==> AllWritable(ordered[i..]) && output + Body(ordered[i..]) == Body(ordered))
  }

  method BodyBytes(ordered: seq<Entry>) returns (r: Result<seq<byte>, WriteError>)
    ensures r.Ok? <==> AllWritable(ordered)
    ensures r.Ok? ==> r.value == Body(ordered)
    ensures r.Err? ==> FirstUnwritable(ordered) == Some(r.error)
  {
    hide Emitted, AllWritable, Writable, Body, Block, FirstUnwritable, WriteErrorOf;
    var output: seq<byte> := [];
    EmitStart(ordered);
    for i := 0 to |ordered|
      invariant Emitted(ordered, i, output)
    {
      EmitNext(ordered, i, output);
      var bytes :- EntryBytes(ordered[i]);
      output := output + bytes;
    }
    EmitEnd(ordered, output);
    r := Ok(output);
  }

  lemma EmitStart(ordered: seq<Entry>)
    ensures Emitted(ordered, 0, [])
  {
    hide Body, AllWritable, FirstUnwritable;
    assert ordered[0..] == ordered;
  }

  lemma EmitNext(ordered: seq<Entry>, i: nat, output: seq<byte>)
    requires i < |ordered| && Emitted(ordered, i, output)
    ensures Writable(ordered[i]) ==> Emitted(ordered, i + 1, output + Block(ordered[i]))
    ensures !Writable(ordered[i]) ==>
              !AllWritable(ordered) && FirstUnwritable(ordered) == Some(WriteErrorOf(ordered[i]))
  {
    hide Block, Writable, WriteErrorOf;
    var es := ordered[i..];
    assert es[0] == ordered[i] && es[1..] == ordered[i + 1..];
    BodyStep(es, output);
  }

  lemma BodyStep(es: seq<Entry>, output: seq<byte>)
    requires es != []
    ensures AllWritable(es) ==> AllWritable(es[1..]) && output + Body(es) == output + Block(es[0]) + Body(es[1..])
  {
    hide Block, Writable;
  }

  lemma EmitEnd(ordered: seq<Entry>, output: seq<byte>)
    requires Emitted(ordered, |ordered|, output)
    ensures AllWritable(ordered) && output == Body(ordered)
  {
    hide Block, Writable;
    assert ordered[|ordered|..] == [];
  }

  method CreateCanonicalTar(es: seq<Entry>) returns (r: Result<seq<byte>, WriteError>)
    ensures r.Ok? <==> AllWritable(es)
    ensures r.Ok? ==> r.value == CanonicalTar(es)
    ensures r.Err? ==> FirstUnwritable(SortByPath(es)) == Some(r.error)
  {
    hide AllWritable, Body, FirstUnwritable;
    var ordered := SortByPath(es);
    var body :- BodyBytes(ordered);
    r := Ok(body + Zeros(1024));
  }
}
