/** What the tar reader accepts, how members lie in an archive, and what the reader makes of one
    canonical block. */
module TarCodec {
  import opened Common
  import opened Text
  import opened TarWriter
  import opened TarReader
  import opened TarTheorems
  import Sorting

  // ---------------------------------------------------------------- what the reader accepts

  predicate GoodMember(e: Entry, limits: Limits) {
    && GoodPath(e.path)
    && SafeMode(e.mode)
    && (e.kind == Directory ==> e.data == [])
    && |e.data| <= limits.maxEntryBytes
  }

  ghost predicate DistinctPaths(es: seq<Entry>) {
    forall i, j :: 0 <= i < j < |es| ==> es[i].path != es[j].path
  }

  ghost predicate Accepted(es: seq<Entry>, limits: Limits) {
    && (forall i :: 0 <= i < |es| ==> GoodMember(es[i], limits))
    && DistinctPaths(es)
    && FileCount(es) <= limits.maxFileCount
    && FileBytes(es) <= limits.maxUnpackedBytes
  }

  ghost predicate GoodState(st: State, limits: Limits) {
    Accepted(st.entries, limits) && (st.pending.Some? ==> ValidUtf8(st.pending.value))
  }

  /** Members occupy disjoint stretches of the archive, in order, and the last one ends by `end`. */
  ghost predicate LaidOut(tar: seq<byte>, es: seq<Entry>, starts: seq<nat>, end: nat) {
    && |starts| == |es| && end <= |tar|
    && (es != [] ==>
          var n := |es| - 1;
          && starts[n] + BLOCK + PaddedSize(|es[n].data|) <= end
          && es[n].data == tar[starts[n] + BLOCK..starts[n] + BLOCK + |es[n].data|]
          && LaidOut(tar, es[..n], starts[..n], starts[n]))
  }

  lemma AcceptedAppend(es: seq<Entry>, e: Entry, limits: Limits)
    requires Accepted(es, limits) && GoodMember(e, limits) && e.path !in Paths(es)
    requires FileCount(es + [e]) <= limits.maxFileCount && FileBytes(es + [e]) <= limits.maxUnpackedBytes
    ensures Accepted(es + [e], limits)
  {
    hide GoodMember, FileCount, FileBytes;
    var all := es + [e];
    assert forall i :: 0 <= i < |es| ==> all[i] == es[i] && es[i].path in Paths(es);
  }

  lemma CheckedMemberIsGood(header: seq<byte>, path: seq<byte>, data: seq<byte>, limits: Limits, es: seq<Entry>)
    requires |header| == BLOCK && Accepted(es, limits) && ValidUtf8(path) && |data| <= limits.maxEntryBytes
    requires CheckMember(header, path, data, limits, Paths(es), FileCount(es), FileBytes(es)).Ok?
    ensures Accepted(es + [CheckMember(header, path, data, limits, Paths(es), FileCount(es), FileBytes(es)).value],
                     limits)
  {
    hide SafePath, ParseOctal, ValidUtf8, SafeMode, FileCount, FileBytes, Paths, SizeOf, DistinctPaths;
    var e := CheckMember(header, path, data, limits, Paths(es), FileCount(es), FileBytes(es)).value;
    CountersAfter(es, e);
    AcceptedAppend(es, e, limits);
  }

  lemma PaxKeepsGood(st: State, next: nat, data: seq<byte>, global: bool, limits: Limits)
    requires GoodState(st, limits) && StepPax(st, next, data, global).Ok?
    ensures GoodState(StepPax(st, next, data, global).value, limits)
    ensures StepPax(st, next, data, global).value.entries == st.entries
  {
    hide ParsePax, ValidUtf8, Accepted;
    assert ValidAttributes(map[]);
  }

  lemma MemberKeepsGood(st: State, next: nat, header: seq<byte>, stored: seq<byte>, data: seq<byte>, limits: Limits)
    requires GoodState(st, limits) && |header| == BLOCK && ValidUtf8(stored) && |data| <= limits.maxEntryBytes
    requires StepMember(st, next, header, stored, data, limits).Ok?
    ensures var st' := StepMember(st, next, header, stored, data, limits).value;
            GoodState(st', limits) && |st'.entries| == |st.entries| + 1 && st'.entries[..|st.entries|] == st.entries
            && st'.entries[|st.entries|].data == data
  {
    hide CheckMember, ValidUtf8, Accepted, Paths, FileCount, FileBytes;
    CheckedMemberIsGood(header, if st.pending.Some? then st.pending.value else stored, data, limits, st.entries);
  }

  /** A step adds nothing, or one member whose data is the slice after its header. */
  ghost predicate Extends(tar: seq<byte>, st: State, st': State) {
    || st'.entries == st.entries
    || (&& |st'.entries| == |st.entries| + 1 && st'.entries[..|st.entries|] == st.entries
        && var data := st'.entries[|st.entries|].data;
           && st'.offset == st.offset + BLOCK + PaddedSize(|data|) <= |tar|
           && data == tar[st.offset + BLOCK..st.offset + BLOCK + |data|])
  }

  lemma StepKeepsGood(tar: seq<byte>, limits: Limits, st: State)
    requires GoodState(st, limits) && st.offset + BLOCK <= |tar| && Step(tar, limits, st).Ok?
    ensures GoodState(Step(tar, limits, st).value, limits)
    ensures Extends(tar, st, Step(tar, limits, st).value)
  {
    hide ReadFields, StepPax, StepMember, GnuLongPath, PaddedSize, Accepted, ValidUtf8;
    var header := tar[st.offset..st.offset + BLOCK];
    var Fields(name, prefix, size) := ReadFields(header, limits).value;
    var start, next := st.offset + BLOCK, st.offset + BLOCK + PaddedSize(size);
    assert start + size <= next <= |tar| && size <= limits.maxEntryBytes;
    var data := tar[start..start + size];
    assert |data| == size;
    if header[156] == 0x78 || header[156] == 0x67 {
      PaxKeepsGood(st, next, data, header[156] == 0x67, limits);
    } else if header[156] != 0x4c {
      if prefix != [] { ValidAroundAscii(prefix, SLASH, name); }
      MemberKeepsGood(st, next, header, Join(Split(name, prefix)), data, limits);
    }
  }

  lemma LayoutAfterStep(tar: seq<byte>, st: State, st': State, starts: seq<nat>)
    requires LaidOut(tar, st.entries, starts, st.offset) && Extends(tar, st, st')
    requires st.offset + BLOCK <= st'.offset <= |tar|
    ensures LaidOut(tar, st'.entries, if st'.entries == st.entries then starts else starts + [st.offset], st'.offset)
  {
    hide PaddedSize;
    if st'.entries != st.entries {
      assert (starts + [st.offset])[..|starts|] == starts;
    }
  }

  lemma ZerosToTheEnd(tar: seq<byte>, offset: nat)
    requires offset + 1024 <= |tar| && AllZero(tar[offset..offset + 1024]) && AllZero(tar[offset + 1024..])
    ensures AllZero(tar[offset..])
  {
    assert tar[offset..] == tar[offset..offset + 1024] + tar[offset + 1024..];
  }

  lemma {:induction false} ParseKeepsGood(tar: seq<byte>, limits: Limits, st: State, starts: seq<nat>)
    returns (starts': seq<nat>, end: nat)
    requires st.offset <= |tar| && GoodState(st, limits) && LaidOut(tar, st.entries, starts, st.offset)
    requires Parse(tar, limits, st).Ok?
    ensures Accepted(Parse(tar, limits, st).value, limits)
    ensures LaidOut(tar, Parse(tar, limits, st).value, starts', end) && end + 1024 <= |tar| && AllZero(tar[end..])
    decreases |tar| - st.offset
  {
    hide Step, Accepted, LaidOut, AllZero, ValidUtf8;
    if AllZero(tar[st.offset..st.offset + BLOCK]) {
      starts', end := starts, st.offset;
      ZerosToTheEnd(tar, end);
    } else {
      StepKeepsGood(tar, limits, st);
      var st' := Step(tar, limits, st).value;
      LayoutAfterStep(tar, st, st', starts);
      var more := if st'.entries == st.entries then starts else starts + [st.offset];
      starts', end := ParseKeepsGood(tar, limits, st', more);
    }
  }

  /** Every accepted archive: good members with distinct paths within the limits, disjoint payload
      slices in order, then at least two zero blocks and nothing else. */
  lemma AcceptedArchive(tar: seq<byte>, limits: Limits) returns (starts: seq<nat>, end: nat)
    requires ParseTar(tar, limits).Ok?
    ensures Accepted(ParseTar(tar, limits).value, limits)
    ensures LaidOut(tar, ParseTar(tar, limits).value, starts, end)
    ensures end + 1024 <= |tar| && AllZero(tar[end..])
  {
    hide Parse, AllZero, GoodMember;
    starts, end := ParseKeepsGood(tar, limits, State(0, None, []), []);
  }

  // ---------------------------------------------------------------- totals and lengths

  lemma {:induction false} TotalConcat(a: seq<Entry>, b: seq<Entry>, f: Entry -> nat)
    ensures Total(a + b, f) == Total(a, f) + Total(b, f)
    decreases |b|
  {
    if b == [] {
      assert a + b == a;
    } else {
      TotalConcat(a, b[..|b| - 1], f);
      assert (a + b)[..|a + b| - 1] == a + b[..|b| - 1];
    }
  }

  lemma RemoveAt(es: seq<Entry>, j: nat, f: Entry -> nat)
    requires j < |es|
    ensures Total(es, f) == Total(es[..j] + es[j + 1..], f) + f(es[j])
  {
    var left, x, right := es[..j], es[j], es[j + 1..];
    assert es == left + ([x] + right);
    hide Total;
    TotalConcat(left, right, f);
    TotalConcat(left, [x] + right, f);
    TotalConcat([x], right, f);
    TotalSingle(x, f);
  }

  lemma TotalSingle(x: Entry, f: Entry -> nat)
    ensures Total([x], f) == f(x)
  {
    assert [x][..0] == [];
  }

  lemma {:induction false} TotalPermutes(a: seq<Entry>, b: seq<Entry>, f: Entry -> nat)
    requires multiset(a) == multiset(b)
    ensures Total(a, f) == Total(b, f)
  {
    hide Total;
    assert |multiset(a)| == |a| && |multiset(b)| == |b|;
    if a != [] {
      assert a[0] in multiset(b);
      var j :| 0 <= j < |b| && b[j] == a[0];
      RemoveAt(a, 0, f);
      RemoveAt(b, j, f);
      Sorting.RemoveOne(a, 0);
      Sorting.RemoveOne(b, j);
      TotalPermutes(a[..0] + a[1..], b[..j] + b[j + 1..], f);
    }
  }

  lemma {:induction false} TotalPrefix(es: seq<Entry>, n: nat, f: Entry -> nat)
    requires n <= |es|
    ensures Total(es[..n], f) <= Total(es, f)
  {
    TotalConcat(es[..n], es[n..], f);
    assert es[..n] + es[n..] == es;
  }

  function BlockLength(e: Entry): nat {
    BLOCK + PaddedSize(SizeOf(e))
  }

  lemma PaddingFills(n: nat)
    ensures n + Padding(n) == PaddedSize(n)
  {
    var q, r := n / 512, n % 512;
    assert n == 512 * q + r;
    if r > 0 { assert (n + 511) / 512 == q + 1; } else { assert (n + 511) / 512 == q; }
  }

  lemma BlockLengths(e: Entry)
    requires Writable(e)
    ensures |Block(e)| == BlockLength(e)
  {
    hide Header;
    PaddingFills(|e.data|);
  }

  lemma {:induction false} BodyLengths(es: seq<Entry>)
    requires AllWritable(es)
    ensures |Body(es)| == Total(es, BlockLength)
  {
    hide Block, BlockLength;
    if es != [] {
      BlockLengths(es[0]);
      BodyLengths(es[1..]);
      TotalConcat([es[0]], es[1..], BlockLength);
      assert [es[0]] + es[1..] == es;
      TotalSingle(es[0], BlockLength);
    }
  }

  lemma {:induction false} LayoutLength(tar: seq<byte>, es: seq<Entry>, starts: seq<nat>, end: nat)
    requires LaidOut(tar, es, starts, end)
    requires forall i :: 0 <= i < |es| && es[i].kind == Directory ==> es[i].data == []
    ensures Total(es, BlockLength) <= end
    decreases |es|
  {
    hide PaddedSize;
    if es != [] {
      var n := |es| - 1;
      LayoutLength(tar, es[..n], starts[..n], starts[n]);
      assert BlockLength(es[n]) == BLOCK + PaddedSize(|es[n].data|);
    }
  }

  /** Rewriting an accepted archive never makes it longer. */
  lemma CanonicalNeverLonger(tar: seq<byte>, limits: Limits)
    requires ParseTar(tar, limits).Ok? && AllWritable(ParseTar(tar, limits).value)
    ensures |CanonicalTar(ParseTar(tar, limits).value)| <= |tar|
  {
    hide ParseTar, Body, AllZero, FileCount, FileBytes, GoodPath, SafeMode;
    var es := ParseTar(tar, limits).value;
    var starts, end := AcceptedArchive(tar, limits);
    assert forall i :: 0 <= i < |es| ==> GoodMember(es[i], limits);
    LayoutLength(tar, es, starts, end);
    BodyLengths(SortByPath(es));
    TotalPermutes(SortByPath(es), es, BlockLength);
  }

  // ---------------------------------------------------------------- reading a canonical archive

  lemma BlockAt(tar: seq<byte>, pre: seq<byte>, e: Entry, rest: seq<byte>)
    requires Writable(e) && tar == pre + Block(e) + rest
    ensures |pre| + BLOCK + PaddedSize(SizeOf(e)) == |pre + Block(e)| <= |tar|
    ensures tar[|pre|..|pre| + BLOCK] == Header(e)
    ensures tar[|pre| + BLOCK..|pre| + BLOCK + SizeOf(e)] == Payload(e)
  {
    hide Header, Block, PaddedSize, Padding, Writable, Zeros;
    BlockLengths(e);
    var h, d := Header(e), Payload(e);
    var z := BlockParts(e);
    Slices(pre, h, d, z + rest);
    Regrouped(tar, pre, h, d, z, rest);
  }

  /** The data bytes of a member's block. */
  function Payload(e: Entry): seq<byte> {
    if e.kind == File then e.data else []
  }

  lemma BlockParts(e: Entry) returns (padding: seq<byte>)
    requires Writable(e)
    ensures Block(e) == Header(e) + Payload(e) + padding
  {
    hide Header;
    padding := if e.kind == File then Zeros(Padding(|e.data|)) else [];
  }

  lemma Regrouped(tar: seq<byte>, pre: seq<byte>, h: seq<byte>, d: seq<byte>, z: seq<byte>, rest: seq<byte>)
    requires tar == pre + (h + d + z) + rest
    ensures tar == pre + h + d + (z + rest)
  {
  }

  lemma Slices(pre: seq<byte>, h: seq<byte>, d: seq<byte>, rest: seq<byte>)
    ensures var t := pre + h + d + rest;
            t[|pre|..|pre| + |h|] == h && t[|pre| + |h|..|pre| + |h| + |d|] == d
  {
  }

  lemma HeaderNotZero(e: Entry)
    requires Writable(e)
    ensures !AllZero(Header(e))
  {
    HeaderFields(e);
    hide Header;
    assert Header(e)[156] != 0;
  }

  /** On a canonical block the reader does exactly the member checks, on the path it reads back. */
  lemma StepOnBlock(tar: seq<byte>, limits: Limits, st: State, pre: seq<byte>, e: Entry, rest: seq<byte>)
    requires Writable(e) && GoodMember(e, limits) && tar == pre + Block(e) + rest
    requires st.offset == |pre| && st.pending == None
    ensures st.offset + BLOCK <= |tar| && !AllZero(tar[st.offset..st.offset + BLOCK])
    ensures Step(tar, limits, st) == StepMember(st, |pre + Block(e)|, Header(e), ReadBack(e.path), e.data, limits)
  {
    hide ReadFields, ParseOctal, Header, Block, PaddedSize, GoodPath, SafeMode, StepMember, AllZero, Join, DropBom,
      SplitPath,
      Writable, StepPax, StepGnu;
    BlockAt(tar, pre, e, rest);
    HeaderNotZero(e);
    CanonicalHeaderReads(e, limits);
    assert Payload(e) == e.data;
  }

  function ReadBackEntry(e: Entry): Entry
    requires SplitPath(e.path).Some?
  {
    e.(path := ReadBack(e.path))
  }

  lemma ModeReads(e: Entry, limits: Limits)
    requires Writable(e) && GoodMember(e, limits)
    ensures ParseOctal(Header(e)[100..108]) == Some(e.mode) && KindOf(Header(e)[156]) == Some(e.kind)
  {
    hide ParseOctal, Header, GoodPath, Writable, ReadFields, SplitPath, DropBom;
    CanonicalHeaderReads(e, limits);
  }

  lemma MemberStepResult(st: State, next: nat, e: Entry, limits: Limits)
    requires Writable(e) && GoodMember(e, limits) && st.pending == None
    ensures var r := StepMember(st, next, Header(e), ReadBack(e.path), e.data, limits);
            && (r.Ok? ==> r.value == State(next, None, st.entries + [ReadBackEntry(e)]))
            && (!BomAtSplit(e.path) && Accepted(st.entries + [e], limits) ==>
                  r == Ok(State(next, None, st.entries + [e])))
  {
    hide ParseOctal, Header, SafePath, ValidUtf8, ReadBack, Accepted, Paths, FileCount, FileBytes, SplitPath, SafeMode,
      KindOf;
    ModeReads(e, limits);
    ReadBackMeaning(e.path);
    if Accepted(st.entries + [e], limits) { MemberFits(st.entries, e, limits); }
  }

  lemma MemberFits(es: seq<Entry>, e: Entry, limits: Limits)
    requires Accepted(es + [e], limits)
    ensures e.path !in Paths(es)
    ensures e.kind == File ==>
              FileCount(es) + 1 <= limits.maxFileCount && FileBytes(es) + |e.data| <= limits.maxUnpackedBytes
  {
    hide GoodMember;
    CountersAfter(es, e);
    var all := es + [e];
    assert forall i :: 0 <= i < |es| ==> all[i] == es[i];
    assert all[|es|] == e;
  }
}
