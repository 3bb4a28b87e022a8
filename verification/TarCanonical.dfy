/** Canonical archives: the exact round trip, confluence, injectivity and idempotence. */
module TarCanonical {
  import opened Common
  import opened Text
  import opened TarWriter
  import opened TarReader
  import opened TarTheorems
  import opened TarCodec
  import Sorting

  // ---------------------------------------------------------------- members up to order

  lemma PathOrder(dom: set<Entry>)
    ensures Sorting.Orders(PathLeq, dom)
  {
    hide LexLeq;
    forall x, y | x in dom && y in dom ensures PathLeq(x, y) || PathLeq(y, x) {
      LexTotal(x.path, y.path);
    }
    forall x, y, z | x in dom && y in dom && z in dom && PathLeq(x, y) && PathLeq(y, z) ensures PathLeq(x, z) {
      LexTransitive(x.path, y.path, z.path);
    }
  }

  lemma SortByPathSorts(es: seq<Entry>)
    ensures Sorting.Sorted(SortByPath(es), PathLeq)
  {
    PathOrder(Sorting.Elements(es));
    Sorting.SortSorts(es, PathLeq, Sorting.Elements(es));
  }

  lemma DistinctCountsOnce(es: seq<Entry>, x: Entry)
    requires DistinctPaths(es)
    ensures multiset(es)[x] <= 1
  {
    if x in es {
      var i :| 0 <= i < |es| && es[i] == x;
      Sorting.RemoveOne(es, i);
      var rest := es[..i] + es[i + 1..];
      assert x !in rest;
      assert x !in multiset(rest);
    }
  }

  lemma DistinctPermutes(a: seq<Entry>, b: seq<Entry>)
    requires multiset(a) == multiset(b) && DistinctPaths(a)
    ensures DistinctPaths(b)
  {
    var key := (e: Entry) => e.path;
    assert Sorting.DistinctKeys(a, key);
    Sorting.DistinctKeysPermute(a, b, key);
    assert forall i, j :: 0 <= i < j < |b| ==> key(b[i]) != key(b[j]);
  }

  lemma AcceptedPermutes(a: seq<Entry>, b: seq<Entry>, limits: Limits)
    requires multiset(a) == multiset(b) && Accepted(a, limits)
    ensures Accepted(b, limits)
  {
    hide GoodMember, DistinctPaths, Total;
    Sorting.SameElements(a, b);
    DistinctPermutes(a, b);
    TotalPermutes(a, b, IsFile);
    TotalPermutes(a, b, SizeOf);
    forall i | 0 <= i < |b| ensures GoodMember(b[i], limits) {
      assert b[i] in a;
    }
  }

  lemma AcceptedPrefix(es: seq<Entry>, n: nat, limits: Limits)
    requires Accepted(es, limits) && n <= |es|
    ensures Accepted(es[..n], limits)
  {
    hide GoodMember, Total;
    TotalPrefix(es, n, IsFile);
    TotalPrefix(es, n, SizeOf);
  }

  /** With distinct paths, having the same members is being a rearrangement. */
  lemma SameMembersPermute(a: seq<Entry>, b: seq<Entry>)
    requires DistinctPaths(a) && DistinctPaths(b) && forall e :: e in a <==> e in b
    ensures multiset(a) == multiset(b)
  {
    forall e ensures multiset(a)[e] == multiset(b)[e] {
      DistinctCountsOnce(a, e);
      DistinctCountsOnce(b, e);
      assert e in a <==> e in multiset(a);
      assert e in b <==> e in multiset(b);
    }
  }

  // ---------------------------------------------------------------- the exact round trip

  function ReadBackAll(es: seq<Entry>): (r: seq<Entry>)
    requires AllWritable(es)
    ensures |r| == |es|
    ensures forall i :: 0 <= i < |es| ==> r[i] == ReadBackEntry(es[i])
  {
    if es == [] then [] else [ReadBackEntry(es[0])] + ReadBackAll(es[1..])
  }

  ghost predicate NoBom(es: seq<Entry>) {
    forall e :: e in es ==> !BomAtSplit(e.path)
  }

  ghost predicate AllGood(es: seq<Entry>, limits: Limits) {
    forall i :: 0 <= i < |es| ==> GoodMember(es[i], limits)
  }

  lemma ParseAtEnd(tar: seq<byte>, limits: Limits, st: State, pre: seq<byte>)
    requires tar == pre + Zeros(1024) && st.offset == |pre| && st.pending == None
    ensures Parse(tar, limits, st) == Ok(st.entries)
  {
    hide Step;
    assert tar[st.offset..st.offset + 1024] == Zeros(1024);
    assert tar[st.offset..st.offset + BLOCK] == Zeros(BLOCK);
    assert tar[st.offset + 1024..] == [];
  }

  lemma ParseOnce(tar: seq<byte>, limits: Limits, st: State, next: State)
    requires st.offset + BLOCK <= |tar| && !AllZero(tar[st.offset..st.offset + BLOCK])
             && Step(tar, limits, st) == Ok(next)
    ensures next.offset <= |tar| && Parse(tar, limits, st) == Parse(tar, limits, next)
  {
    hide Step, AllZero;
  }

  /** One canonical block advances the reader over it, with the path read back. */
  lemma ParseBlock(tar: seq<byte>, limits: Limits, st: State, pre: seq<byte>, e: Entry, rest: seq<byte>)
    requires Writable(e) && GoodMember(e, limits) && tar == pre + Block(e) + rest
    requires st.offset == |pre| && st.pending == None
    ensures Parse(tar, limits, st).Ok? ==>
              Parse(tar, limits, st)
                  == Parse(tar, limits, State(|pre + Block(e)|, None, st.entries + [ReadBackEntry(e)]))
    ensures !BomAtSplit(e.path) && Accepted(st.entries + [e], limits) ==>
              Parse(tar, limits, st) == Parse(tar, limits, State(|pre + Block(e)|, None, st.entries + [e]))
  {
    hide Block, Step, Accepted, GoodMember, Writable, BomAtSplit, AllZero, ReadBack, StepMember;
    StepOnBlock(tar, limits, st, pre, e, rest);
    MemberStepResult(st, |pre + Block(e)|, e, limits);
  }

  lemma SplitFirst(pre: seq<byte>, es: seq<Entry>)
    requires es != [] && AllWritable(es)
    ensures pre + (Body(es) + Zeros(1024)) == pre + Block(es[0]) + (Body(es[1..]) + Zeros(1024))
  {
    hide Block;
  }

  lemma {:induction false} ParseCanonicalShape(tar: seq<byte>, limits: Limits, st: State, pre: seq<byte>,
                                               es: seq<Entry>)
    requires AllWritable(es) && AllGood(es, limits)
    requires tar == pre + (Body(es) + Zeros(1024)) && st.offset == |pre| && st.pending == None
    requires Parse(tar, limits, st).Ok?
    ensures Parse(tar, limits, st).value == st.entries + ReadBackAll(es)
    decreases |es|
  {
    hide Block, Body, Parse, GoodMember, SplitPath, OctalText, ReadBackEntry, Zeros;
    if es == [] {
      assert tar == pre + Zeros(1024) by { BodyOfNothing(); }
      ParseAtEnd(tar, limits, st, pre);
    } else {
      var e, rest := es[0], Body(es[1..]) + Zeros(1024);
      SplitFirst(pre, es);
      ParseBlock(tar, limits, st, pre, e, rest);
      ParseCanonicalShape(tar, limits, State(|pre + Block(e)|, None, st.entries + [ReadBackEntry(e)]), pre + Block(e),
                          es[1..]);
      ReadBackCons(st.entries, es);
    }
  }

  lemma ReadBackCons(done: seq<Entry>, es: seq<Entry>)
    requires es != [] && AllWritable(es)
    ensures done + [ReadBackEntry(es[0])] + ReadBackAll(es[1..]) == done + ReadBackAll(es)
  {
    hide ReadBackEntry, SplitPath, OctalText;
  }

  lemma BodyOfNothing()
    ensures Body([]) + Zeros(1024) == Zeros(1024)
  {
  }

  lemma {:induction false} ParseCanonicalSucceeds(tar: seq<byte>, limits: Limits, st: State, pre: seq<byte>,
                                                  es: seq<Entry>)
    requires AllWritable(es) && AllGood(es, limits) && NoBom(es) && Accepted(st.entries + es, limits)
    requires tar == pre + (Body(es) + Zeros(1024)) && st.offset == |pre| && st.pending == None
    ensures Parse(tar, limits, st) == Ok(st.entries + es)
    decreases |es|
  {
    hide Block, Body, Parse, GoodMember, Writable, Accepted, BomAtSplit, Zeros;
    if es == [] {
      assert tar == pre + Zeros(1024) by { BodyOfNothing(); }
      ParseAtEnd(tar, limits, st, pre);
      assert st.entries + es == st.entries;
    } else {
      var e, rest := es[0], Body(es[1..]) + Zeros(1024);
      SplitFirst(pre, es);
      AcceptedPrefix(st.entries + es, |st.entries| + 1, limits);
      assert (st.entries + es)[..|st.entries| + 1] == st.entries + [e];
      assert e in es;
      ParseBlock(tar, limits, st, pre, e, rest);
      assert st.entries + [e] + es[1..] == st.entries + es;
      ParseCanonicalSucceeds(tar, limits, State(|pre + Block(e)|, None, st.entries + [e]), pre + Block(e), es[1..]);
    }
  }

  /** Whatever the reader makes of a canonical archive, it is the sorted members with each path read back. */
  lemma CanonicalReadsBack(es: seq<Entry>, limits: Limits)
    requires Accepted(es, limits) && AllWritable(es)
    ensures ParseTar(CanonicalTar(es), limits).Ok? ==>
              ParseTar(CanonicalTar(es), limits).value == ReadBackAll(SortByPath(es))
    ensures ValidLimits(limits) && NoBom(es) ==> ParseTar(CanonicalTar(es), limits) == Ok(SortByPath(es))
  {
    hide Parse, Body, GoodMember, Writable, FileCount, FileBytes, BomAtSplit;
    var sorted := SortByPath(es);
    AcceptedPermutes(es, sorted, limits);
    Sorting.SameElements(es, sorted);
    var tar := CanonicalTar(es);
    assert tar == [] + (Body(sorted) + Zeros(1024));
    assert [] + sorted == sorted && [] + ReadBackAll(sorted) == ReadBackAll(sorted);
    if Parse(tar, limits, State(0, None, [])).Ok? { ParseCanonicalShape(tar, limits, State(0, None, []), [], sorted); }
    if NoBom(es) { ParseCanonicalSucceeds(tar, limits, State(0, None, []), [], sorted); }
  }

  /** The round trip returns the members sorted by path bytes, exactly when no split-off name opens
      with a byte order mark. */
  lemma RoundTripExactly(es: seq<Entry>, limits: Limits)
    requires ValidLimits(limits) && Accepted(es, limits) && AllWritable(es)
    ensures ParseTar(CanonicalTar(es), limits) == Ok(SortByPath(es)) <==> NoBom(es)
    ensures Sorting.Sorted(SortByPath(es), PathLeq) && multiset(SortByPath(es)) == multiset(es)
  {
    hide ParseTar, CanonicalTar, Accepted, ValidLimits;
    SortByPathSorts(es);
    CanonicalReadsBack(es, limits);
    var sorted := SortByPath(es);
    if ParseTar(CanonicalTar(es), limits) == Ok(sorted) && !NoBom(es) {
      var e :| e in es && BomAtSplit(e.path);
      Sorting.SameElements(es, sorted);
      assert e in sorted;
      var i :| 0 <= i < |sorted| && sorted[i] == e;
      assert sorted[i] == ReadBackEntry(sorted[i]);
      ReadBackMeaning(e.path);
      assert false;
    }
  }

  // ---------------------------------------------------------------- confluence and injectivity

  lemma PadInjective(a: seq<byte>, b: seq<byte>, n: nat)
    requires |a| <= n && |b| <= n && 0 !in a && 0 !in b && Pad(a, n) == Pad(b, n)
    ensures a == b
  {
    var p := Pad(a, n);
    assert p[..|a|] == a && Pad(b, n)[..|b|] == b;
    assert forall i :: 0 <= i < |a| ==> p[i] == a[i] && p[i] != 0;
    assert forall i :: 0 <= i < |b| ==> p[i] == b[i] && p[i] != 0;
    assert |a| < n ==> p[|a|] == 0;
    assert |b| < n ==> p[|b|] == 0;
  }

  /** A canonical header determines everything about its member but the data. */
  lemma HeaderInjective(a: Entry, b: Entry, limits: Limits)
    requires Writable(a) && Writable(b) && GoodMember(a, limits) && GoodMember(b, limits)
    requires Header(a) == Header(b)
    ensures a.path == b.path && a.mode == b.mode && a.kind == b.kind && SizeOf(a) == SizeOf(b)
  {
    hide Header, ParseOctal, SafePath, ValidUtf8, OctalField, Pad, SplitPath, Checksum, ReadFields, HeaderSum,
      ChecksumField, OctalText;
    HeaderFields(a);
    HeaderFields(b);
    CanonicalHeaderReads(a, limits);
    CanonicalHeaderReads(b, limits);
    GoodPathParts(a.path);
    GoodPathParts(b.path);
    var s, t := SplitPath(a.path).value, SplitPath(b.path).value;
    PadInjective(s.name, t.name, 100);
    PadInjective(s.prefix, t.prefix, 155);
    SplitPathMeaning(a.path);
    SplitPathMeaning(b.path);
  }

  lemma BlocksAgree(a: Entry, x: seq<byte>, b: Entry, y: seq<byte>, limits: Limits)
    requires Writable(a) && Writable(b) && GoodMember(a, limits) && GoodMember(b, limits)
    requires Block(a) + x == Block(b) + y
    ensures a == b && x == y
  {
    hide Header, Block, GoodPath, SafeMode, Writable, PaddedSize;
    var whole := Block(a) + x;
    BlockAt(whole, [], a, x);
    BlockAt(whole, [], b, y);
    assert [] + Block(a) == Block(a) && [] + Block(b) == Block(b);
    HeaderInjective(a, b, limits);
    assert whole[|Block(a)|..] == x && whole[|Block(b)|..] == y;
  }

  lemma BodyNotZero(es: seq<Entry>)
    requires es != [] && AllWritable(es)
    ensures Body(es) + Zeros(1024) != Zeros(1024)
  {
    hide Header, SplitPath, OctalText;
    HeaderFields(es[0]);
    assert (Body(es) + Zeros(1024))[156] == Header(es[0])[156] != 0;
  }

  lemma {:induction false} BodyInjective(xs: seq<Entry>, ys: seq<Entry>, limits: Limits)
    requires AllWritable(xs) && AllWritable(ys) && AllGood(xs, limits) && AllGood(ys, limits)
    requires Body(xs) + Zeros(1024) == Body(ys) + Zeros(1024)
    ensures xs == ys
  {
    hide Block, GoodMember, Writable, Zeros, Body;
    BodyOfNothing();
    if xs == [] {
      if ys != [] { BodyNotZero(ys); }
    } else if ys == [] {
      BodyNotZero(xs);
    } else {
      SplitFirst([], xs);
      SplitFirst([], ys);
      var x, y := Body(xs[1..]) + Zeros(1024), Body(ys[1..]) + Zeros(1024);
      assert [] + Block(xs[0]) == Block(xs[0]) && [] + Block(ys[0]) == Block(ys[0]);
      BlocksAgree(xs[0], x, ys[0], y, limits);
      BodyInjective(xs[1..], ys[1..], limits);
      assert xs == [xs[0]] + xs[1..] && ys == [ys[0]] + ys[1..];
    }
  }

  lemma SortedMembersUnique(a: seq<Entry>, b: seq<Entry>)
    requires DistinctPaths(a) && multiset(a) == multiset(b)
    ensures SortByPath(a) == SortByPath(b)
  {
    hide LexLeq, AllWritable;
    var x, y := SortByPath(a), SortByPath(b);
    SortByPathSorts(a);
    SortByPathSorts(b);
    DistinctPermutes(a, x);
    forall e, f | e in x && f in x && PathLeq(e, f) && PathLeq(f, e) ensures e == f {
      var i :| 0 <= i < |x| && x[i] == e;
      var j :| 0 <= j < |x| && x[j] == f;
      assert i != j ==> x[i].path != x[j].path;
      LexAntisymmetric(e.path, f.path);
    }
    Sorting.SortedUnique(x, y, PathLeq);
  }

  /** Two accepted member lists have the same canonical archive exactly when they hold the same members. */
  lemma CanonicalFormIsConfluent(a: seq<Entry>, b: seq<Entry>, limits: Limits)
    requires Accepted(a, limits) && Accepted(b, limits) && AllWritable(a) && AllWritable(b)
    ensures CanonicalTar(a) == CanonicalTar(b) <==> forall e :: e in a <==> e in b
  {
    hide Body, GoodMember, Writable, FileCount, FileBytes;
    if forall e :: e in a <==> e in b {
      SameMembersPermute(a, b);
      SortedMembersUnique(a, b);
    }
    if CanonicalTar(a) == CanonicalTar(b) {
      var x, y := SortByPath(a), SortByPath(b);
      AcceptedPermutes(a, x, limits);
      AcceptedPermutes(b, y, limits);
      BodyInjective(x, y, limits);
      Sorting.SameElements(a, x);
      Sorting.SameElements(b, y);
      forall e ensures e in a <==> e in b { }
    }
  }

  /** The same statement about archives: order, timestamps, owners and path headers do not matter. */
  lemma ArchivesCanonicalizeAlike(s: seq<byte>, t: seq<byte>, limits: Limits)
    requires ParseTar(s, limits).Ok? && ParseTar(t, limits).Ok?
    requires AllWritable(ParseTar(s, limits).value) && AllWritable(ParseTar(t, limits).value)
    ensures CanonicalTar(ParseTar(s, limits).value) == CanonicalTar(ParseTar(t, limits).value)
       <==> forall e :: e in ParseTar(s, limits).value <==> e in ParseTar(t, limits).value
  {
    hide ParseTar, CanonicalTar, AllWritable, Accepted;
    var _, _ := AcceptedArchive(s, limits);
    var _, _ := AcceptedArchive(t, limits);
    CanonicalFormIsConfluent(ParseTar(s, limits).value, ParseTar(t, limits).value, limits);
  }

  // ---------------------------------------------------------------- idempotence

  function PathLength(e: Entry): nat { |e.path| }

  lemma {:induction false} TotalCompare(a: seq<Entry>, b: seq<Entry>, f: Entry -> nat, k: int)
    requires |a| == |b| && forall i :: 0 <= i < |a| ==> f(a[i]) <= f(b[i])
    requires 0 <= k < |a| ==> f(a[k]) < f(b[k])
    ensures Total(a, f) <= Total(b, f)
    ensures 0 <= k < |a| ==> Total(a, f) < Total(b, f)
  {
    if a != [] { TotalCompare(a[..|a| - 1], b[..|b| - 1], f, k); }
  }

  lemma ReadBackShrinks(es: seq<Entry>, bad: Entry)
    requires AllWritable(es) && bad in es && BomAtSplit(bad.path)
    ensures Total(ReadBackAll(es), PathLength) < Total(es, PathLength)
  {
    hide ReadBackAll, BomAtSplit, SplitPath, OctalText, Total, ReadBackEntry;
    var back := ReadBackAll(es);
    forall i | 0 <= i < |es| ensures PathLength(back[i]) <= PathLength(es[i]) {
      EntryShrinks(es[i]);
    }
    var k :| 0 <= k < |es| && es[k] == bad;
    EntryShrinks(es[k]);
    TotalCompare(back, es, PathLength, k);
  }

  lemma EntryShrinks(e: Entry)
    requires Writable(e)
    ensures PathLength(ReadBackEntry(e)) <= PathLength(e)
    ensures BomAtSplit(e.path) ==> PathLength(ReadBackEntry(e)) < PathLength(e)
  {
    ReadBackMeaning(e.path);
  }

  /** Canonicalizing a canonical archive succeeds with the same bytes. */
  ghost predicate Stable(c: seq<byte>, limits: Limits) {
    && ParseTar(c, limits).Ok?
    && AllWritable(ParseTar(c, limits).value)
    && CanonicalTar(ParseTar(c, limits).value) == c
  }

  /** Canonicalization is idempotent, within every limit the original met, exactly when no member's
      split-off name opens with a byte order mark. */
  lemma CanonicalizationIdempotent(tar: seq<byte>, limits: Limits)
    requires ParseTar(tar, limits).Ok? && AllWritable(ParseTar(tar, limits).value)
    ensures Stable(CanonicalTar(ParseTar(tar, limits).value), limits) <==> NoBom(ParseTar(tar, limits).value)
    ensures |CanonicalTar(ParseTar(tar, limits).value)| <= |tar|
  {
    var es := ParseTar(tar, limits).value;
    assert ValidLimits(limits);
    hide ParseTar, Accepted, BomAtSplit, Body, AllWritable, ValidLimits, Total, ReadBackAll;
    var _, _ := AcceptedArchive(tar, limits);
    CanonicalNeverLonger(tar, limits);
    CanonicalReadsBack(es, limits);
    var c, sorted := CanonicalTar(es), SortByPath(es);
    if NoBom(es) {
      assert SortByPath(sorted) == sorted by { SortedMembersUnique'(es, sorted, limits); }
    }
    if Stable(c, limits) && !NoBom(es) {
      var bad :| bad in es && BomAtSplit(bad.path);
      var back := ReadBackAll(sorted);
      var _, _ := AcceptedArchive(c, limits);
      CanonicalFormIsConfluent(back, es, limits);
      SameAccepted(back, es, limits);
      Sorting.SameElements(es, sorted);
      TotalPermutes(back, sorted, PathLength);
      ReadBackShrinks(sorted, bad);
      assert false;
    }
  }

  lemma SameAccepted(a: seq<Entry>, b: seq<Entry>, limits: Limits)
    requires Accepted(a, limits) && Accepted(b, limits) && forall e :: e in a <==> e in b
    ensures multiset(a) == multiset(b)
  {
    SameMembersPermute(a, b);
  }

  lemma SortedMembersUnique'(es: seq<Entry>, sorted: seq<Entry>, limits: Limits)
    requires Accepted(es, limits) && multiset(sorted) == multiset(es)
    ensures SortByPath(sorted) == SortByPath(es)
  {
    SortedMembersUnique(es, sorted);
  }
}
