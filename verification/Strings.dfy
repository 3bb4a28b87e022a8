/** Splitting text at a separator character and joining it again. */
module Strings {

  /** text.split(sep) */
  function Split(s: string, sep: char): (p: seq<string>)
    ensures p != []
  {
    if s == [] then [[]]
    else
      var rest := Split(s[1..], sep);
      if s[0] == sep then [[]] + rest else [[s[0]] + rest[0]] + rest[1..]
  }

  lemma {:induction false} SplitParts(s: string, sep: char)
    ensures forall i :: 0 <= i < |Split(s, sep)| ==> sep !in Split(s, sep)[i]
  {
    if s != [] { SplitParts(s[1..], sep); }
  }

  function Join(p: seq<string>, sep: char): string
    requires p != []
  {
    if |p| == 1 then p[0] else p[0] + [sep] + Join(p[1..], sep)
  }

  lemma {:induction false} JoinSplit(s: string, sep: char)
    ensures Join(Split(s, sep), sep) == s
  {
    if s != [] {
      JoinSplit(s[1..], sep);
      var rest := Split(s[1..], sep);
      if s[0] == sep {
        assert Split(s, sep)[1..] == rest;
      } else {
        assert Split(s, sep)[1..] == rest[1..];
      }
    }
  }

  lemma {:induction false} SplitFirst(a: string, s: string, sep: char)
    requires sep !in a
    ensures Split(a + [sep] + s, sep) == [a] + Split(s, sep)
  {
    var t := a + [sep] + s;
    if a == [] {
      assert t[1..] == s;
    } else {
      SplitFirst(a[1..], s, sep);
      assert t[1..] == a[1..] + [sep] + s;
      assert [t[0]] + a[1..] == a;
    }
  }

  lemma {:induction false} SplitWhole(a: string, sep: char)
    requires sep !in a
    ensures Split(a, sep) == [a]
  {
    if a != [] {
      SplitWhole(a[1..], sep);
      assert a == [a[0]] + a[1..];
    }
  }

  /** Parts without the separator survive joining and splitting. */
  lemma {:induction false} SplitJoin(p: seq<string>, sep: char)
    requires p != [] && forall i :: 0 <= i < |p| ==> sep !in p[i]
    ensures Split(Join(p, sep), sep) == p
  {
    if |p| == 1 {
      SplitWhole(p[0], sep);
    } else {
      SplitJoin(p[1..], sep);
      SplitFirst(p[0], Join(p[1..], sep), sep);
      assert p == [p[0]] + p[1..];
    }
  }

  /** Text before the first separator and the text after it are determined by the whole. */
  lemma {:induction false} FirstSeparator(a: string, b: string, c: string, d: string, sep: char)
    requires sep !in a && sep !in c && a + [sep] + b == c + [sep] + d
    ensures a == c && b == d
  {
    var t := a + [sep] + b;
    assert t[|a|] == sep && (c + [sep] + d)[|c|] == sep;
    assert forall i :: 0 <= i < |a| ==> t[i] == a[i];
    assert forall i :: 0 <= i < |c| ==> t[i] == c[i];
    assert |a| == |c|;
    assert t[..|a|] == a && t[..|c|] == c && t[|a| + 1..] == b && t[|c| + 1..] == d;
  }
}
