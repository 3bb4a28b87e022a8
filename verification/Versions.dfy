/** Exact comparison of stable versions without numeric conversion. */
module Versions {
  import opened Common
  import Strings

  predicate Digit(c: char) { '0' <= c <= '9' }

  /** 0 or a digit string without a leading zero. */
  predicate Numeral(s: string) {
    s != [] && (forall i :: 0 <= i < |s| ==> Digit(s[i])) && (|s| == 1 || s[0] != '0')
  }

  /** text.split(".") */
  function Parts(s: string): (p: seq<string>)
    ensures p != []
  {
    Strings.Split(s, '.')
  }

  predicate Stable(s: string) {
    |Parts(s)| == 3 && forall i :: 0 <= i < 3 ==> Numeral(Parts(s)[i])
  }

  // ---------------------------------------------------------------- text comparison

  /** The language's `<` on strings. */
  predicate TextLess(a: string, b: string) {
    b != [] && (a == [] || a[0] < b[0] || (a[0] == b[0] && TextLess(a[1..], b[1..])))
  }

  function CompareNumeric(left: string, right: string): int {
    if |left| != |right| then (if |left| < |right| then -1 else 1)
    else if TextLess(left, right) then -1
    else if TextLess(right, left) then 1
    else 0
  }

  // ---------------------------------------------------------------- numeric meaning

  function Pow10(n: nat): (p: nat)
    ensures p >= 1
  {
    if n == 0 then 1 else 10 * Pow10(n - 1)
  }

  predicate Digits(s: string) { forall i :: 0 <= i < |s| ==> Digit(s[i]) }

  function DigitValue(c: char): (v: nat)
    requires Digit(c)
    ensures v <= 9
  {
    c as int - '0' as int
  }

  function Value(s: string): nat
    requires Digits(s)
  {
    if s == [] then 0 else DigitValue(s[0]) * Pow10(|s| - 1) + Value(s[1..])
  }

  lemma {:induction false} ValueBelow(s: string)
    requires Digits(s)
    ensures Value(s) < Pow10(|s|)
  {
    if s != [] {
      ValueBelow(s[1..]);
      HigherDigit(DigitValue(s[0]), 10, Pow10(|s| - 1), Value(s[1..]), 0);
    }
  }

  lemma ValueAtLeast(s: string)
    requires Digits(s) && s != [] && s[0] != '0'
    ensures Value(s) >= Pow10(|s| - 1)
  {
    var d, p := DigitValue(s[0]), Pow10(|s| - 1);
    assert d >= 1 && d * p >= p;
  }

  lemma {:induction false} PowMonotone(a: nat, b: nat)
    requires a <= b
    ensures Pow10(a) <= Pow10(b)
  {
    if a < b { PowMonotone(a, b - 1); }
  }

  lemma ShorterIsSmaller(a: string, b: string)
    requires Numeral(a) && Numeral(b) && |a| < |b|
    ensures Value(a) < Value(b)
  {
    ValueBelow(a);
    ValueAtLeast(b);
    PowMonotone(|a|, |b| - 1);
  }

  lemma HigherDigit(x: nat, y: nat, p: nat, u: nat, v: nat)
    requires x < y && u < p
    ensures x * p + u < y * p + v
  {
    assert x * p + p == (x + 1) * p;
    assert (x + 1) * p <= y * p;
  }

  /** On digit strings of one length, text order is numeric order. */
  lemma {:induction false} TextOrderIsNumeric(a: string, b: string)
    requires Digits(a) && Digits(b) && |a| == |b|
    ensures TextLess(a, b) <==> Value(a) < Value(b)
    ensures a == b <==> Value(a) == Value(b)
  {
    if a != [] {
      TextOrderIsNumeric(a[1..], b[1..]);
      ValueBelow(a[1..]);
      ValueBelow(b[1..]);
      var x, y, p, u, v := DigitValue(a[0]), DigitValue(b[0]), Pow10(|a| - 1), Value(a[1..]), Value(b[1..]);
      if x < y { HigherDigit(x, y, p, u, v); }
      if y < x { HigherDigit(y, x, p, v, u); }
      assert a == [a[0]] + a[1..] && b == [b[0]] + b[1..];
      assert a[0] < b[0] <==> x < y;
    }
  }

  function Sign(x: int): int {
    if x < 0 then -1 else if x > 0 then 1 else 0
  }

  /** Length-then-text comparison of canonical numerals is comparison of the numbers. */
  lemma CompareNumericIsNumeric(a: string, b: string)
    requires Numeral(a) && Numeral(b)
    ensures CompareNumeric(a, b) == Sign(Value(a) - Value(b))
    ensures a == b <==> Value(a) == Value(b)
  {
    if |a| < |b| { ShorterIsSmaller(a, b); }
    else if |b| < |a| { ShorterIsSmaller(b, a); }
    else {
      TextOrderIsNumeric(a, b);
      TextOrderIsNumeric(b, a);
    }
  }

  // ---------------------------------------------------------------- versions

  datatype Version = Version(major: nat, minor: nat, patch: nat)

  function VersionOf(s: string): Version
    requires Stable(s)
  {
    var p := Parts(s);
    Version(Value(p[0]), Value(p[1]), Value(p[2]))
  }

  /** Lexicographic order of the three unbounded numbers. */
  function Order(a: Version, b: Version): int {
    if a.major != b.major then Sign(a.major - b.major)
    else if a.minor != b.minor then Sign(a.minor - b.minor)
    else Sign(a.patch - b.patch)
  }

  /** None stands for the error on a version that is not stable. */
  method CompareStableVersions(left: string, right: string) returns (r: Option<int>)
    ensures r == if Stable(left) && Stable(right) then Some(Order(VersionOf(left), VersionOf(right))) else None
  {
    if !Stable(left) || !Stable(right) { return None; }
    var leftParts, rightParts := Parts(left), Parts(right);
    for index := 0 to |leftParts|
      invariant forall i :: 0 <= i < index ==> Value(leftParts[i]) == Value(rightParts[i])
    {
      CompareNumericIsNumeric(leftParts[index], rightParts[index]);
      var comparison := CompareNumeric(leftParts[index], rightParts[index]);
      if comparison != 0 { return Some(comparison); }
    }
    r := Some(0);
  }

  /** The order is total and separates distinct version texts. */
  lemma VersionOrderIsTotal(a: string, b: string, c: string)
    requires Stable(a) && Stable(b) && Stable(c)
    ensures Order(VersionOf(a), VersionOf(b)) == 0 <==> a == b
    ensures Order(VersionOf(b), VersionOf(a)) == -Order(VersionOf(a), VersionOf(b))
    ensures Order(VersionOf(a), VersionOf(b)) <= 0 && Order(VersionOf(b), VersionOf(c)) <= 0 ==>
              Order(VersionOf(a), VersionOf(c)) <= 0
  {
    var p, q := Parts(a), Parts(b);
    CompareNumericIsNumeric(p[0], q[0]);
    CompareNumericIsNumeric(p[1], q[1]);
    CompareNumericIsNumeric(p[2], q[2]);
    if VersionOf(a) == VersionOf(b) {
      assert p == q;
      Strings.JoinSplit(a, '.');
      Strings.JoinSplit(b, '.');
    }
  }

  /** The latest tag must not be numerically below the release target. */
  method LatestIsMonotonic(target: string, latest: string) returns (ok: bool)
    ensures ok <==> Stable(target) && Stable(latest) && Order(VersionOf(latest), VersionOf(target)) >= 0
  {
    var comparison := CompareStableVersions(latest, target);
    ok := comparison.Some? && comparison.value >= 0;
  }

  // ---------------------------------------------------------------- versions as text

  lemma NumeralHasNoDot(s: string)
    requires Numeral(s)
    ensures '.' !in s
  {
  }

  /** Three canonical numerals between dots are a stable version of those numbers, in that order. */
  lemma VersionSpelled(a: string, b: string, c: string)
    requires Numeral(a) && Numeral(b) && Numeral(c)
    ensures Stable(a + "." + b + "." + c) && VersionOf(a + "." + b + "." + c) == Version(Value(a), Value(b), Value(c))
  {
    hide Numeral, Value;
    NumeralHasNoDot(a);
    NumeralHasNoDot(b);
    NumeralHasNoDot(c);
    Strings.SplitFirst(a, b + "." + c, '.');
    Strings.SplitFirst(b, c, '.');
    Strings.SplitWhole(c, '.');
    assert a + "." + (b + "." + c) == a + "." + b + "." + c;
    assert Parts(a + "." + b + "." + c) == [a, b, c];
  }

  /** Only such texts are stable versions. */
  lemma StableMeans(s: string) returns (a: string, b: string, c: string)
    requires Stable(s)
    ensures Numeral(a) && Numeral(b) && Numeral(c) && s == a + "." + b + "." + c
  {
    hide Numeral;
    var p := Parts(s);
    a, b, c := p[0], p[1], p[2];
    Strings.JoinSplit(s, '.');
    assert p == [a, b, c] && p[1..] == [b, c] && [b, c][1..] == [c];
    assert Strings.Join([b, c], '.') == b + "." + c;
    assert s == a + "." + (b + "." + c);
  }

  lemma TimesTen(x: nat, p: nat, v: nat, d: nat)
    ensures x * (10 * p) + (10 * v + d) == 10 * (x * p + v) + d
  {
  }

  lemma ValueFirst(s: string)
    requires s != [] && Digits(s)
    ensures Digits(s[1..]) && Value(s) == DigitValue(s[0]) * Pow10(|s| - 1) + Value(s[1..])
  {
  }

  /** A numeral with one more digit is ten times the number plus the digit. */
  lemma {:induction false} ValueAppend(s: string, d: char)
    requires Digits(s) && Digit(d)
    ensures Digits(s + [d]) && Value(s + [d]) == 10 * Value(s) + DigitValue(d)
  {
    var t := s + [d];
    assert Digits(t);
    ValueFirst(t);
    if s == [] {
      assert t[1..] == [] && Pow10(0) == 1;
    } else {
      assert Pow10(|t| - 1) == 10 * Pow10(|s| - 1);
      hide Value, Pow10, Digits;
      ValueFirst(s);
      ValueAppend(s[1..], d);
      assert t[1..] == s[1..] + [d] && t[0] == s[0];
      TimesTen(DigitValue(s[0]), Pow10(|s| - 1), Value(s[1..]), DigitValue(d));
    }
  }

  /** The order compares major, then minor, then patch. */
  lemma OrderMeans(a: Version, b: Version)
    ensures Order(a, b) in {-1, 0, 1}
    ensures Order(a, b) == -1 <==>
              a.major < b.major
                  || (a.major == b.major && (a.minor < b.minor || (a.minor == b.minor && a.patch < b.patch)))
    ensures Order(a, b) == 0 <==> a == b
  {
  }
}
