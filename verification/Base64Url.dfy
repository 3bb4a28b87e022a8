/** Unpadded base64url, section 5 of RFC 4648. */
module Base64Url {
  import opened Common

  function Letter(v: nat): (c: char)
    requires v < 64
    ensures LetterValue(c) == Some(v) && c != ':'
  {
    if v < 26 then 'A' + v as char
    else if v < 52 then 'a' + (v - 26) as char
    else if v < 62 then '0' + (v - 52) as char
    else if v == 62 then '-' else '_'
  }

  function LetterValue(c: char): (v: Option<nat>)
    ensures v.Some? ==> v.value < 64
  {
    if 'A' <= c <= 'Z' then Some(c as int - 'A' as int)
    else if 'a' <= c <= 'z' then Some(26 + c as int - 'a' as int)
    else if '0' <= c <= '9' then Some(52 + c as int - '0' as int)
    else if c == '-' then Some(62)
    else if c == '_' then Some(63)
    else None
  }

  // Three bytes x, y, z make four six-bit values, and back.
  function S0(x: byte): (v: nat) ensures v < 64 { x / 4 }
  function S1(x: byte, y: byte): (v: nat) ensures v < 64 { x % 4 * 16 + y / 16 }
  function S2(y: byte, z: byte): (v: nat) ensures v < 64 { y % 16 * 4 + z / 64 }
  function S3(z: byte): (v: nat) ensures v < 64 { z % 64 }
  function B0(v0: nat, v1: nat): byte { (v0 * 4 + v1 / 16) % 256 }
  function B1(v1: nat, v2: nat): byte { (v1 % 16 * 16 + v2 / 4) % 256 }
  function B2(v2: nat, v3: nat): byte { (v2 % 4 * 64 + v3) % 256 }

  lemma Pack16(h: nat, l: nat)
    requires l < 16
    ensures (h * 16 + l) / 16 == h && (h * 16 + l) % 16 == l
  {
  }

  lemma Pack4(h: nat, l: nat)
    requires l < 4
    ensures (h * 4 + l) / 4 == h && (h * 4 + l) % 4 == l
  {
  }

  lemma First(x: byte, y: byte)
    ensures B0(S0(x), S1(x, y)) == x
  {
    Pack16(x % 4, y / 16);
    assert S1(x, y) / 16 == x % 4;
  }

  lemma Second(x: byte, y: byte, z: byte)
    ensures B1(S1(x, y), S2(y, z)) == y
  {
    Pack16(x % 4, y / 16);
    Pack4(y % 16, z / 64);
    assert S1(x, y) % 16 == y / 16 && S2(y, z) / 4 == y % 16;
  }

  lemma Third(y: byte, z: byte)
    ensures B2(S2(y, z), S3(z)) == z
  {
    Pack4(y % 16, z / 64);
    assert S2(y, z) % 4 == z / 64;
  }

  /** The six-bit values of the bytes; a final short group is completed with zero bits. */
  function Sextets(b: seq<byte>): (v: seq<nat>)
    ensures forall i :: 0 <= i < |v| ==> v[i] < 64
  {
    if |b| == 0 then []
    else if |b| == 1 then [S0(b[0]), S1(b[0], 0)]
    else if |b| == 2 then [S0(b[0]), S1(b[0], b[1]), S2(b[1], 0)]
    else [S0(b[0]), S1(b[0], b[1]), S2(b[1], b[2]), S3(b[2])] + Sextets(b[3..])
  }

  function Letters(v: seq<nat>): (s: string)
    requires forall i :: 0 <= i < |v| ==> v[i] < 64
    ensures |s| == |v| && forall i :: 0 <= i < |v| ==> s[i] == Letter(v[i])
  {
    if v == [] then "" else Letters(v[..|v| - 1]) + [Letter(v[|v| - 1])]
  }

  function Encode(b: seq<byte>): string {
    Letters(Sextets(b))
  }

  /** The bytes that six-bit values stand for, and the values of letters: the inverse directions. */
  function Bytes(v: seq<nat>): seq<byte> {
    if |v| < 2 then []
    else if |v| == 2 then [B0(v[0], v[1])]
    else if |v| == 3 then [B0(v[0], v[1]), B1(v[1], v[2])]
    else [B0(v[0], v[1]), B1(v[1], v[2]), B2(v[2], v[3])] + Bytes(v[4..])
  }

  function Values(s: string): Option<seq<nat>> {
    if s == "" then Some([])
    else
      var rest := Values(s[..|s| - 1]);
      if rest == None || LetterValue(s[|s| - 1]) == None then None
      else Some(rest.value + [LetterValue(s[|s| - 1]).value])
  }

  function Decode(s: string): Option<seq<byte>> {
    match Values(s)
    case None => None
    case Some(v) => Some(Bytes(v))
  }

  lemma {:induction false} ValuesOfLetters(v: seq<nat>)
    requires forall i :: 0 <= i < |v| ==> v[i] < 64
    ensures Values(Letters(v)) == Some(v)
  {
    if v != [] {
      ValuesOfLetters(v[..|v| - 1]);
      assert Letters(v)[..|v| - 1] == Letters(v[..|v| - 1]);
      assert v == v[..|v| - 1] + [v[|v| - 1]];
    }
  }

  lemma {:induction false} BytesOfSextets(b: seq<byte>)
    ensures Bytes(Sextets(b)) == b
  {
    hide S0, S1, S2, S3, B0, B1, B2;
    if |b| == 1 {
      First(b[0], 0);
      assert b == [b[0]];
    } else if |b| == 2 {
      First(b[0], b[1]);
      Second(b[0], b[1], 0);
      assert b == [b[0], b[1]];
    } else if |b| >= 3 {
      First(b[0], b[1]);
      Second(b[0], b[1], b[2]);
      Third(b[1], b[2]);
      BytesOfSextets(b[3..]);
      assert Sextets(b)[4..] == Sextets(b[3..]);
      assert b == [b[0], b[1], b[2]] + b[3..];
    }
  }

  lemma RoundTrip(b: seq<byte>)
    ensures Decode(Encode(b)) == Some(b)
  {
    ValuesOfLetters(Sextets(b));
    BytesOfSextets(b);
  }

  /** Different bytes have different encodings. */
  lemma Injective(a: seq<byte>, b: seq<byte>)
    requires Encode(a) == Encode(b)
    ensures a == b
  {
    RoundTrip(a);
    RoundTrip(b);
  }

  lemma ColonFree(b: seq<byte>)
    ensures ':' !in Encode(b)
  {
    var v := Sextets(b);
    assert forall i :: 0 <= i < |v| ==> Encode(b)[i] == Letter(v[i]);
  }

  // ---------------------------------------------------------------- the alphabet and the bit order

  /** The alphabet: A to Z, a to z, 0 to 9, minus and underscore, in this order. */
  lemma Alphabet(v: nat)
    requires v < 64
    ensures Letter(0) == 'A' && Letter(26) == 'a' && Letter(52) == '0' && Letter(62) == '-' && Letter(63) == '_'
    ensures v !in {25, 51, 61, 62, 63} ==> Letter(v + 1) as int == Letter(v) as int + 1
  {
  }

  /** Each group of three bytes is one number, most significant bits first. */
  lemma BitOrder(x: byte, y: byte, z: byte)
    ensures var v := Sextets([x, y, z]);
            |v| == 4 && v[0] * 262144 + v[1] * 4096 + v[2] * 64 + v[3] == x * 65536 + y * 256 + z
    ensures var v := Sextets([x, y]); |v| == 3 && v[0] * 4096 + v[1] * 64 + v[2] == (x * 256 + y) * 4
    ensures var v := Sextets([x]); |v| == 2 && v[0] * 64 + v[1] == x * 16
  {
    assert [x, y, z][3..] == [];
  }

  /** Groups are encoded one after the other. */
  lemma GroupByGroup(a: seq<byte>, b: seq<byte>)
    requires |a| % 3 == 0
    ensures Encode(a + b) == Encode(a) + Encode(b)
  {
    SextetsConcat(a, b, |a| / 3);
    LettersConcat(Sextets(a), Sextets(b));
  }

  function FirstFour(b: seq<byte>): seq<nat>
    requires |b| >= 3
  {
    [S0(b[0]), S1(b[0], b[1]), S2(b[1], b[2]), S3(b[2])]
  }

  lemma SextetsStep(b: seq<byte>)
    requires |b| >= 3
    ensures Sextets(b) == FirstFour(b) + Sextets(b[3..])
  {
    hide S0, S1, S2, S3;
  }

  lemma NoBytes(b: seq<byte>)
    ensures [] + b == b && Sextets([]) + Sextets(b) == Sextets(b)
  {
    hide S0, S1, S2, S3;
    assert Sextets([]) == [];
  }

  lemma SameGroup(a: seq<byte>, b: seq<byte>)
    requires |a| >= 3
    ensures FirstFour(a + b) == FirstFour(a) && (a + b)[3..] == a[3..] + b
  {
    hide S0, S1, S2, S3;
    var s := a + b;
    assert s[0] == a[0] && s[1] == a[1] && s[2] == a[2];
  }

  lemma {:induction false} SextetsConcat(a: seq<byte>, b: seq<byte>, groups: nat)
    requires |a| == 3 * groups
    ensures Sextets(a + b) == Sextets(a) + Sextets(b)
  {
    hide Sextets, FirstFour;
    if groups == 0 {
      assert a == [];
      NoBytes(b);
    } else {
      SextetsStep(a);
      SextetsStep(a + b);
      SameGroup(a, b);
      SextetsConcat(a[3..], b, groups - 1);
      assert FirstFour(a) + (Sextets(a[3..]) + Sextets(b)) == FirstFour(a) + Sextets(a[3..]) + Sextets(b);
    }
  }

  lemma LettersConcat(v: seq<nat>, w: seq<nat>)
    requires (forall i :: 0 <= i < |v| ==> v[i] < 64) && forall i :: 0 <= i < |w| ==> w[i] < 64
    ensures Letters(v + w) == Letters(v) + Letters(w)
  {
    var a, b := Letters(v + w), Letters(v) + Letters(w);
    assert forall i :: 0 <= i < |a| ==> a[i] == b[i];
  }
}
