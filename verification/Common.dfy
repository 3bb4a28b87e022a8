/** Shared value types: bytes, optional values and the source's thrown errors as results. */
module Common {

  type byte = b: int | 0 <= b < 256

  datatype Option<+T> = None | Some(value: T)

  datatype Result<+T, +E> = Ok(value: T) | Err(error: E)
  {
    predicate IsFailure() { Err? }
    function PropagateFailure<U>(): Result<U, E>
      requires Err?
    {
      Err(error)
    }
    function Extract(): T
      requires Ok?
    {
      value
    }
  }

  /** A package name. */
  datatype Name = Name(text: string)

  /** The largest integer the source accepts as exact, 2^53 - 1. */
  const MAX_SAFE_INTEGER: nat := 9007199254740991

  /** The first index at or after `from` that holds `x`, or -1: the runtime's `indexOf` on bytes. */
  function IndexOf(s: seq<byte>, x: byte, from: nat): (i: int)
    requires from <= |s|
    ensures i == -1 ==> x !in s[from..]
    ensures i != -1 ==> from <= i < |s| && s[i] == x && x !in s[from..i]
    decreases |s| - from
  {
    if from == |s| then -1
    else if s[from] == x then from
    else
      var i := IndexOf(s, x, from + 1);
      assert s[from..] == [s[from]] + s[from + 1..];
      assert i != -1 ==> s[from..i] == [s[from]] + s[from + 1..i];
      i
  }

  function Zeros(n: nat): (z: seq<byte>)
    ensures |z| == n
    ensures forall i :: 0 <= i < n ==> z[i] == 0
  {
    seq(n, _ => 0)
  }

  predicate AllZero(s: seq<byte>) {
    forall i :: 0 <= i < |s| ==> s[i] == 0
  }

  predicate StartsWith(s: string, prefix: string) { prefix <= s }

  predicate OccursAt<T(==)>(s: seq<T>, p: seq<T>, i: nat) {
    i + |p| <= |s| && s[i..i + |p|] == p
  }

  lemma {:induction false} SubsetSize(a: set<Name>, b: set<Name>)
    requires a <= b
    ensures |a| <= |b|
  {
    if a != {} {
      var x :| x in a;
      SubsetSize(a - {x}, b - {x});
    }
  }
}
