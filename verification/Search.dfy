/** Searching a file for a byte string through one fixed buffer. */
module Search {
  import opened Common

  const CHUNK_BYTES := 64 * 1024

  /** Naive substring search. */
  predicate Occurs(hay: seq<byte>, needle: seq<byte>) {
    exists i :: 0 <= i <= |hay| && OccursAt(hay, needle, i)
  }

  /** A read at `position` into the buffer: any nonempty amount up to the requested length, as the
      operating system likes; only the bytes it delivers change. */
  method ReadSync(file: seq<byte>, buffer: array<byte>, offset: nat, length: nat, position: nat) returns (read: nat)
    requires position < |file| && 0 < length && offset + length <= buffer.Length
    modifies buffer
    ensures 0 < read <= length && position + read <= |file|
    ensures buffer[..offset] == old(buffer[..offset])
    ensures buffer[offset..offset + read] == file[position..position + read]
  {
    var amount :| 0 < amount <= length && position + amount <= |file|;
    forall i | 0 <= i < amount { buffer[offset + i] := file[position + i]; }
    read := amount;
    ghost var got, want := buffer[offset..offset + amount], file[position..position + amount];
    assert forall i :: 0 <= i < amount ==> got[i] == want[i];
  }

  /** Every occurrence in the longer prefix lies in the shorter prefix or inside the window. */
  lemma WindowCoversNew(file: seq<byte>, needle: seq<byte>, position: nat, read: nat, overlap: nat)
    requires 0 < |needle| && position + read <= |file|
    requires overlap == if |needle| - 1 < position then |needle| - 1 else position
    requires !Occurs(file[..position], needle)
    ensures Occurs(file[..position + read], needle) <==> Occurs(file[position - overlap..position + read], needle)
  {
    var prefix, window, start := file[..position + read], file[position - overlap..position + read], position - overlap;
    if Occurs(window, needle) {
      var i :| 0 <= i <= |window| && OccursAt(window, needle, i);
      assert prefix[start + i..start + i + |needle|] == window[i..i + |needle|];
      assert OccursAt(prefix, needle, start + i);
    }
    if Occurs(prefix, needle) {
      var i :| 0 <= i <= |prefix| && OccursAt(prefix, needle, i);
      if i + |needle| <= position {
        assert file[..position][i..i + |needle|] == prefix[i..i + |needle|];
        assert OccursAt(file[..position], needle, i);
      } else {
        assert window[i - start..i - start + |needle|] == prefix[i..i + |needle|];
        assert OccursAt(window, needle, i - start);
      }
    }
  }

  lemma Adjacent(s: seq<byte>, a: nat, b: nat, c: nat)
    requires a <= b <= c <= |s|
    ensures s[a..b] + s[b..c] == s[a..c]
  {
  }

  lemma Suffix(s: seq<byte>, a: nat, c: nat, k: nat)
    requires a <= c <= |s| && k <= c - a
    ensures s[a..c][c - a - k..] == s[c - k..c]
  {
  }

  /** The next read lands behind the carried overlap. */
  method FillWindow(file: seq<byte>, buffer: array<byte>, overlap: nat, position: nat) returns (read: nat)
    requires overlap <= position < |file| && overlap + CHUNK_BYTES <= buffer.Length
    requires buffer[..overlap] == file[position - overlap..position]
    modifies buffer
    ensures 0 < read <= CHUNK_BYTES && position + read <= |file|
    ensures buffer[..overlap + read] == file[position - overlap..position + read]
  {
    read := ReadSync(file, buffer, overlap, CHUNK_BYTES, position);
    assert buffer[..overlap + read] == buffer[..overlap] + buffer[overlap..overlap + read];
    Adjacent(file, position - overlap, position, position + read);
  }

  /** buffer.copy(buffer, 0, total - kept, total), overlapping ranges included. */
  method CopyDown(buffer: array<byte>, total: nat, kept: nat)
    requires kept <= total <= buffer.Length
    modifies buffer
    ensures buffer[..kept] == old(buffer[..total])[total - kept..]
  {
    ghost var before := buffer[..total];
    forall i | 0 <= i < kept { buffer[i] := buffer[total - kept + i]; }
    assert forall i :: 0 <= i < kept ==> buffer[..kept][i] == before[total - kept..][i];
  }

  lemma TooShort(hay: seq<byte>, needle: seq<byte>)
    requires |hay| < |needle|
    ensures !Occurs(hay, needle)
  {
  }

  /** The bytes before `position` hold no needle, and `held` are the last of them that could start one. */
  ghost predicate Carried(file: seq<byte>, needle: seq<byte>, held: seq<byte>, position: nat) {
    && 0 < |needle| && position <= |file| && |held| == Least(|needle| - 1, position)
    && held == file[position - |held|..position] && !Occurs(file[..position], needle)
  }

  function Least(a: int, b: int): int { if a < b then a else b }

  /** One turn of the loop: read behind the carried bytes, look, and carry the tail down. */
  method SearchChunk(file: seq<byte>, needle: seq<byte>, buffer: array<byte>, overlap: nat, position: nat)
    returns (found: bool, kept: nat, next: nat)
    requires position < |file| && overlap + CHUNK_BYTES <= buffer.Length
    requires Carried(file, needle, buffer[..overlap], position)
    modifies buffer
    ensures found ==> Occurs(file, needle)
    ensures !found ==> kept < |needle| && position < next <= |file| && kept <= buffer.Length
                       && Carried(file, needle, buffer[..kept], next)
  {
    hide Occurs;
    var read := FillWindow(file, buffer, overlap, position);
    var total := overlap + read;
    next := position + read;
    WindowCoversNew(file, needle, position, read, overlap);
    found := Occurs(buffer[..total], needle);
    kept := Least(|needle| - 1, total);
    if found {
      Extends(file, needle, next);
    } else {
      Suffix(file, position - overlap, next, kept);
      CopyDown(buffer, total, kept);
    }
  }

  /** The chunked search with carried overlap, for every pattern of short reads. With an empty needle the
      buffer is one byte too short for a chunk, so the first read throws and the answer is false. */
  method FileContainsBytes(file: seq<byte>, needle: seq<byte>) returns (found: bool)
    ensures found <==> needle != [] && Occurs(file, needle)
  {
    hide Occurs;
    if |file| < |needle| {
      TooShort(file, needle);
      return false;
    }
    var buffer := new byte[CHUNK_BYTES + |needle| - 1](_ => 0);
    var overlap: nat, position: nat := 0, 0;
    if needle != [] { TooShort(file[..0], needle); }
    while position < |file|
      invariant position <= |file| && overlap <= buffer.Length && (needle == [] ==> overlap == 0)
      invariant needle != [] ==> overlap < |needle| && Carried(file, needle, buffer[..overlap], position)
      decreases |file| - position
    {
      if overlap + CHUNK_BYTES > buffer.Length { return false; } // the read throws
      var seen;
      seen, overlap, position := SearchChunk(file, needle, buffer, overlap, position);
      if seen { return true; }
    }
    assert file[..position] == file;
    found := false;
  }

  lemma Extends(file: seq<byte>, needle: seq<byte>, n: nat)
    requires n <= |file| && Occurs(file[..n], needle)
    ensures Occurs(file, needle)
  {
    var i :| 0 <= i <= n && OccursAt(file[..n], needle, i);
    assert file[i..i + |needle|] == file[..n][i..i + |needle|];
    assert OccursAt(file, needle, i);
  }
}
