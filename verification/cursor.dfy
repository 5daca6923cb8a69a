/**
 * The audio cursor of the broadcast tick: the file is a fixed byte sequence,
 * a read asks for up to `size` bytes at `position`, and the tick either
 * advances `position` by what it read or, on an empty read, wraps it to 0.
 */
module Cursor {
  import opened Base

  /** Bytes requested per tick (64 KiB). */
  const ChunkSize: nat := 64 * 1024

  /** What a positional read of up to `size` bytes at `position` returns. */
  function Read(file: seq<byte>, position: nat, size: nat): (chunk: seq<byte>)
    ensures |chunk| <= size
    ensures chunk == [] <==> position >= |file| || size == 0
    ensures chunk != [] ==> position + |chunk| <= |file| && chunk == file[position..position + |chunk|]
    ensures chunk != [] && |chunk| < size ==> position + |chunk| == |file|
  {
    if position >= |file| then []
    else file[position..if position + size <= |file| then position + size else |file|]
  }

  /** `position` after a tick whose read succeeded: advanced by the bytes read, or wrapped to 0. */
  function Next(file: seq<byte>, position: nat, size: nat): (next: nat)
    ensures next <= |file|
  {
    var chunk := Read(file, position, size);
    if chunk == [] then 0 else position + |chunk|
  }

  /** The non-empty chunks that successive ticks read from `position` until the next wrap. */
  function Pass(file: seq<byte>, position: nat, size: nat): (chunks: seq<seq<byte>>)
    requires size > 0
    ensures chunks == [] <==> position >= |file|
    decreases |file| - position
  {
    var chunk := Read(file, position, size);
    if chunk == [] then [] else [chunk] + Pass(file, Next(file, position, size), size)
  }

  function Concat(chunks: seq<seq<byte>>): seq<byte>
  {
    if chunks == [] then [] else chunks[0] + Concat(chunks[1..])
  }

  /** The chunks of one pass concatenate back to the rest of the file. */
  lemma {:induction false} PassConcat(file: seq<byte>, position: nat, size: nat)
    requires size > 0 && position <= |file|
    ensures Concat(Pass(file, position, size)) == file[position..]
    decreases |file| - position
  {
    var chunk := Read(file, position, size);
    if chunk != [] {
      var next := Next(file, position, size);
      PassConcat(file, next, size);
      var chunks := Pass(file, position, size);
      assert chunks[1..] == Pass(file, next, size);
      assert file[position..] == chunk + file[next..];
    }
  }

  lemma MulAtLeast(k: int, d: int)
    requires k >= 1 && d > 0
    ensures k * d >= d
  {
  }

  /** Quotient and remainder are determined by any decomposition `a == q * d + m` with `0 <= m < d`. */
  lemma DivModUnique(a: int, d: int, q: int, m: int)
    requires d > 0 && 0 <= m < d && a == q * d + m
    ensures a / d == q && a % d == m
  {
    var q', m' := a / d, a % d;
    assert a == q' * d + m';
    assert q * d - q' * d == m' - m;
    assert (q - q') * d == m' - m;
    if q > q' {
      MulAtLeast(q - q', d);
    } else if q < q' {
      MulAtLeast(q' - q, d);
    }
  }

  /** Removing one full chunk from the rest removes one from the chunk count and keeps the remainder. */
  lemma DivStep(rest: nat, size: nat)
    requires 0 < size < rest
    ensures (rest + size - 1) / size == 1 + (rest - size + size - 1) / size
    ensures rest % size == (rest - size) % size
  {
    var a := rest - 1;
    DivModUnique(a, size, a / size, a % size);
    DivModUnique(a + size, size, a / size + 1, a % size);
    var b := rest - size;
    DivModUnique(b, size, b / size, b % size);
    DivModUnique(b + size, size, b / size + 1, b % size);
  }

  /** ceil(rest / size): how many reads of up to `size` bytes consume `rest` bytes. */
  function ChunkCount(rest: nat, size: nat): nat
    requires size > 0
  {
    (rest + size - 1) / size
  }

  /** The recurrence that ChunkCount satisfies: no reads for nothing, one for a tail, one more per full chunk. */
  lemma ChunkCountStep(rest: nat, size: nat)
    requires size > 0
    ensures rest == 0 ==> ChunkCount(rest, size) == 0
    ensures 0 < rest <= size ==> ChunkCount(rest, size) == 1
    ensures rest > size ==> ChunkCount(rest, size) == 1 + ChunkCount(rest - size, size)
  {
    if rest == 0 {
      DivModUnique(size - 1, size, 0, size - 1);
    } else if rest <= size {
      DivModUnique(rest + size - 1, size, 1, rest - 1);
    } else {
      DivStep(rest, size);
    }
  }

  /** A pass over the `rest` bytes after `position` has ceil(rest / size) chunks. */
  lemma {:induction false} PassCount(file: seq<byte>, position: nat, size: nat)
    requires size > 0 && position <= |file|
    ensures |Pass(file, position, size)| == ChunkCount(|file| - position, size)
    decreases |file| - position
  {
    var rest := |file| - position;
    ChunkCountStep(rest, size);
    var chunk := Read(file, position, size);
    if chunk != [] {
      var next := Next(file, position, size);
      PassCount(file, next, size);
      assert |Pass(file, position, size)| == 1 + |Pass(file, next, size)|;
      if rest > size {
        assert |file| - next == rest - size;
      } else {
        assert next == |file|;
      }
    }
  }

  /** Every chunk of a pass is non-empty and at most `size`; all but the last are exactly `size`. */
  lemma {:induction false} PassChunkSizes(file: seq<byte>, position: nat, size: nat)
    requires size > 0 && position <= |file|
    ensures forall i :: 0 <= i < |Pass(file, position, size)| ==> 0 < |Pass(file, position, size)[i]| <= size
    ensures forall i :: 0 <= i < |Pass(file, position, size)| - 1 ==> |Pass(file, position, size)[i]| == size
    decreases |file| - position
  {
    var chunk := Read(file, position, size);
    if chunk != [] {
      var next := Next(file, position, size);
      PassChunkSizes(file, next, size);
      var chunks := Pass(file, position, size);
      var tail := Pass(file, next, size);
      assert chunks == [chunk] + tail;
      if tail != [] {
        assert Read(file, next, size) != [];
        assert |chunk| == size;
      }
      forall i | 0 <= i < |chunks|
        ensures 0 < |chunks[i]| <= size
        ensures i < |chunks| - 1 ==> |chunks[i]| == size
      {
        if i > 0 {
          assert chunks[i] == tail[i - 1];
        }
      }
    }
  }

  /** The last chunk of a pass is `rest % size` long, or `size` when `size` divides `rest`. */
  lemma {:induction false} PassLastChunk(file: seq<byte>, position: nat, size: nat)
    requires size > 0 && position <= |file|
    ensures var chunks := Pass(file, position, size);
      var rest := |file| - position;
      |chunks| > 0 ==> |chunks[|chunks| - 1]| == if rest % size == 0 then size else rest % size
    decreases |file| - position
  {
    var rest := |file| - position;
    var chunk := Read(file, position, size);
    if chunk != [] {
      var next := Next(file, position, size);
      PassLastChunk(file, next, size);
      var chunks := Pass(file, position, size);
      var tail := Pass(file, next, size);
      assert chunks == [chunk] + tail;
      if rest <= size {
        assert next == |file| && tail == [];
        if rest < size {
          DivModUnique(rest, size, 0, rest);
        } else {
          DivModUnique(rest, size, 1, 0);
        }
      } else {
        assert next == position + size;
        DivStep(rest, size);
      }
    }
  }

  /** A 100000-byte file read in 64 KiB chunks: 65536 bytes, then 34464, then a wrap to 0. */
  lemma ScenarioWrap(file: seq<byte>)
    requires |file| == 100000
    ensures Read(file, 0, ChunkSize) == file[..65536] && Next(file, 0, ChunkSize) == 65536
    ensures Read(file, 65536, ChunkSize) == file[65536..] && |file[65536..]| == 34464
    ensures Next(file, 65536, ChunkSize) == 100000
    ensures Read(file, 100000, ChunkSize) == [] && Next(file, 100000, ChunkSize) == 0
  {
  }
}
