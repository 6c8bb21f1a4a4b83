/**
  Writing a kernel value into a user buffer that may straddle pages. The
  user range is handed to the kernel as an ordered list of chunks, one per
  physical page it touches (`translated_byte_buffer`); the value's bytes are
  then copied chunk by chunk. Also: the little-endian layout of a machine
  word, which is how a `usize` field lies in memory on RISC-V.
 */
module UserCopy {

  newtype byte = b: int | 0 <= b < 256

  /** The lengths of the chunks, in order. */
  function Lengths(chunks: seq<array<byte>>): (lens: seq<nat>)
    ensures |lens| == |chunks|
    ensures forall i :: 0 <= i < |chunks| ==> lens[i] == chunks[i].Length
  {
    seq(|chunks|, i requires 0 <= i < |chunks| => chunks[i].Length)
  }

  /** Where chunk `i` starts inside the value: the lengths of the chunks
      before it, added up. */
  function Offset(lens: seq<nat>, i: nat): nat
    requires i <= |lens|
  {
    if i == 0 then 0 else Offset(lens, i - 1) + lens[i - 1]
  }

  /** The offset the copy loop uses for chunk `i`: `i * dst.len()`, with
      `dst` chunk `i` itself. */
  function AsWrittenOffset(lens: seq<nat>, i: nat): nat
    requires i < |lens|
  {
    i * lens[i]
  }

  /** Every chunk before `i` is as long as chunk `i`. */
  predicate LeadingChunksEqual(lens: seq<nat>, i: nat)
    requires i < |lens|
  {
    forall j :: 0 <= j < i ==> lens[j] == lens[i]
  }

  /** All chunks have one length (in particular, there is at most one chunk
      or the value is split exactly in halves). */
  predicate EqualLengths(lens: seq<nat>)
  {
    forall i, j :: 0 <= i < |lens| && 0 <= j < |lens| ==> lens[i] == lens[j]
  }

  /** The chunks are distinct pieces of memory. */
  predicate Distinct(chunks: seq<array<byte>>)
  {
    forall i, j :: 0 <= i < j < |chunks| ==> chunks[i] != chunks[j]
  }

  /** What the chunks hold, in order. */
  ghost function Snapshot(chunks: seq<array<byte>>): (parts: seq<seq<byte>>)
    reads set i | 0 <= i < |chunks| :: chunks[i]
    ensures |parts| == |chunks|
    ensures forall i :: 0 <= i < |chunks| ==> parts[i] == chunks[i][..]
  {
    seq(|chunks|, i reads set i | 0 <= i < |chunks| :: chunks[i] requires 0 <= i < |chunks| => chunks[i][..])
  }

  /** The first `n` parts, joined in order. */
  function Join(parts: seq<seq<byte>>, n: nat): seq<byte>
    requires n <= |parts|
  {
    if n == 0 then [] else Join(parts, n - 1) + parts[n - 1]
  }

  /** `part` is the stretch of `src` that starts at `off`. */
  predicate PartHolds(src: seq<byte>, part: seq<byte>, off: nat)
  {
    off + |part| <= |src| && part == src[off..off + |part|]
  }

  /** Part `i` holds the bytes of `src` from its running offset on. */
  predicate HoldsAt(src: seq<byte>, parts: seq<seq<byte>>, lens: seq<nat>, i: nat)
  {
    i < |parts| && i < |lens| && PartHolds(src, parts[i], Offset(lens, i))
  }

  /** Part `i` holds the bytes of `src` from its as-written offset on. */
  predicate HoldsAtAsWritten(src: seq<byte>, parts: seq<seq<byte>>, lens: seq<nat>, i: nat)
  {
    i < |parts| && i < |lens| && PartHolds(src, parts[i], AsWrittenOffset(lens, i))
  }

  /** The as-written offset of chunk `i` is its running offset when all
      earlier chunks are as long as chunk `i`. */
  lemma {:induction false} AsWrittenOffsetWhenLeadingEqual(lens: seq<nat>, i: nat)
    requires i < |lens| && LeadingChunksEqual(lens, i)
    ensures Offset(lens, i) == AsWrittenOffset(lens, i)
  {
    if i > 0 {
      OffsetOfEqualPrefix(lens, i, lens[i]);
    }
  }

  /** If the first `n` chunks all have length `c`, they end at `n * c`. */
  lemma {:induction false} OffsetOfEqualPrefix(lens: seq<nat>, n: nat, c: nat)
    requires n <= |lens|
    requires forall j :: 0 <= j < n ==> lens[j] == c
    ensures Offset(lens, n) == n * c
  {
    if n > 0 {
      OffsetOfEqualPrefix(lens, n - 1, c);
    }
  }

  /** Chunk `i` lies inside the span of the first `n` chunks. */
  lemma {:induction false} OffsetMonotone(lens: seq<nat>, i: nat, n: nat)
    requires i < n <= |lens|
    ensures Offset(lens, i) + lens[i] <= Offset(lens, n)
  {
    if i + 1 < n {
      OffsetMonotone(lens, i, n - 1);
    }
  }

  /** Chunk `i` holds the bytes of `src` from offset `off(i)` on, where
      `asWritten` selects the as-written offset instead of the running one. */
  ghost predicate ChunkHolds(src: seq<byte>, chunks: seq<array<byte>>, lens: seq<nat>, i: nat, asWritten: bool)
    reads if i < |chunks| then {chunks[i]} else {}
  {
    && i < |chunks| && i < |lens|
    && PartHolds(src, chunks[i][..], if asWritten then AsWrittenOffset(lens, i) else Offset(lens, i))
  }

  /** When every part holds its stretch of `src` at its running offset, the
      parts joined give back the first bytes of `src`. */
  lemma {:induction false} JoinIsPrefix(src: seq<byte>, parts: seq<seq<byte>>, lens: seq<nat>, n: nat)
    requires n <= |parts| == |lens|
    requires forall i :: 0 <= i < |parts| ==> lens[i] == |parts[i]|
    requires forall i :: 0 <= i < n ==> HoldsAt(src, parts, lens, i)
    ensures Offset(lens, n) <= |src|
    ensures Join(parts, n) == src[..Offset(lens, n)]
  {
    if n > 0 {
      JoinIsPrefix(src, parts, lens, n - 1);
      var start, end := Offset(lens, n - 1), Offset(lens, n);
      assert HoldsAt(src, parts, lens, n - 1);
      assert src[..end] == src[..start] + src[start..end];
    }
  }

  /** `copy_from_slice`: `dst` receives the `dst.Length` bytes of `src` that
      start at `from`. */
  method CopyFromSlice(dst: array<byte>, src: seq<byte>, from: nat)
    requires from + dst.Length <= |src|
    modifies dst
    ensures dst[..] == src[from..from + dst.Length]
  {
    forall k | 0 <= k < dst.Length {
      dst[k] := src[from + k];
    }
  }

  /** The per-chunk facts, restated over what the chunks hold. */
  lemma ChunksAsParts(src: seq<byte>, chunks: seq<array<byte>>, lens: seq<nat>, asWritten: bool)
    requires forall i :: 0 <= i < |chunks| ==> ChunkHolds(src, chunks, lens, i, asWritten)
    ensures forall i :: 0 <= i < |chunks| ==>
      if asWritten then HoldsAtAsWritten(src, Snapshot(chunks), lens, i) else HoldsAt(src, Snapshot(chunks), lens, i)
  {
    var parts := Snapshot(chunks);
    forall i | 0 <= i < |chunks|
      ensures if asWritten then HoldsAtAsWritten(src, parts, lens, i) else HoldsAt(src, parts, lens, i)
    {
      assert ChunkHolds(src, chunks, lens, i, asWritten);
    }
  }

  /**
    The copy with the offset corrected: chunk `i` receives the bytes of
    `src` from its running offset on, so the chunks joined are `src`.
   */
  method CopyChunks(src: seq<byte>, chunks: seq<array<byte>>)
    requires Distinct(chunks)
    requires Offset(Lengths(chunks), |chunks|) == |src|
    modifies set i | 0 <= i < |chunks| :: chunks[i]
    ensures forall i :: 0 <= i < |chunks| ==> HoldsAt(src, Snapshot(chunks), Lengths(chunks), i)
    ensures Join(Snapshot(chunks), |chunks|) == src
  {
    var lens := Lengths(chunks);
    var off := 0;
    for index := 0 to |chunks|
      invariant off == Offset(lens, index)
      invariant forall i :: 0 <= i < index ==> ChunkHolds(src, chunks, lens, i, false)
    {
      OffsetMonotone(lens, index, |chunks|);
      CopyFromSlice(chunks[index], src, off);
      off := off + chunks[index].Length;
    }
    ChunksAsParts(src, chunks, lens, false);
    JoinIsPrefix(src, Snapshot(chunks), lens, |chunks|);
  }

  /**
    The copy loop as the syscalls write it: chunk `i` receives the bytes of
    `src` from `i * chunks[i].Length` on. `src` is the memory read from: the
    value followed by whatever lies after it, which a read past the value's
    end picks up. When all chunks have one length, the chunks joined are the
    leading bytes of `src`, as many as the chunks hold.
   */
  method CopyChunksAsWritten(src: seq<byte>, chunks: seq<array<byte>>)
    requires Distinct(chunks)
    requires forall i :: 0 <= i < |chunks| ==> AsWrittenOffset(Lengths(chunks), i) + chunks[i].Length <= |src|
    modifies set i | 0 <= i < |chunks| :: chunks[i]
    ensures forall i :: 0 <= i < |chunks| ==> HoldsAtAsWritten(src, Snapshot(chunks), Lengths(chunks), i)
    ensures EqualLengths(Lengths(chunks)) ==>
      && Offset(Lengths(chunks), |chunks|) <= |src|
      && Join(Snapshot(chunks), |chunks|) == src[..Offset(Lengths(chunks), |chunks|)]
  {
    var lens := Lengths(chunks);
    for index := 0 to |chunks|
      invariant forall i :: 0 <= i < index ==> ChunkHolds(src, chunks, lens, i, true)
    {
      var dst := chunks[index];
      var unitLength := dst.Length;
      CopyFromSlice(dst, src, index * unitLength);
    }
    ChunksAsParts(src, chunks, lens, true);
    var parts := Snapshot(chunks);
    if EqualLengths(lens) {
      forall i | 0 <= i < |chunks|
        ensures HoldsAt(src, parts, lens, i)
      {
        assert HoldsAtAsWritten(src, parts, lens, i);
        AsWrittenOffsetWhenLeadingEqual(lens, i);
      }
      JoinIsPrefix(src, parts, lens, |chunks|);
    }
  }

  /** A 16-byte value split 10 + 6 over two pages: the second chunk is read
      from offset 6, not from offset 10 where its bytes begin. */
  lemma UnequalSplitReadsWrongBytes()
    ensures Offset([10, 6], 2) == 16
    ensures AsWrittenOffset([10, 6], 1) == 6 != Offset([10, 6], 1)
  {
  }

  /** The same value split 6 + 10: the second chunk is read from offset 10
      for 10 bytes, four bytes past the end of the 16-byte value. */
  lemma UnequalSplitReadsPastEnd()
    ensures Offset([6, 10], 2) == 16
    ensures AsWrittenOffset([6, 10], 1) + 10 == 20
  {
  }

  /** Any split into two chunks of different lengths `a` and `b` misreads
      the second chunk: it is read from `b` instead of `a`, and when the
      second chunk is the longer one the read runs past the end of the
      value. */
  lemma UnequalSplitMisreads(a: nat, b: nat)
    requires a != b
    ensures AsWrittenOffset([a, b], 1) != Offset([a, b], 1)
    ensures a < b ==> Offset([a, b], 2) < AsWrittenOffset([a, b], 1) + b
  {
    assert Offset([a, b], 1) == a;
    assert Offset([a, b], 2) == a + b;
  }

  /** 256 to the power `n`: one more than the largest `n`-byte value. */
  function Pow256(n: nat): (p: nat)
    ensures p > 0
  {
    if n == 0 then 1 else 256 * Pow256(n - 1)
  }

  /** The `n` bytes of `x`, least significant first. */
  function LittleEndian(x: nat, n: nat): (bytes: seq<byte>)
    requires x < Pow256(n)
    ensures |bytes| == n
  {
    if n == 0 then [] else [(x % 256) as byte] + LittleEndian(x / 256, n - 1)
  }

  /** The number whose little-endian bytes are `bytes`. */
  function FromLittleEndian(bytes: seq<byte>): (x: nat)
    ensures x < Pow256(|bytes|)
  {
    if bytes == [] then 0 else bytes[0] as nat + 256 * FromLittleEndian(bytes[1..])
  }

  /** Reading back the bytes of a word gives the word. */
  lemma {:induction false} LittleEndianRoundTrip(x: nat, n: nat)
    requires x < Pow256(n)
    ensures FromLittleEndian(LittleEndian(x, n)) == x
  {
    if n > 0 {
      var q, r := x / 256, x % 256;
      assert x == 256 * q + r;
      LittleEndianRoundTrip(q, n - 1);
      var bytes := LittleEndian(x, n);
      assert bytes == [r as byte] + LittleEndian(q, n - 1);
      assert bytes[1..] == LittleEndian(q, n - 1);
      assert FromLittleEndian(bytes) == r + 256 * q;
    }
  }
}
