/** The input of the memory fuzz test: 64 byte strings whose lengths cycle
    through 31, 32 and 33, straddling the 32-byte word, each a run of
    consecutive byte values starting at the chunk's index. */
module MemFuzz {

  type Byte = b: int | 0 <= b < 256

  const CHUNK_COUNT: nat := 64

  function ChunkSize(i: nat): nat {
    31 + i % 3
  }

  /** Chunk i: byte j is (j + i) mod 256. */
  function Chunk(i: nat): (c: seq<Byte>)
    ensures |c| == ChunkSize(i)
  {
    seq(ChunkSize(i), j requires 0 <= j < ChunkSize(i) => ((j + i) % 256) as Byte)
  }

  /** `make_chunks`: builds the chunks one by one, each byte by byte. */
  method MakeChunks() returns (chunks: seq<seq<Byte>>)
    ensures |chunks| == CHUNK_COUNT
    ensures forall i :: 0 <= i < |chunks| ==> chunks[i] == Chunk(i)
    ensures forall i :: 0 <= i < |chunks| ==> |chunks[i]| == 31 + i % 3
    ensures forall i, j :: 0 <= i < |chunks| && 0 <= j < |chunks[i]| ==> chunks[i][j] == (j + i) % 256
  {
    chunks := [];
    for i := 0 to CHUNK_COUNT
      invariant |chunks| == i
      invariant forall m :: 0 <= m < i ==> chunks[m] == Chunk(m)
    {
      var size := 31 + i % 3;
      var chunk: seq<Byte> := [];
      for j := 0 to size
        invariant |chunk| == j
        invariant forall m :: 0 <= m < j ==> chunk[m] == (m + i) % 256
      {
        chunk := chunk + [(j + i) % 256];
      }
      chunks := chunks + [chunk];
    }
  }

  /** Every chunk is one byte short of, exactly, or one byte over a
      32-byte word, and each length occurs. */
  lemma ChunkSizesStraddleWord()
    ensures forall i :: 0 <= i < CHUNK_COUNT ==> ChunkSize(i) in {31, 32, 33}
    ensures |Chunk(0)| == 31 && |Chunk(1)| == 32 && |Chunk(2)| == 33
  {
  }

  /** A chunk starts at its own index, and each byte is one more than the
      previous one, wrapping from 255 to 0. */
  lemma ChunkIsConsecutive(i: nat)
    ensures Chunk(i)[0] == i % 256
    ensures forall j :: 0 < j < |Chunk(i)| ==> Chunk(i)[j] == (Chunk(i)[j - 1] as int + 1) % 256
  {
    forall j | 0 < j < |Chunk(i)|
      ensures Chunk(i)[j] == (Chunk(i)[j - 1] as int + 1) % 256
    {
      ByteSuccessor(j - 1 + i);
    }
  }

  /** Adding one to a byte value wraps as adding one before reducing. */
  lemma ByteSuccessor(x: nat)
    ensures (x % 256 + 1) % 256 == (x + 1) % 256
  {
    var q, r := x / 256, x % 256;
    if r == 255 {
      assert x + 1 == (q + 1) * 256;
    } else {
      assert x + 1 == q * 256 + (r + 1);
    }
  }

  /** Total payload in bytes: 21 chunks of each size and one more of 31. */
  function TotalSize(n: nat): nat {
    if n == 0 then 0 else TotalSize(n - 1) + ChunkSize(n - 1)
  }

  lemma {:induction false} TotalSizeOfThreeBlocks(k: nat)
    ensures TotalSize(3 * k) == 96 * k
  {
    if k > 0 {
      TotalSizeOfThreeBlocks(k - 1);
      BlockSizes(k - 1);
      BlockTotal(3 * (k - 1));
    }
  }

  /** Three more chunks add their three sizes. */
  lemma BlockTotal(n: nat)
    ensures TotalSize(n + 3) == TotalSize(n) + ChunkSize(n) + ChunkSize(n + 1) + ChunkSize(n + 2)
  {
    assert TotalSize(n + 1) == TotalSize(n) + ChunkSize(n);
    assert TotalSize(n + 2) == TotalSize(n + 1) + ChunkSize(n + 1);
  }

  /** The block of chunks 3m, 3m + 1 and 3m + 2 holds 31, 32 and 33 bytes. */
  lemma {:induction false} BlockSizes(m: nat)
    ensures ChunkSize(3 * m) == 31 && ChunkSize(3 * m + 1) == 32 && ChunkSize(3 * m + 2) == 33
  {
    if m > 0 {
      BlockSizes(m - 1);
      ChunkSizeShift(3 * (m - 1));
      ChunkSizeShift(3 * (m - 1) + 1);
      ChunkSizeShift(3 * (m - 1) + 2);
    }
  }

  /** Chunk sizes repeat every three chunks. */
  lemma ChunkSizeShift(i: nat)
    ensures ChunkSize(i + 3) == ChunkSize(i)
  {
  }

  lemma TotalPayload()
    ensures TotalSize(CHUNK_COUNT) == 2047
  {
    TotalSizeOfThreeBlocks(21);
  }
}
