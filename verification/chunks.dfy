/** Chunk arithmetic of the uploader: how many chunks a file has and which bytes
    each chunk holds (`Math.ceil(file.size / chunkSize)` and `Blob.slice`). */
module Chunks {

  newtype byte = b: int | 0 <= b < 256

  function Min(a: int, b: int): int { if a <= b then a else b }

  /** `Math.ceil(size / chunkSize)`: the least number of chunks whose
      combined capacity covers the file. */
  function TotalChunks(size: nat, chunkSize: nat): (n: nat)
    requires chunkSize > 0
    ensures size <= n * chunkSize
    ensures n == 0 || (n - 1) * chunkSize < size
    ensures n == 0 <==> size == 0
  {
    var q := (size + chunkSize - 1) / chunkSize;
    var r := (size + chunkSize - 1) % chunkSize;
    assert size + chunkSize - 1 == q * chunkSize + r;
    assert q * chunkSize == size + (chunkSize - 1 - r);
    assert q == 0 || (q - 1) * chunkSize == q * chunkSize - chunkSize;
    q
  }

  /** `file.slice(k * chunkSize, (k + 1) * chunkSize)`: `Blob.slice` clamps
      both ends to the file's size. */
  function Slice(data: seq<byte>, k: nat, chunkSize: nat): seq<byte>
  {
    var lo := Min(k * chunkSize, |data|);
    var hi := Min(k * chunkSize + chunkSize, |data|);
    data[lo..hi]
  }

  /** Chunk `k` holds at most `chunkSize` bytes, byte `i` of it is byte
      `k * chunkSize + i` of the file, and it runs to the end of the chunk or
      to the end of the file, whichever comes first; a chunk that starts at
      or past the end of the file is empty. */
  lemma SliceBytes(data: seq<byte>, k: nat, chunkSize: nat)
    ensures var s := Slice(data, k, chunkSize);
      && |s| <= chunkSize
      && (forall i :: 0 <= i < |s| ==> k * chunkSize + i < |data| && s[i] == data[k * chunkSize + i])
      && (|data| <= k * chunkSize ==> s == [])
      && (k * chunkSize < |data| ==> k * chunkSize + |s| == Min(k * chunkSize + chunkSize, |data|))
  {
  }

  /** The chunks `0 .. k-1`, concatenated in order. */
  function Join(data: seq<byte>, chunkSize: nat, k: nat): seq<byte>
  {
    if k == 0 then [] else Join(data, chunkSize, k - 1) + Slice(data, k - 1, chunkSize)
  }

  lemma MulMonotone(a: nat, b: nat, c: nat)
    requires a <= b
    ensures a * c <= b * c
  {
  }

  /** Chunk `k` of a file starts at `k * chunkSize`, inside the file; every
      chunk but the last is full, and the last one ends exactly at the end of
      the file: the chunks are contiguous, non-empty and at most `chunkSize`
      long. */
  lemma ChunkGeometry(data: seq<byte>, chunkSize: nat, k: nat)
    requires chunkSize > 0
    requires k < TotalChunks(|data|, chunkSize)
    ensures k * chunkSize < |data|
    ensures Slice(data, k, chunkSize) == data[k * chunkSize .. Min(k * chunkSize + chunkSize, |data|)]
    ensures 0 < |Slice(data, k, chunkSize)| <= chunkSize
    ensures k + 1 < TotalChunks(|data|, chunkSize) ==> |Slice(data, k, chunkSize)| == chunkSize
    ensures k + 1 == TotalChunks(|data|, chunkSize) ==>
              k * chunkSize + |Slice(data, k, chunkSize)| == |data|
  {
    var n := TotalChunks(|data|, chunkSize);
    MulMonotone(k, n - 1, chunkSize);
    if k + 1 < n {
      MulMonotone(k + 1, n - 1, chunkSize);
      assert (k + 1) * chunkSize == k * chunkSize + chunkSize;
    } else {
      assert n * chunkSize == k * chunkSize + chunkSize;
    }
  }

  /** The first `k` chunks are exactly the file's first `min(k * chunkSize, size)` bytes. */
  lemma {:induction false} JoinIsPrefix(data: seq<byte>, chunkSize: nat, k: nat)
    ensures Join(data, chunkSize, k) == data[..Min(k * chunkSize, |data|)]
  {
    if k > 0 {
      JoinIsPrefix(data, chunkSize, k - 1);
      assert (k - 1) * chunkSize + chunkSize == k * chunkSize;
      MulMonotone(k - 1, k, chunkSize);
      var a := Min((k - 1) * chunkSize, |data|);
      var b := Min(k * chunkSize, |data|);
      assert data[..a] + data[a..b] == data[..b];
    }
  }

  /** The `totalChunks` chunks, in order, reassemble the file: they cover
      `[0, size)` with no gap and no overlap, so their lengths sum to the size. */
  lemma SlicesReassemble(data: seq<byte>, chunkSize: nat)
    requires chunkSize > 0
    ensures Join(data, chunkSize, TotalChunks(|data|, chunkSize)) == data
    ensures |Join(data, chunkSize, TotalChunks(|data|, chunkSize))| == |data|
  {
    JoinIsPrefix(data, chunkSize, TotalChunks(|data|, chunkSize));
  }

  /** The worked example of a 2.5 MiB file in 1 MiB chunks: three chunks of
      1 MiB, 1 MiB and 0.5 MiB. */
  lemma TwoAndAHalfMebibytes(data: seq<byte>)
    requires |data| == 2621440
    ensures TotalChunks(|data|, 1048576) == 3
    ensures |Slice(data, 0, 1048576)| == 1048576
    ensures |Slice(data, 1, 1048576)| == 1048576
    ensures |Slice(data, 2, 1048576)| == 524288
  {
  }
}
