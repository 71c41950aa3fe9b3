/** Splitting file content into block-sized pieces and filling the tail of a block. */
module Content {
  import opened Layout

  function Min(a: int, b: int): (m: int)
    ensures m <= a && m <= b && (m == a || m == b)
  {
    if a <= b then a else b
  }

  /** The piece that the last round of the write loop copies into its block, when the
      loop starts at offset `off` and copies at most `blockSize` bytes per round. */
  function LastPiece(data: seq<Byte>, off: nat, blockSize: nat): (r: seq<Byte>)
    requires blockSize > 0 && off < |data|
    ensures 0 < |r| <= blockSize && |r| <= |data| - off
    decreases |data| - off
  {
    if |data| - off <= blockSize then data[off..]
    else LastPiece(data, off + blockSize, blockSize)
  }

  /** The last piece is the tail of the data; all of it when the data fits one block. */
  lemma {:induction false} LastPieceSuffix(data: seq<Byte>, off: nat, blockSize: nat)
    requires blockSize > 0 && off < |data|
    ensures var r := LastPiece(data, off, blockSize);
      r == data[|data| - |r|..] && (|data| - off <= blockSize ==> r == data[off..])
    decreases |data| - off
  {
    if |data| - off > blockSize {
      LastPieceSuffix(data, off + blockSize, blockSize);
    }
  }

  /** How many rounds the write loop makes for `n` bytes. */
  function ChunkCount(n: nat, blockSize: nat): (k: nat)
    requires blockSize > 0
    ensures k == 0 <==> n == 0
    ensures n > 0 ==> (k - 1) * blockSize < n <= k * blockSize
    decreases n
  {
    if n == 0 then 0
    else if n <= blockSize then 1
    else
      var k := ChunkCount(n - blockSize, blockSize);
      assert k * blockSize + blockSize == (k + 1) * blockSize;
      assert (k - 1) * blockSize + blockSize == k * blockSize;
      k + 1
  }

  /** What the write loop has done once it has copied `data[start..off]` in `rounds`
      rounds: the rounds still to come make up the whole count, and the last piece is
      still ahead or is `piece`, the one the latest round copied. */
  ghost predicate Progress(data: seq<Byte>, start: nat, off: nat, rounds: nat, piece: seq<Byte>, blockSize: nat)
    requires blockSize > 0 && start <= off <= |data|
  {
    rounds + ChunkCount(|data| - off, blockSize) == ChunkCount(|data| - start, blockSize) &&
    (off < |data| ==> LastPiece(data, start, blockSize) == LastPiece(data, off, blockSize)) &&
    (off == |data| && rounds > 0 ==> piece == LastPiece(data, start, blockSize))
  }

  /** One round of the write loop copies `n == Min(|data| - off, blockSize)` bytes. */
  lemma {:induction false} RoundStep(data: seq<Byte>, start: nat, off: nat, n: nat, rounds: nat, piece: seq<Byte>, blockSize: nat)
    requires blockSize > 0 && start <= off < |data| && n == Min(|data| - off, blockSize)
    requires Progress(data, start, off, rounds, piece, blockSize)
    ensures Progress(data, start, off + n, rounds + 1, data[off..off + n], blockSize)
  {
    if |data| - off > blockSize {
      assert LastPiece(data, off, blockSize) == LastPiece(data, off + blockSize, blockSize);
    } else {
      assert data[off..off + (|data| - off)] == data[off..];
    }
  }

  /** A block buffer after `piece` has been copied over it at offset `used`. */
  function FillTail(bytes: seq<Byte>, used: nat, piece: seq<Byte>): (r: seq<Byte>)
    requires used + |piece| <= |bytes|
    ensures |r| == |bytes|
    ensures r[..used] == bytes[..used]
    ensures r[used..used + |piece|] == piece
    ensures r[used + |piece|..] == bytes[used + |piece|..]
  {
    bytes[..used] + piece + bytes[used + |piece|..]
  }
}
