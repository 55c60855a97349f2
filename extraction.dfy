/** Extraction (`extractFile`): the bytes emitted for a resolved inode. */
module Extraction {
  import opened Layout

  datatype ExtractError =
    | NotFound     // the path did not resolve (node == 0)
    | Unreadable   // the bytes to emit are not ones the model tracks

  /** The read loop of `extractFile` from block-list position `k`, with
      `size` bytes left: a full block while at least a block is left, then
      the remaining `size mod 512` bytes of the next block. The model only
      knows the bytes a block last received from a read, so emitting more
      than that, or any bytes from past the 100-slot block list, is
      `Unreadable`. A read past the list that emits nothing succeeds. */
  function ReadFrom(img: Image, ino: int, k: int, size: int): (r: Result<seq<byte>, ExtractError>)
    requires WellFormed(img) && 0 <= ino < NUM_INODES && 0 <= k && 0 <= size
    ensures r.Ok? ==> |r.value| == size
    decreases size
  {
    if k >= NUM_SLOTS then (if size == 0 then Ok([]) else Err(Unreadable))
    else
      var want := if size < BLOCK_SIZE then size else BLOCK_SIZE;
      var blk := img.blocks[img.inodes[ino].dataBlocks[k]];
      if want > 0 && !(blk.Data? && |blk.bytes| >= want) then Err(Unreadable)
      else
        var part := if want == 0 then [] else blk.bytes[..want];
        if size < BLOCK_SIZE then Ok(part)
        else
          match ReadFrom(img, ino, k + 1, size - BLOCK_SIZE)
          case Ok(rest) => Ok(part + rest)
          case Err(e) => Err(e)
  }

  /** All `fileSize` bytes of inode `ino`, block by block. */
  function ReadFile(img: Image, ino: int): (r: Result<seq<byte>, ExtractError>)
    requires WellFormed(img) && 0 <= ino < NUM_INODES
    ensures r.Ok? ==> |r.value| == img.inodes[ino].fileSize
  {
    var size := img.inodes[ino].fileSize;
    if size < 0 then Err(Unreadable) else ReadFrom(img, ino, 0, size)
  }

  /** Bytes that the `k`-th 512-byte read of `content` stores. */
  function Chunk(content: seq<byte>, k: nat): (c: seq<byte>)
    ensures |c| <= BLOCK_SIZE
    ensures BLOCK_SIZE * k <= |content| ==> |c| == if |content| - BLOCK_SIZE * k < BLOCK_SIZE then |content| - BLOCK_SIZE * k else BLOCK_SIZE
  {
    if BLOCK_SIZE * k >= |content| then []
    else if BLOCK_SIZE * (k + 1) >= |content| then content[BLOCK_SIZE * k..]
    else content[BLOCK_SIZE * k..BLOCK_SIZE * (k + 1)]
  }

  /** Content blocks read for `n` bytes: one more than the whole blocks,
      even when `n` is a multiple of the block size. */
  function NumReads(n: int): int {
    n / BLOCK_SIZE + 1
  }

  /** Inode `ino` is a file holding `content`: its first `NumReads` slots
      name blocks holding the successive chunks. */
  ghost predicate Holds(img: Image, ino: int, content: seq<byte>)
    requires WellFormed(img) && 0 <= ino < NUM_INODES
  {
    var n := img.inodes[ino];
    n.inUse && n.fileType == 'f' && n.fileSize == |content| &&
    NumReads(|content|) <= NUM_SLOTS &&
    forall k :: 0 <= k < NumReads(|content|) ==> img.blocks[n.dataBlocks[k]] == Data(Chunk(content, k))
  }

  /** Reading a file back from position `k` yields the content from byte
      `512 * k` on. */
  lemma {:induction false} ReadChunks(img: Image, ino: int, content: seq<byte>, k: nat)
    requires WellFormed(img) && 0 <= ino < NUM_INODES && Holds(img, ino, content)
    requires BLOCK_SIZE * k <= |content|
    ensures ReadFrom(img, ino, k, |content| - BLOCK_SIZE * k) == Ok(content[BLOCK_SIZE * k..])
    decreases |content| - BLOCK_SIZE * k
  {
    var size := |content| - BLOCK_SIZE * k;
    HeldChunk(img, ino, content, k);
    var c := Chunk(content, k);
    if size < BLOCK_SIZE {
      assert c == content[BLOCK_SIZE * k..];
      assert c[..size] == c;
    } else {
      ChunkSplit(content, k);
      ReadChunks(img, ino, content, k + 1);
      assert ReadFrom(img, ino, k + 1, size - BLOCK_SIZE) == Ok(content[BLOCK_SIZE * (k + 1)..]);
      assert c[..BLOCK_SIZE] == c;
    }
  }

  /** Every position up to the end of the content names the block holding its chunk. */
  lemma HeldChunk(img: Image, ino: int, content: seq<byte>, k: nat)
    requires WellFormed(img) && 0 <= ino < NUM_INODES && Holds(img, ino, content)
    requires BLOCK_SIZE * k <= |content|
    ensures k < NUM_SLOTS && img.blocks[img.inodes[ino].dataBlocks[k]] == Data(Chunk(content, k))
  {
    assert k < NumReads(|content|);
  }

  /** A whole chunk followed by the rest is the content from its start on. */
  lemma ChunkSplit(content: seq<byte>, k: nat)
    requires BLOCK_SIZE * (k + 1) <= |content|
    ensures |Chunk(content, k)| == BLOCK_SIZE
    ensures content[BLOCK_SIZE * k..] == Chunk(content, k) + content[BLOCK_SIZE * (k + 1)..]
  {
    assert Chunk(content, k) == content[BLOCK_SIZE * k..BLOCK_SIZE * (k + 1)];
  }

  /** Extract returns exactly the bytes a file holds. */
  lemma ReadFileHolds(img: Image, ino: int, content: seq<byte>)
    requires WellFormed(img) && 0 <= ino < NUM_INODES && Holds(img, ino, content)
    ensures ReadFile(img, ino) == Ok(content)
  {
    ReadChunks(img, ino, content, 0);
  }
}
