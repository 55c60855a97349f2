/** The fixed on-disk layout of the filesystem: superblock, free-block
    bitmap, inode table and data blocks, as values. */
module Layout {

  /** Bytes per data block. */
  const BLOCK_SIZE: int := 512
  /** Number of data blocks (and of bitmap flags). */
  const NUM_BLOCKS: int := 10000
  /** Number of inodes in the table; inode 0 is the root directory. */
  const NUM_INODES: int := 100
  /** Capacity of an inode's block list. */
  const NUM_SLOTS: int := 100
  /** Capacity of the path-component arrays (`filePath`, `parentDir`). */
  const MAX_DEPTH: int := 100
  /** Capacity of a directory entry's name buffer, terminator included. */
  const NAME_CAPACITY: int := 255

  type byte = bv8

  datatype Option<T> = None | Some(value: T)
  datatype Result<T, E> = Ok(value: T) | Err(error: E)

  datatype Superblock = Superblock(numBlocks: int, blockSize: int, numInodes: int)

  /** One inode. A slot value 0 in `dataBlocks` means "empty slot". */
  datatype Inode = Inode(inUse: bool, fileSize: int, fileType: char, dataBlocks: seq<int>)

  /** A data block holds either the bytes last read into it, or one
      directory entry (name, inode number). */
  datatype Block = Data(bytes: seq<byte>) | Entry(name: string, inode: int)

  /** The whole mapped region. */
  datatype Image = Image(sb: Superblock, bitmap: seq<int>, inodes: seq<Inode>, blocks: seq<Block>)

  /** The contents of the backing file right after it is extended from zero length. */
  function ZeroInode(): Inode {
    Inode(false, 0, 0 as char, seq(NUM_SLOTS, _ => 0))
  }

  function ZeroImage(): Image {
    Image(Superblock(0, 0, 0),
          seq(NUM_BLOCKS, _ => 0),
          seq(NUM_INODES, _ => ZeroInode()),
          seq(NUM_BLOCKS, _ => Data(seq(BLOCK_SIZE, _ => 0 as byte))))
  }

  ghost predicate WellFormedInode(ino: Inode) {
    |ino.dataBlocks| == NUM_SLOTS &&
    forall k :: 0 <= k < NUM_SLOTS ==> 0 <= ino.dataBlocks[k] < NUM_BLOCKS
  }

  ghost predicate WellFormedBlock(b: Block) {
    b.Entry? ==> 0 <= b.inode < NUM_INODES
  }

  /** Table sizes match the layout, every slot names a real block and
      every entry names a real inode. */
  ghost predicate WellFormed(img: Image) {
    |img.bitmap| == NUM_BLOCKS &&
    |img.inodes| == NUM_INODES &&
    |img.blocks| == NUM_BLOCKS &&
    (forall i :: 0 <= i < NUM_INODES ==> WellFormedInode(img.inodes[i])) &&
    (forall b :: 0 <= b < NUM_BLOCKS ==> WellFormedBlock(img.blocks[b]))
  }

  /** The root survives: block 0 stays used and holds ("root", 0), inode 0
      stays in use, and no other block holds an entry naming inode 0, so a
      resolved inode 0 can only mean "not found". */
  ghost predicate Intact(img: Image)
    requires WellFormed(img)
  {
    img.bitmap[0] == 1 &&
    img.inodes[0].inUse &&
    img.blocks[0] == Entry("root", 0) &&
    forall b :: 1 <= b < NUM_BLOCKS && img.blocks[b].Entry? ==> img.blocks[b].inode != 0
  }

  /** Writes `b` into slot `k` of inode `ino`. */
  function SetSlot(img: Image, ino: int, k: int, b: int): (r: Image)
    requires WellFormed(img)
    requires 0 <= ino < NUM_INODES && 0 <= k < NUM_SLOTS && 0 <= b < NUM_BLOCKS
    ensures WellFormed(r)
    ensures r.bitmap == img.bitmap && r.blocks == img.blocks && r.sb == img.sb
    ensures r.inodes[ino].dataBlocks[k] == b
    ensures forall j :: 0 <= j < NUM_INODES ==> r.inodes[j].inUse == img.inodes[j].inUse
    ensures forall j :: 0 <= j < NUM_INODES && j != ino ==> r.inodes[j] == img.inodes[j]
    ensures r.inodes[ino].fileSize == img.inodes[ino].fileSize && r.inodes[ino].fileType == img.inodes[ino].fileType
    ensures forall j :: 0 <= j < NUM_SLOTS && j != k ==> r.inodes[ino].dataBlocks[j] == img.inodes[ino].dataBlocks[j]
  {
    var n := img.inodes[ino];
    img.(inodes := img.inodes[ino := n.(dataBlocks := n.dataBlocks[k := b])])
  }
}
