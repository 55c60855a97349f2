/** The allocators as functions on an image: `findBlock` and `findINode`
    take the first free entry and mark it used. (`findReference` changes
    nothing and is `FirstFree` over an inode's block list.) */
module Allocation {
  import opened Layout
  import opened FreeLists

  /** An image after an allocation, and the index taken (-1: none free). */
  datatype Taken = Taken(img: Image, index: int)

  /** `findBlock`: the lowest free block becomes used. */
  function TakeBlock(img: Image): (r: Taken)
    requires WellFormed(img)
    ensures WellFormed(r.img)
    ensures r.index == -1 <==> FreeList(img.bitmap, 0) == []
    ensures r.index == -1 ==> r.img == img
    ensures r.index != -1 ==>
              |FreeList(img.bitmap, 0)| > 0 && r.index == FreeList(img.bitmap, 0)[0] && 0 <= r.index < NUM_BLOCKS &&
              FreeList(r.img.bitmap, 0) == FreeList(img.bitmap, 0)[1..] &&
              img.bitmap[r.index] == 0 && r.img.bitmap[r.index] == 1
    ensures forall v :: 0 <= v < NUM_BLOCKS && v != r.index ==> r.img.bitmap[v] == img.bitmap[v]
    ensures r.img.inodes == img.inodes && r.img.blocks == img.blocks && r.img.sb == img.sb
  {
    FreeListHead(img.bitmap, 0);
    var b := FirstFree(img.bitmap, 0);
    if b == -1 then Taken(img, -1)
    else
      TakeFirst(img.bitmap, 0, 1);
      Taken(img.(bitmap := img.bitmap[b := 1]), b)
  }

  /** `findINode`: the lowest unused inode from 1 on becomes used; inode 0
      is never handed out. */
  function TakeInode(img: Image): (r: Taken)
    requires WellFormed(img)
    ensures WellFormed(r.img)
    ensures r.index == -1 <==> FreeList(UseFlags(img.inodes), 1) == []
    ensures r.index == -1 ==> r.img == img
    ensures r.index != -1 ==>
              |FreeList(UseFlags(img.inodes), 1)| > 0 && r.index == FreeList(UseFlags(img.inodes), 1)[0] &&
              FreeList(UseFlags(r.img.inodes), 1) == FreeList(UseFlags(img.inodes), 1)[1..] &&
              1 <= r.index < NUM_INODES && !img.inodes[r.index].inUse &&
              r.img.inodes[r.index] == img.inodes[r.index].(inUse := true)
    ensures forall j :: 0 <= j < NUM_INODES && j != r.index ==> r.img.inodes[j] == img.inodes[j]
    ensures r.img.bitmap == img.bitmap && r.img.blocks == img.blocks && r.img.sb == img.sb
  {
    var flags := UseFlags(img.inodes);
    FreeListHead(flags, 1);
    var i := FirstFree(flags, 1);
    if i == -1 then Taken(img, -1)
    else
      var ins := img.inodes[i := img.inodes[i].(inUse := true)];
      assert UseFlags(ins) == flags[i := 1];
      TakeFirst(flags, 1, 1);
      Taken(img.(inodes := ins), i)
  }
}
