/** Formatting (`formatfs`): an empty filesystem with a root directory. */
module Formatting {
  import opened Layout
  import opened FreeLists

  /** The image after `formatfs`. Block 0 becomes the only used block and
      holds ("root", 0); inode 0 becomes an in-use, empty directory whose
      slot 0 is 0; every other inode is marked unused. Only `inUse` is
      written for inodes 1.., so their other fields keep what was there. */
  function Format(img: Image): (r: Image)
    requires WellFormed(img)
    ensures WellFormed(r)
  {
    var root := img.inodes[0];
    Image(Superblock(NUM_BLOCKS, BLOCK_SIZE, NUM_INODES),
          seq(NUM_BLOCKS, v => if v == 0 then 1 else 0),
          seq(NUM_INODES, i requires 0 <= i < NUM_INODES =>
            if i == 0 then root.(inUse := true, fileType := 'd', fileSize := 0, dataBlocks := root.dataBlocks[0 := 0])
            else img.inodes[i].(inUse := false)),
          img.blocks[0 := Entry("root", 0)])
  }

  /** Every unused inode is empty: size 0 and no listed block. */
  ghost predicate FreeInodesClean(img: Image)
    requires WellFormed(img)
  {
    forall i :: 0 <= i < NUM_INODES && !img.inodes[i].inUse ==>
      img.inodes[i].fileSize == 0 && forall k :: 0 <= k < NUM_SLOTS ==> img.inodes[i].dataBlocks[k] == 0
  }

  lemma ZeroWellFormed()
    ensures WellFormed(ZeroImage())
  {
    var z := ZeroImage();
    assert forall i :: 0 <= i < NUM_INODES ==> z.inodes[i] == ZeroInode();
  }

  /** Formatting a freshly created (all-zero) backing file. */
  lemma FormatFresh()
    ensures WellFormed(ZeroImage())
    ensures var f := Format(ZeroImage());
      Intact(f) &&
      f.sb == Superblock(10000, 512, 100) &&
      (forall v :: 0 <= v < NUM_BLOCKS ==> (f.bitmap[v] == 0 <==> v != 0)) &&
      (forall i :: 0 <= i < NUM_INODES ==> (f.inodes[i].inUse <==> i == 0)) &&
      f.inodes[0].fileType == 'd' && f.inodes[0].fileSize == 0 &&
      FreeInodesClean(f) &&
      (forall k :: 0 <= k < NUM_SLOTS ==> f.inodes[0].dataBlocks[k] == 0)
  {
    ZeroWellFormed();
    var z := ZeroImage();
    var f := Format(z);
    assert f.bitmap[0] == 1;
    assert forall i :: 0 <= i < NUM_INODES ==> f.inodes[i] == if i == 0 then Inode(true, 0, 'd', ZeroInode().dataBlocks) else ZeroInode();
  }
}
