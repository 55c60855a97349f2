/** Removal (`removeFile`) as a function on an image, given the globals a
    successful lookup left behind. */
module Removal {
  import opened Layout
  import opened Resolution

  /** The slot loop shared by the leaf and by emptied ancestors: from slot
      `j` on, free each listed block and clear its slot, stopping at the
      first empty slot. */
  function Release(img: Image, ino: int, j: int): (r: Image)
    requires WellFormed(img) && 0 <= ino < NUM_INODES && 0 <= j <= NUM_SLOTS
    ensures WellFormed(r)
    ensures r.sb == img.sb && r.blocks == img.blocks
    ensures forall v :: 0 <= v < NUM_BLOCKS ==> r.bitmap[v] == img.bitmap[v] || r.bitmap[v] == 0
    ensures r.bitmap[0] == img.bitmap[0]
    ensures forall x :: 0 <= x < NUM_INODES && x != ino ==> r.inodes[x] == img.inodes[x]
    ensures r.inodes[ino].inUse == img.inodes[ino].inUse && r.inodes[ino].fileSize == img.inodes[ino].fileSize
    ensures r.inodes[ino].fileType == img.inodes[ino].fileType
    decreases NUM_SLOTS - j
  {
    if j == NUM_SLOTS then img
    else
      var b := img.inodes[ino].dataBlocks[j];
      if b == 0 then img
      else Release(SetSlot(img.(bitmap := img.bitmap[b := 0]), ino, j, 0), ino, j + 1)
  }

  /** The end of the run of non-empty slots that starts at `j`: the first
      empty slot from `j` on, or the slot count when there is none. */
  function RunEnd(s: seq<int>, j: int): (e: int)
    requires 0 <= j <= |s|
    ensures j <= e <= |s|
    ensures forall k :: j <= k < e ==> s[k] != 0
    ensures e < |s| ==> s[e] == 0
    decreases |s| - j
  {
    if j == |s| || s[j] == 0 then j else RunEnd(s, j + 1)
  }

  /** The slot loop clears slot `k` when it lies in the run of non-empty
      slots from `j` up to the first empty one `e`, freeing the block it
      listed, and keeps it otherwise. */
  lemma {:induction false} ReleaseSlotAt(img: Image, ino: int, j: int, e: int, k: int)
    requires WellFormed(img) && 0 <= ino < NUM_INODES && 0 <= j <= e <= NUM_SLOTS
    requires forall k :: j <= k < e ==> img.inodes[ino].dataBlocks[k] != 0
    requires e < NUM_SLOTS ==> img.inodes[ino].dataBlocks[e] == 0
    requires 0 <= k < NUM_SLOTS
    ensures var r := Release(img, ino, j);
      var s := img.inodes[ino].dataBlocks;
      r.inodes[ino].dataBlocks[k] == (if j <= k < e then 0 else s[k]) &&
      (j <= k < e ==> r.bitmap[s[k]] == 0)
    decreases NUM_SLOTS - j
  {
    var s := img.inodes[ino].dataBlocks;
    if j < e {
      var img1 := SetSlot(img.(bitmap := img.bitmap[s[j] := 0]), ino, j, 0);
      assert Release(img1, ino, j + 1) == Release(img, ino, j);
      ReleaseSlotAt(img1, ino, j + 1, e, k);
    }
  }

  /** The slot loop leaves alone the bit of every block the run does not list. */
  lemma {:induction false} ReleaseKeepAt(img: Image, ino: int, j: int, e: int, v: int)
    requires WellFormed(img) && 0 <= ino < NUM_INODES && 0 <= j <= e <= NUM_SLOTS
    requires forall k :: j <= k < e ==> img.inodes[ino].dataBlocks[k] != 0
    requires e < NUM_SLOTS ==> img.inodes[ino].dataBlocks[e] == 0
    requires 0 <= v < NUM_BLOCKS && forall k :: j <= k < e ==> img.inodes[ino].dataBlocks[k] != v
    ensures Release(img, ino, j).bitmap[v] == img.bitmap[v]
    decreases NUM_SLOTS - j
  {
    var s := img.inodes[ino].dataBlocks;
    if j < e {
      var img1 := SetSlot(img.(bitmap := img.bitmap[s[j] := 0]), ino, j, 0);
      assert Release(img1, ino, j + 1) == Release(img, ino, j);
      ReleaseKeepAt(img1, ino, j + 1, e, v);
    }
  }

  /** The slot loop frees exactly the run of non-empty slots from `j` up to
      the first empty one, clearing those slots; the slots after the run
      and every block not listed in it are left alone. */
  lemma ReleaseRun(img: Image, ino: int, j: int, e: int)
    requires WellFormed(img) && 0 <= ino < NUM_INODES && 0 <= j <= e <= NUM_SLOTS
    requires forall k :: j <= k < e ==> img.inodes[ino].dataBlocks[k] != 0
    requires e < NUM_SLOTS ==> img.inodes[ino].dataBlocks[e] == 0
    ensures var r := Release(img, ino, j);
      var s := img.inodes[ino].dataBlocks;
      (forall k :: 0 <= k < NUM_SLOTS ==> r.inodes[ino].dataBlocks[k] == if j <= k < e then 0 else s[k]) &&
      (forall k :: j <= k < e ==> r.bitmap[s[k]] == 0) &&
      (forall v :: 0 <= v < NUM_BLOCKS && (forall k :: j <= k < e ==> s[k] != v) ==> r.bitmap[v] == img.bitmap[v])
  {
    forall k | 0 <= k < NUM_SLOTS {
      ReleaseSlotAt(img, ino, j, e, k);
    }
    forall v | 0 <= v < NUM_BLOCKS && (forall k :: j <= k < e ==> img.inodes[ino].dataBlocks[k] != v) {
      ReleaseKeepAt(img, ino, j, e, v);
    }
  }

  /** Directory `x`, which was `n` before, ends in `r` as one pass of the
      ancestor loop leaves it: if the removed size brings it to 0, its run
      of listed blocks up to the first empty slot is freed and those slots
      are cleared, and the later slots are kept; otherwise its block list
      is what it was. */
  ghost predicate RunSettled(r: Image, x: int, n: Inode, size: int)
    requires WellFormed(r) && 0 <= x < NUM_INODES && WellFormedInode(n)
  {
    (n.fileSize - size == 0 ==> RunCleared(r, x, n.dataBlocks)) &&
    (n.fileSize - size != 0 ==> r.inodes[x].dataBlocks == n.dataBlocks)
  }

  /** Inode `x`, whose block list was `s`, has had the run of `s` up to
      its first empty slot freed and those slots cleared in `r`; the later
      slots still hold what `s` held. */
  ghost predicate RunCleared(r: Image, x: int, s: seq<int>)
    requires WellFormed(r) && 0 <= x < NUM_INODES
    requires |s| == NUM_SLOTS && forall k :: 0 <= k < NUM_SLOTS ==> 0 <= s[k] < NUM_BLOCKS
  {
    var e := RunEnd(s, 0);
    (forall k :: 0 <= k < e ==> r.bitmap[s[k]] == 0 && r.inodes[x].dataBlocks[k] == 0) &&
    (forall k :: e <= k < NUM_SLOTS ==> r.inodes[x].dataBlocks[k] == s[k])
  }

  /** A later state that keeps inode `x` and keeps every free block free
      keeps a cleared run cleared. */
  lemma RunClearedKept(r: Image, r2: Image, x: int, s: seq<int>)
    requires WellFormed(r) && WellFormed(r2) && 0 <= x < NUM_INODES
    requires |s| == NUM_SLOTS && forall k :: 0 <= k < NUM_SLOTS ==> 0 <= s[k] < NUM_BLOCKS
    requires RunCleared(r, x, s) && r2.inodes[x] == r.inodes[x]
    requires forall v :: 0 <= v < NUM_BLOCKS && r.bitmap[v] == 0 ==> r2.bitmap[v] == 0
    ensures RunCleared(r2, x, s)
  {
    forall k | 0 <= k < RunEnd(s, 0)
      ensures r2.bitmap[s[k]] == 0
    {
      assert r.bitmap[s[k]] == 0;
    }
  }

  /** One pass of the ancestor loop over directory `n` changes no bitmap
      flag but those of the run of blocks it frees, and none at all when
      the directory keeps a size. */
  ghost predicate FreesOnlyRun(img: Image, r: Image, n: Inode, size: int)
    requires WellFormed(img) && WellFormed(r) && WellFormedInode(n)
  {
    var s := n.dataBlocks;
    (n.fileSize - size == 0 ==>
       forall v :: 0 <= v < NUM_BLOCKS && (forall j :: 0 <= j < RunEnd(s, 0) ==> s[j] != v) ==> r.bitmap[v] == img.bitmap[v]) &&
    (n.fileSize - size != 0 ==> r.bitmap == img.bitmap)
  }

  /** One pass of the ancestor loop on directory `a`: subtract the removed
      size; if that leaves 0, mark it unused and release its run of listed
      blocks, up to the first empty slot. */
  function Settle(img: Image, a: int, size: int): (r: Image)
    requires WellFormed(img) && 0 <= a < NUM_INODES
    ensures WellFormed(r)
    ensures r.sb == img.sb && r.blocks == img.blocks
    ensures forall v :: 0 <= v < NUM_BLOCKS ==> r.bitmap[v] == img.bitmap[v] || r.bitmap[v] == 0
    ensures r.bitmap[0] == img.bitmap[0]
    ensures forall x :: 0 <= x < NUM_INODES && x != a ==> r.inodes[x] == img.inodes[x]
    ensures r.inodes[a].fileSize == img.inodes[a].fileSize - size
    ensures r.inodes[a].inUse <==> img.inodes[a].inUse && img.inodes[a].fileSize - size != 0
    ensures r.inodes[a].fileType == img.inodes[a].fileType
  {
    var n := img.inodes[a];
    var img1 := img.(inodes := img.inodes[a := n.(fileSize := n.fileSize - size)]);
    if n.fileSize - size == 0
    then Release(img1.(inodes := img1.inodes[a := img1.inodes[a].(inUse := false)]), a, 0)
    else img1
  }

  /** Replacing one inode by a well-formed one keeps the image well formed. */
  lemma SetInodeWellFormed(img: Image, a: int, n: Inode)
    requires WellFormed(img) && 0 <= a < NUM_INODES && WellFormedInode(n)
    ensures WellFormed(img.(inodes := img.inodes[a := n]))
  {
  }

  /** What one pass of the ancestor loop does to the directory's blocks:
      when the removed size brings it to 0, its run of listed blocks up to
      the first empty slot is freed and those slots are cleared, the later
      slots are kept and no other flag changes; otherwise its block list
      and the bitmap are left as they were. */
  lemma SettleRun(img: Image, a: int, size: int)
    requires WellFormed(img) && 0 <= a < NUM_INODES
    ensures var r := Settle(img, a, size);
      RunSettled(r, a, img.inodes[a], size) && FreesOnlyRun(img, r, img.inodes[a], size)
  {
    var n := img.inodes[a];
    var img1 := img.(inodes := img.inodes[a := n.(fileSize := n.fileSize - size)]);
    SetInodeWellFormed(img, a, n.(fileSize := n.fileSize - size));
    if n.fileSize - size == 0 {
      var img2 := img1.(inodes := img1.inodes[a := img1.inodes[a].(inUse := false)]);
      SetInodeWellFormed(img1, a, img1.inodes[a].(inUse := false));
      assert Settle(img, a, size) == Release(img2, a, 0);
      ReleaseSettles(img, img2, a, size);
    } else {
      assert Settle(img, a, size) == img1;
    }
  }

  /** Releasing an inode's blocks from slot 0 clears its run of listed
      blocks and changes no flag of a block outside that run. */
  lemma ReleaseClears(img: Image, ino: int)
    requires WellFormed(img) && 0 <= ino < NUM_INODES
    ensures var r := Release(img, ino, 0);
      var s := img.inodes[ino].dataBlocks;
      RunCleared(r, ino, s) &&
      forall v :: 0 <= v < NUM_BLOCKS && (forall j :: 0 <= j < RunEnd(s, 0) ==> s[j] != v) ==> r.bitmap[v] == img.bitmap[v]
  {
    ReleaseRun(img, ino, 0, RunEnd(img.inodes[ino].dataBlocks, 0));
  }

  /** Releasing the blocks of a directory whose size reached 0 settles it
      as one pass of the ancestor loop should. */
  lemma ReleaseSettles(img: Image, img2: Image, a: int, size: int)
    requires WellFormed(img) && WellFormed(img2) && 0 <= a < NUM_INODES
    requires img2.bitmap == img.bitmap && img2.inodes[a].dataBlocks == img.inodes[a].dataBlocks
    requires img.inodes[a].fileSize - size == 0
    ensures var r := Release(img2, a, 0);
      RunSettled(r, a, img.inodes[a], size) && FreesOnlyRun(img, r, img.inodes[a], size)
  {
    ReleaseClears(img2, a);
  }

  /** The ancestor loop, `i` from `pathDepth - 1` down to 1, over the
      directories `parentDir[i]` the lookup recorded. */
  function Ancestors(img: Image, parentDir: seq<int>, i: int, size: int): (r: Image)
    requires WellFormed(img) && |parentDir| == MAX_DEPTH && i < MAX_DEPTH
    requires forall j :: 0 <= j < MAX_DEPTH ==> 0 <= parentDir[j] < NUM_INODES
    ensures WellFormed(r)
    decreases i
  {
    if i <= 0 then img
    else Ancestors(Settle(img, parentDir[i], size), parentDir, i - 1, size)
  }

  /** The final check on the root: if the entry in the recorded root slot
      names an inode of size 0, the slot is cleared and its block freed. A
      slot pointing at a block of file bytes names no inode and is kept. */
  function RootCheck(img: Image, k: int): (r: Image)
    requires WellFormed(img) && 0 <= k < NUM_SLOTS
    ensures WellFormed(r)
    ensures r.sb == img.sb && r.blocks == img.blocks
    ensures forall x :: 0 <= x < NUM_INODES && x != 0 ==> r.inodes[x] == img.inodes[x]
    ensures r.inodes[0].inUse == img.inodes[0].inUse && r.inodes[0].fileSize == img.inodes[0].fileSize
    ensures r.inodes[0].fileType == img.inodes[0].fileType
    ensures forall j :: 0 <= j < NUM_SLOTS && j != k ==> r.inodes[0].dataBlocks[j] == img.inodes[0].dataBlocks[j]
    ensures forall v :: 0 <= v < NUM_BLOCKS && v != img.inodes[0].dataBlocks[k] ==> r.bitmap[v] == img.bitmap[v]
    ensures forall v :: 0 <= v < NUM_BLOCKS ==> r.bitmap[v] == img.bitmap[v] || r.bitmap[v] == 0
    ensures var db := img.inodes[0].dataBlocks[k];
      if img.blocks[db].Entry? && img.inodes[img.blocks[db].inode].fileSize == 0
      then r.inodes[0].dataBlocks[k] == 0 && r.bitmap[db] == 0
      else r == img
  {
    var db := img.inodes[0].dataBlocks[k];
    var e := img.blocks[db];
    if e.Entry? && img.inodes[e.inode].fileSize == 0
    then SetSlot(img.(bitmap := img.bitmap[db := 0]), 0, k, 0)
    else img
  }

  /** The leaf's own bookkeeping: unused, size 0, blocks released. */
  function Unlink(img: Image, ino: int): (r: Image)
    requires WellFormed(img) && 0 <= ino < NUM_INODES
    ensures WellFormed(r)
    ensures r.sb == img.sb && r.blocks == img.blocks
    ensures forall v :: 0 <= v < NUM_BLOCKS ==> r.bitmap[v] == img.bitmap[v] || r.bitmap[v] == 0
    ensures r.bitmap[0] == img.bitmap[0]
    ensures forall x :: 0 <= x < NUM_INODES && x != ino ==> r.inodes[x] == img.inodes[x]
    ensures !r.inodes[ino].inUse && r.inodes[ino].fileSize == 0
  {
    var n := img.inodes[ino];
    Release(img.(inodes := img.inodes[ino := n.(inUse := false, fileSize := 0)]), ino, 0)
  }

  /** `removeFile` after a lookup that found `g.node` at depth `depth`. */
  function Remove(img: Image, g: Lookup, depth: int): (r: Image)
    requires WellFormed(img) && LookupOk(g) && 1 <= depth <= MAX_DEPTH
    ensures WellFormed(r)
  {
    var size := img.inodes[g.node].fileSize;
    RootCheck(Ancestors(Unlink(img, g.node), g.parentDir, depth - 1, size), g.initialRefBlock)
  }
}
