/** What `addFile` guarantees: what it leaves alone, what it allocates, the
    bytes the leaf holds and the path that reaches it afterwards. */
module IngestionFacts {
  import opened Layout
  import opened FreeLists
  import opened Allocation
  import opened Extraction
  import opened Resolution
  import opened Formatting
  import opened Ingestion

  /** Every non-empty slot of inode `x` names a used block. */
  ghost predicate SlotsAllocated(img: Image, x: int)
    requires WellFormed(img) && 0 <= x < NUM_INODES
  {
    forall k :: 0 <= k < NUM_SLOTS && img.inodes[x].dataBlocks[k] != 0 ==> img.bitmap[img.inodes[x].dataBlocks[k]] == 1
  }

  /** No slot of inode `x` names block `b`. */
  ghost predicate Unlisted(img: Image, x: int, b: int)
    requires WellFormed(img) && 0 <= x < NUM_INODES
  {
    forall k :: 0 <= k < NUM_SLOTS ==> img.inodes[x].dataBlocks[k] != b
  }

  /** No non-empty slot of directory `x` holds an entry called `name`. */
  ghost predicate NameAbsent(img: Image, x: int, name: string)
    requires WellFormed(img) && 0 <= x < NUM_INODES
  {
    forall k :: 0 <= k < NUM_SLOTS && img.inodes[x].dataBlocks[k] != 0 ==> !Names(img.blocks[img.inodes[x].dataBlocks[k]], name)
  }

  /** Inode `x` of `c` is inode `x` of `a` with possibly more slots filled:
      flags, size and type are kept and no non-empty slot changes. */
  ghost predicate GrowsOnly(a: Image, c: Image, x: int)
    requires WellFormed(a) && WellFormed(c) && 0 <= x < NUM_INODES
  {
    c.inodes[x].inUse == a.inodes[x].inUse &&
    c.inodes[x].fileSize == a.inodes[x].fileSize &&
    c.inodes[x].fileType == a.inodes[x].fileType &&
    forall k :: 0 <= k < NUM_SLOTS && a.inodes[x].dataBlocks[k] != 0 ==> c.inodes[x].dataBlocks[k] == a.inodes[x].dataBlocks[k]
  }

  /** The content loop keeps the superblock, and keeps a used block `v` used. */
  lemma {:induction false} StoreBlockAt(img: Image, i: int, b: int, content: seq<byte>, readNum: int, left: int, v: int)
    requires WellFormed(img) && 0 <= i < NUM_INODES && 0 <= b < NUM_BLOCKS && 0 <= readNum
    requires 0 <= v < NUM_BLOCKS && img.bitmap[v] == 1
    ensures var s := StoreContent(img, i, b, content, readNum, left);
      s.img.sb == img.sb && s.img.bitmap[v] == 1
    decreases left
  {
    if left > 0 && readNum < NUM_SLOTS {
      var tb := TakeBlock(StoreChunk(img, i, b, content, readNum));
      if tb.index != -1 {
        assert tb.img.bitmap[v] == 1;
        StoreBlockAt(tb.img, i, tb.index, content, readNum + 1, left - 1, v);
      }
    }
  }

  /** A used block `v` other than `b` keeps its contents, and the loop
      does not stop on it. */
  lemma {:induction false} StoreBlockKept(img: Image, i: int, b: int, content: seq<byte>, readNum: int, left: int, v: int)
    requires WellFormed(img) && 0 <= i < NUM_INODES && 0 <= b < NUM_BLOCKS && 0 <= readNum
    requires 0 <= v < NUM_BLOCKS && img.bitmap[v] == 1 && v != b
    ensures var s := StoreContent(img, i, b, content, readNum, left);
      v != s.b && s.img.blocks[v] == img.blocks[v]
    decreases left
  {
    if left > 0 && readNum < NUM_SLOTS {
      ChunkStepKept(img, i, b, content, readNum, v);
      var tb := TakeBlock(StoreChunk(img, i, b, content, readNum));
      if tb.index != -1 {
        StoreBlockKept(tb.img, i, tb.index, content, readNum + 1, left - 1, v);
      }
    }
  }

  /** One pass of the content loop keeps a used block `v` other than `b`
      used and unchanged, and does not take it next. */
  lemma ChunkStepKept(img: Image, i: int, b: int, content: seq<byte>, readNum: int, v: int)
    requires WellFormed(img) && 0 <= i < NUM_INODES && 0 <= b < NUM_BLOCKS && 0 <= readNum < NUM_SLOTS
    requires 0 <= v < NUM_BLOCKS && img.bitmap[v] == 1 && v != b
    ensures var tb := TakeBlock(StoreChunk(img, i, b, content, readNum));
      tb.img.bitmap[v] == 1 && tb.img.blocks[v] == img.blocks[v] && tb.index != v
  {
  }

  /** Every block the content loop writes receives a chunk of bytes. */
  lemma {:induction false} StoreBlockData(img: Image, i: int, b: int, content: seq<byte>, readNum: int, left: int, v: int)
    requires WellFormed(img) && 0 <= i < NUM_INODES && 0 <= b < NUM_BLOCKS && 0 <= readNum && 0 <= v < NUM_BLOCKS
    ensures var s := StoreContent(img, i, b, content, readNum, left);
      s.img.blocks[v] == img.blocks[v] || s.img.blocks[v].Data?
    decreases left
  {
    if left > 0 && readNum < NUM_SLOTS {
      var tb := TakeBlock(StoreChunk(img, i, b, content, readNum));
      if tb.index != -1 {
        assert tb.img.blocks[v] == img.blocks[v] || tb.img.blocks[v].Data?;
        StoreBlockData(tb.img, i, tb.index, content, readNum + 1, left - 1, v);
      }
    }
  }

  /** The content loop and the final link keep a used block `v` used, and
      leave its contents alone unless it is block `b`. */
  lemma AddContentBlockAt(img: Image, name: string, parent: int, b: int, i: int, content: seq<byte>, readNum: int, left: int, v: int)
    requires WellFormed(img)
    requires 0 <= parent < NUM_INODES && 0 <= b < NUM_BLOCKS && 0 <= i < NUM_INODES && 0 <= readNum
    requires img.bitmap[b] == 1 && 0 <= v < NUM_BLOCKS && img.bitmap[v] == 1
    ensures var r := AddContent(img, name, parent, b, i, content, readNum, left).img;
      r.sb == img.sb && r.bitmap[v] == 1 && (v != b ==> r.blocks[v] == img.blocks[v])
  {
    StoreBlockAt(img, i, b, content, readNum, left, v);
    if v != b {
      StoreBlockKept(img, i, b, content, readNum, left, v);
    }
  }

  /** The content loop and the final link write only block `b` and blocks
      that were free, and free nothing. */
  lemma AddContentBlocks(img: Image, name: string, parent: int, b: int, i: int, content: seq<byte>, readNum: int, left: int)
    requires WellFormed(img)
    requires 0 <= parent < NUM_INODES && 0 <= b < NUM_BLOCKS && 0 <= i < NUM_INODES && 0 <= readNum
    requires img.bitmap[b] == 1
    ensures var r := AddContent(img, name, parent, b, i, content, readNum, left).img;
      r.sb == img.sb &&
      (forall v :: 0 <= v < NUM_BLOCKS && img.bitmap[v] == 1 ==> r.bitmap[v] == 1 && (v != b ==> r.blocks[v] == img.blocks[v]))
  {
    AddContentBlockAt(img, name, parent, b, i, content, readNum, left, b);
    forall v | 0 <= v < NUM_BLOCKS && img.bitmap[v] == 1 {
      AddContentBlockAt(img, name, parent, b, i, content, readNum, left, v);
    }
  }

  /** The content loop changes no `inUse` flag. */
  lemma {:induction false} StoreInUse(img: Image, i: int, b: int, content: seq<byte>, readNum: int, left: int, x: int)
    requires WellFormed(img) && 0 <= i < NUM_INODES && 0 <= b < NUM_BLOCKS && 0 <= readNum
    requires 0 <= x < NUM_INODES
    ensures StoreContent(img, i, b, content, readNum, left).img.inodes[x].inUse == img.inodes[x].inUse
    decreases left
  {
    if left > 0 && readNum < NUM_SLOTS {
      var tb := TakeBlock(StoreChunk(img, i, b, content, readNum));
      if tb.index != -1 {
        StoreInUse(tb.img, i, tb.index, content, readNum + 1, left - 1, x);
      }
    }
  }

  /** The content loop leaves every inode other than the leaf alone. */
  lemma {:induction false} StoreInodeAt(img: Image, i: int, b: int, content: seq<byte>, readNum: int, left: int, x: int)
    requires WellFormed(img) && 0 <= i < NUM_INODES && 0 <= b < NUM_BLOCKS && 0 <= readNum
    requires 0 <= x < NUM_INODES && x != i
    ensures StoreContent(img, i, b, content, readNum, left).img.inodes[x] == img.inodes[x]
    decreases left
  {
    if left > 0 && readNum < NUM_SLOTS {
      var tb := TakeBlock(StoreChunk(img, i, b, content, readNum));
      if tb.index != -1 {
        assert tb.img.inodes[x] == img.inodes[x];
        StoreInodeAt(tb.img, i, tb.index, content, readNum + 1, left - 1, x);
      }
    }
  }

  /** The content loop and the final link change no `inUse` flag. */
  lemma AddContentInUse(img: Image, name: string, parent: int, b: int, i: int, content: seq<byte>, readNum: int, left: int, x: int)
    requires WellFormed(img)
    requires 0 <= parent < NUM_INODES && 0 <= b < NUM_BLOCKS && 0 <= i < NUM_INODES && 0 <= readNum
    requires 0 <= x < NUM_INODES
    ensures AddContent(img, name, parent, b, i, content, readNum, left).img.inodes[x].inUse == img.inodes[x].inUse
  {
    StoreInUse(img, i, b, content, readNum, left, x);
  }

  /** The content loop and the final link leave every inode other than the
      parent and the leaf alone. */
  lemma AddContentInodeAt(img: Image, name: string, parent: int, b: int, i: int, content: seq<byte>, readNum: int, left: int, x: int)
    requires WellFormed(img)
    requires 0 <= parent < NUM_INODES && 0 <= b < NUM_BLOCKS && 0 <= i < NUM_INODES && 0 <= readNum
    requires 0 <= x < NUM_INODES && x != parent && x != i
    ensures AddContent(img, name, parent, b, i, content, readNum, left).img.inodes[x] == img.inodes[x]
  {
    StoreInodeAt(img, i, b, content, readNum, left, x);
  }

  /** The content loop and the final link only fill an empty slot of the parent. */
  lemma AddContentParent(img: Image, name: string, parent: int, b: int, i: int, content: seq<byte>, readNum: int, left: int)
    requires WellFormed(img)
    requires 0 <= parent < NUM_INODES && 0 <= b < NUM_BLOCKS && 0 <= i < NUM_INODES && 0 <= readNum
    requires parent != i
    ensures GrowsOnly(img, AddContent(img, name, parent, b, i, content, readNum, left).img, parent)
  {
    StoreInodeAt(img, i, b, content, readNum, left, parent);
    var s := StoreContent(img, i, b, content, readNum, left);
    if s.failure.None? {
      var img1 := FinishLeaf(s.img, name, s.b, i, |content|);
      assert img1.inodes[parent] == img.inodes[parent];
      var ref := FirstFree(img1.inodes[parent].dataBlocks, 0);
      if ref != -1 {
        assert AddContent(img, name, parent, b, i, content, readNum, left).img == SetSlot(img1, parent, ref, s.b);
      }
    }
  }

  /** The content loop and the final link change no `inUse` flag, and of the
      other inodes only fill an empty slot of the parent. */
  lemma AddContentInodes(img: Image, name: string, parent: int, b: int, i: int, content: seq<byte>, readNum: int, left: int)
    requires WellFormed(img)
    requires 0 <= parent < NUM_INODES && 0 <= b < NUM_BLOCKS && 0 <= i < NUM_INODES && 0 <= readNum
    requires parent != i
    ensures var r := AddContent(img, name, parent, b, i, content, readNum, left).img;
      (forall x :: 0 <= x < NUM_INODES ==> r.inodes[x].inUse == img.inodes[x].inUse) &&
      (forall x :: 0 <= x < NUM_INODES && x != parent && x != i ==> r.inodes[x] == img.inodes[x]) &&
      GrowsOnly(img, r, parent)
  {
    AddContentParent(img, name, parent, b, i, content, readNum, left);
    forall x | 0 <= x < NUM_INODES {
      AddContentInUse(img, name, parent, b, i, content, readNum, left, x);
    }
    forall x | 0 <= x < NUM_INODES && x != parent && x != i {
      AddContentInodeAt(img, name, parent, b, i, content, readNum, left, x);
    }
  }

  /** The content loop keeps the root intact: it writes chunks, never
      entries, and never into block 0, and it stops on a block other than 0. */
  lemma StoreIntact(img: Image, i: int, b: int, content: seq<byte>, readNum: int, left: int)
    requires WellFormed(img) && Intact(img) && 0 <= i < NUM_INODES && 0 < b < NUM_BLOCKS && 0 <= readNum
    ensures var s := StoreContent(img, i, b, content, readNum, left);
      Intact(s.img) && 0 < s.b
  {
    StoreBlockAt(img, i, b, content, readNum, left, 0);
    StoreBlockKept(img, i, b, content, readNum, left, 0);
    StoreInUse(img, i, b, content, readNum, left, 0);
    var s := StoreContent(img, i, b, content, readNum, left);
    forall v | 1 <= v < NUM_BLOCKS && s.img.blocks[v].Entry?
      ensures s.img.blocks[v].inode != 0
    {
      StoreBlockData(img, i, b, content, readNum, left, v);
    }
  }


  /** The content loop and the final link keep the root intact: the blocks
      written are never block 0 and the entry written names the leaf. */
  lemma AddContentIntact(img: Image, name: string, parent: int, b: int, i: int, content: seq<byte>, readNum: int, left: int)
    requires WellFormed(img) && Intact(img)
    requires 0 <= parent < NUM_INODES && 0 < b < NUM_BLOCKS && 0 < i < NUM_INODES && 0 <= readNum
    ensures Intact(AddContent(img, name, parent, b, i, content, readNum, left).img)
  {
    StoreIntact(img, i, b, content, readNum, left);
    var s := StoreContent(img, i, b, content, readNum, left);
    if s.failure.None? {
      assert Intact(FinishLeaf(s.img, name, s.b, i, |content|));
    }
  }

  /** The content loop's progress on leaf `i`: its first `readNum` slots
      name used blocks other than `b`, holding the successive chunks. */
  ghost predicate Stored(img: Image, i: int, b: int, content: seq<byte>, readNum: int)
    requires WellFormed(img) && 0 <= i < NUM_INODES && 0 <= readNum <= NUM_SLOTS
  {
    forall k :: 0 <= k < readNum ==>
      img.inodes[i].dataBlocks[k] != b &&
      img.bitmap[img.inodes[i].dataBlocks[k]] == 1 &&
      img.blocks[img.inodes[i].dataBlocks[k]] == Data(Chunk(content, k))
  }

  /** One pass of the content loop stores the next chunk in block `b`,
      lists it in slot `readNum`, and takes a block that no slot names. */
  lemma ContentStepStores(img: Image, i: int, b: int, content: seq<byte>, readNum: int, tb: Taken)
    requires WellFormed(img) && 0 <= b < NUM_BLOCKS && 0 <= i < NUM_INODES && 0 <= readNum < NUM_SLOTS
    requires img.bitmap[b] == 1 && img.inodes[i].inUse && Stored(img, i, b, content, readNum)
    requires tb == TakeBlock(StoreChunk(img, i, b, content, readNum)) && tb.index != -1
    ensures WellFormed(tb.img) && 0 <= tb.index < NUM_BLOCKS && tb.img.bitmap[tb.index] == 1
    ensures tb.img.inodes[i].inUse && Stored(tb.img, i, tb.index, content, readNum + 1)
  {
    var img1 := StoreChunk(img, i, b, content, readNum);
    assert img1.inodes[i].dataBlocks[readNum] == b;
    forall k | 0 <= k < readNum + 1
      ensures tb.img.inodes[i].dataBlocks[k] != tb.index &&
        tb.img.bitmap[tb.img.inodes[i].dataBlocks[k]] == 1 &&
        tb.img.blocks[tb.img.inodes[i].dataBlocks[k]] == Data(Chunk(content, k))
    {
      if k < readNum {
        assert img.inodes[i].dataBlocks[k] != b;
      }
    }
  }

  /** The content loop stores chunk `k` in a fresh block listed in slot `k`
      and, when it runs to the end, stops on a used block that no slot of
      the leaf names. */
  lemma {:induction false} StoreStored(img: Image, i: int, b: int, content: seq<byte>, readNum: int, left: int)
    requires WellFormed(img) && 0 <= i < NUM_INODES && 0 <= b < NUM_BLOCKS
    requires img.bitmap[b] == 1 && img.inodes[i].inUse
    requires 0 <= readNum <= NUM_SLOTS && 0 <= left
    requires Stored(img, i, b, content, readNum)
    ensures var s := StoreContent(img, i, b, content, readNum, left);
      s.failure.None? ==>
        s.img.inodes[i].inUse && readNum + left <= NUM_SLOTS && Stored(s.img, i, s.b, content, readNum + left)
    decreases left
  {
    if left > 0 && readNum < NUM_SLOTS {
      var tb := TakeBlock(StoreChunk(img, i, b, content, readNum));
      if tb.index != -1 {
        ContentStepStores(img, i, b, content, readNum, tb);
        StoreStored(tb.img, i, tb.index, content, readNum + 1, left - 1);
      }
    }
  }

  /** Once every chunk is stored, a leaf that gets linked holds the content. */
  lemma LeafHolds(img: Image, name: string, parent: int, b: int, i: int, content: seq<byte>)
    requires WellFormed(img)
    requires 0 <= parent < NUM_INODES && 0 <= b < NUM_BLOCKS && 0 <= i < NUM_INODES
    requires parent != i && img.inodes[i].inUse
    requires NumReads(|content|) <= NUM_SLOTS && Stored(img, i, b, content, NumReads(|content|))
    ensures var l := Link(FinishLeaf(img, name, b, i, |content|), parent, b);
      l.Some? ==> Holds(l.value, i, content)
  {
    var img1 := FinishLeaf(img, name, b, i, |content|);
    var l := Link(img1, parent, b);
    if l.Some? {
      assert l.value.inodes[i] == img1.inodes[i];
      forall k | 0 <= k < NumReads(|content|)
        ensures l.value.blocks[l.value.inodes[i].dataBlocks[k]] == Data(Chunk(content, k))
      {
        assert img.inodes[i].dataBlocks[k] != b;
      }
    }
  }

  /** The content loop stores chunk `k` in a fresh block listed in slot `k`,
      so a leaf that gets linked holds exactly the content. */
  lemma AddContentHolds(img: Image, name: string, parent: int, b: int, i: int, content: seq<byte>, readNum: int, left: int)
    requires WellFormed(img)
    requires 0 <= parent < NUM_INODES && 0 <= b < NUM_BLOCKS && 0 <= i < NUM_INODES
    requires parent != i && img.bitmap[b] == 1 && img.inodes[i].inUse
    requires 0 <= readNum <= NUM_SLOTS && 0 <= left && readNum + left == NumReads(|content|)
    requires Stored(img, i, b, content, readNum)
    ensures var r := AddContent(img, name, parent, b, i, content, readNum, left);
      r.result.Added? ==> r.result.leaf == i && Holds(r.img, i, content)
  {
    StoreStored(img, i, b, content, readNum, left);
    var s := StoreContent(img, i, b, content, readNum, left);
    if s.failure.None? {
      LeafHolds(s.img, name, parent, s.b, i, content);
    }
  }

  /** Dropping `d` from the tail of `s` drops `e`, one more, from `s`. */
  lemma DropAfterFirst(s: seq<int>, t: seq<int>, u: seq<int>, d: int, e: int)
    requires 1 <= |s| && t == s[1..] && 0 <= d <= |t| && u == t[d..] && e == d + 1
    ensures e <= |s| && u == s[e..]
  {
  }

  /** Each pass of the content loop takes the lowest free block; a loop
      that runs to the end has taken exactly `left` of them. */
  lemma {:induction false} StoreConsumes(img: Image, i: int, b: int, content: seq<byte>, readNum: int, left: int)
    requires WellFormed(img) && 0 <= i < NUM_INODES && 0 <= b < NUM_BLOCKS && 0 <= readNum
    requires 0 <= left
    ensures var s := StoreContent(img, i, b, content, readNum, left);
      s.failure.None? ==>
        left <= |FreeList(img.bitmap, 0)| &&
        FreeList(s.img.bitmap, 0) == FreeList(img.bitmap, 0)[left..]
    decreases left
  {
    if left > 0 && readNum < NUM_SLOTS {
      var tb := TakeBlock(StoreChunk(img, i, b, content, readNum));
      if tb.index != -1 {
        var fl := FreeList(img.bitmap, 0);
        assert FreeList(tb.img.bitmap, 0) == fl[1..];
        StoreConsumes(tb.img, i, tb.index, content, readNum + 1, left - 1);
        var s := StoreContent(tb.img, i, tb.index, content, readNum + 1, left - 1);
        if s.failure.None? {
          assert fl[1..][left - 1..] == fl[left..];
        }
      }
    }
  }

  /** Each pass of the content loop takes the lowest free block, and the
      final link takes none; a leaf that gets linked has taken exactly
      `left` of them. */
  lemma AddContentConsumes(img: Image, name: string, parent: int, b: int, i: int, content: seq<byte>, readNum: int, left: int)
    requires WellFormed(img)
    requires 0 <= parent < NUM_INODES && 0 <= b < NUM_BLOCKS && 0 <= i < NUM_INODES && 0 <= readNum
    requires 0 <= left
    ensures var r := AddContent(img, name, parent, b, i, content, readNum, left);
      r.result.Added? ==>
        left <= |FreeList(img.bitmap, 0)| &&
        FreeList(r.img.bitmap, 0) == FreeList(img.bitmap, 0)[left..]
  {
    StoreConsumes(img, i, b, content, readNum, left);
  }

  /** The final link puts the leaf's entry in the parent's lowest empty
      slot, where it is the only entry with that name. */
  lemma LeafLinked(img: Image, name: string, parent: int, b: int, i: int, n: int)
    requires WellFormed(img)
    requires 0 <= parent < NUM_INODES && 0 < b < NUM_BLOCKS && 0 <= i < NUM_INODES
    requires parent != i && img.inodes[parent].inUse
    requires SlotsAllocated(img, parent) && Unlisted(img, parent, b) && NameAbsent(img, parent, name)
    ensures var l := Link(FinishLeaf(img, name, b, i, n), parent, b);
      l.Some? ==> l.value.inodes[parent].inUse && OnlyEntry(l.value, parent, FirstFree(img.inodes[parent].dataBlocks, 0), name, i)
  {
    assert FinishLeaf(img, name, b, i, n).inodes[parent] == img.inodes[parent];
  }

  /** The content loop leaves the parent alone: its slots still name used
      blocks and it still has no entry called `name`. The block the loop
      stops on is not block 0 and no slot of the parent names it. */
  lemma StoreParent(img: Image, name: string, parent: int, i: int, b: int, content: seq<byte>, readNum: int, left: int)
    requires WellFormed(img) && 0 <= parent < NUM_INODES && 0 <= i < NUM_INODES && 0 < b < NUM_BLOCKS && 0 <= readNum
    requires parent != i && img.bitmap[b] == 1 && img.bitmap[0] == 1
    requires SlotsAllocated(img, parent) && Unlisted(img, parent, b) && NameAbsent(img, parent, name)
    ensures var s := StoreContent(img, i, b, content, readNum, left);
      s.img.inodes[parent] == img.inodes[parent] && 0 < s.b &&
      SlotsAllocated(s.img, parent) && Unlisted(s.img, parent, s.b) && NameAbsent(s.img, parent, name)
  {
    var s := StoreContent(img, i, b, content, readNum, left);
    StoreInodeAt(img, i, b, content, readNum, left, parent);
    StoreBlockKept(img, i, b, content, readNum, left, 0);
    var slots := img.inodes[parent].dataBlocks;
    forall k | 0 <= k < NUM_SLOTS && slots[k] != 0
      ensures s.img.bitmap[slots[k]] == 1 && slots[k] != s.b && s.img.blocks[slots[k]] == img.blocks[slots[k]]
    {
      StoreBlockAt(img, i, b, content, readNum, left, slots[k]);
      StoreBlockKept(img, i, b, content, readNum, left, slots[k]);
    }
  }


  /** After a successful link, resolving the path in the parent reaches the
      leaf, provided the parent held no entry of that name before and its
      slots name used blocks other than the reserved one. */
  lemma AddContentResolves(img: Image, path: seq<string>, depth: int, parent: int, b: int, i: int, content: seq<byte>, readNum: int, left: int)
    requires WellFormed(img) && 1 <= depth == |path| < MAX_DEPTH
    requires 0 <= parent < NUM_INODES && 0 < b < NUM_BLOCKS && 0 <= i < NUM_INODES && 0 <= readNum
    requires parent != i && img.bitmap[b] == 1 && img.bitmap[0] == 1 && img.inodes[parent].inUse
    requires SlotsAllocated(img, parent) && Unlisted(img, parent, b) && NameAbsent(img, parent, path[|path| - 1])
    ensures var r := AddContent(img, path[|path| - 1], parent, b, i, content, readNum, left);
      r.result.Added? ==> r.result.leaf == i && Leads(r.img, parent, path, depth, i)
  {
    var name := path[|path| - 1];
    StoreParent(img, name, parent, i, b, content, readNum, left);
    var s := StoreContent(img, i, b, content, readNum, left);
    if s.failure.None? {
      var l := Link(FinishLeaf(s.img, name, s.b, i, |content|), parent, s.b);
      if l.Some? {
        LeafLinked(s.img, name, parent, s.b, i, |content|);
        EntryLeads(l.value, parent, path, depth, FirstFree(s.img.inodes[parent].dataBlocks, 0), i, i);
      }
    }
  }

  /** The directories the loop creates have only empty slots. */
  ghost predicate NoSlots(img: Image, x: int)
    requires WellFormed(img) && 0 <= x < NUM_INODES
  {
    forall k :: 0 <= k < NUM_SLOTS ==> img.inodes[x].dataBlocks[k] == 0
  }

  /** One level of the directory loop, as seen by the blocks: the bitmap
      gains exactly the lowest free block, which is used by the next level,
      and only block `b` is written. */
  lemma DirStepBlocks(img: Image, name: string, parent: int, b: int, i: int, n: int, img2: Image, tb: Taken, ti: Taken)
    requires WellFormed(img)
    requires 0 <= parent < NUM_INODES && 0 <= b < NUM_BLOCKS && 0 <= i < NUM_INODES
    requires Link(MakeDir(img, name, b, i, n), parent, b) == Some(img2)
    requires tb == TakeBlock(img2) && tb.index != -1
    requires ti == TakeInode(tb.img) && ti.index != -1
    ensures WellFormed(ti.img) && 0 <= tb.index < NUM_BLOCKS && ti.img.bitmap[tb.index] == 1 && ti.img.sb == img.sb
    ensures forall v :: 0 <= v < NUM_BLOCKS && img.bitmap[v] == 1 ==> ti.img.bitmap[v] == 1 && (v != b ==> ti.img.blocks[v] == img.blocks[v])
  {
  }

  /** One level of the directory loop takes the lowest free block. */
  lemma DirStepFree(img: Image, name: string, parent: int, b: int, i: int, n: int, img2: Image, tb: Taken, ti: Taken)
    requires WellFormed(img)
    requires 0 <= parent < NUM_INODES && 0 <= b < NUM_BLOCKS && 0 <= i < NUM_INODES
    requires Link(MakeDir(img, name, b, i, n), parent, b) == Some(img2)
    requires tb == TakeBlock(img2) && tb.index != -1
    requires ti == TakeInode(tb.img) && ti.index != -1
    ensures |FreeList(img.bitmap, 0)| >= 1 && FreeList(ti.img.bitmap, 0) == FreeList(img.bitmap, 0)[1..]
  {
  }

  /** The directory loop keeps a used block `v` used, and leaves its
      contents alone unless it is block `b`. */
  lemma {:induction false} AddDirsBlockAt(img: Image, comps: seq<string>, k: int, parent: int, b: int, i: int, content: seq<byte>, v: int)
    requires WellFormed(img) && 0 <= k < |comps|
    requires 0 <= parent < NUM_INODES && 0 <= b < NUM_BLOCKS && 0 <= i < NUM_INODES
    requires img.bitmap[b] == 1 && 0 <= v < NUM_BLOCKS && img.bitmap[v] == 1
    ensures var r := AddDirs(img, comps, k, parent, b, i, content).img;
      r.sb == img.sb && r.bitmap[v] == 1 && (v != b ==> r.blocks[v] == img.blocks[v])
    decreases |comps| - k
  {
    if k == |comps| - 1 {
      AddContentBlockAt(img, comps[k], parent, b, i, content, 0, NumReads(|content|), v);
    } else {
      var l := Link(MakeDir(img, comps[k], b, i, |content|), parent, b);
      if l.Some? {
        var tb := TakeBlock(l.value);
        if tb.index != -1 {
          var ti := TakeInode(tb.img);
          if ti.index != -1 {
            DirStepBlocks(img, comps[k], parent, b, i, |content|, l.value, tb, ti);
            AddDirsBlockAt(ti.img, comps, k + 1, i, tb.index, ti.index, content, v);
          }
        }
      }
    }
  }

  /** The directory loop writes only block `b` and blocks that were free,
      and frees nothing. */
  lemma AddDirsBlocks(img: Image, comps: seq<string>, k: int, parent: int, b: int, i: int, content: seq<byte>)
    requires WellFormed(img) && 0 <= k < |comps|
    requires 0 <= parent < NUM_INODES && 0 <= b < NUM_BLOCKS && 0 <= i < NUM_INODES
    requires img.bitmap[b] == 1
    ensures var r := AddDirs(img, comps, k, parent, b, i, content).img;
      r.sb == img.sb &&
      (forall v :: 0 <= v < NUM_BLOCKS && img.bitmap[v] == 1 ==> r.bitmap[v] == 1 && (v != b ==> r.blocks[v] == img.blocks[v]))
  {
    AddDirsBlockAt(img, comps, k, parent, b, i, content, b);
    forall v | 0 <= v < NUM_BLOCKS && img.bitmap[v] == 1 {
      AddDirsBlockAt(img, comps, k, parent, b, i, content, v);
    }
  }

  /** One level of the directory loop, as seen by the inodes: the new
      directory `i` and the next inode are in use, the next inode was free
      before, and of the others only empty slots of the parent change. */
  lemma DirStep(img: Image, name: string, parent: int, b: int, i: int, n: int, img2: Image, tb: Taken, ti: Taken)
    requires WellFormed(img)
    requires 0 <= parent < NUM_INODES && 0 <= b < NUM_BLOCKS && 0 <= i < NUM_INODES
    requires parent != i && img.inodes[parent].inUse
    requires Link(MakeDir(img, name, b, i, n), parent, b) == Some(img2)
    requires tb == TakeBlock(img2) && tb.index != -1
    requires ti == TakeInode(tb.img) && ti.index != -1
    ensures WellFormed(ti.img) && 0 <= ti.index < NUM_INODES && 0 <= tb.index < NUM_BLOCKS
    ensures ti.index != i && ti.index != parent && !img.inodes[ti.index].inUse
    ensures ti.img.inodes[i].inUse && ti.img.inodes[ti.index].inUse
    ensures forall x :: 0 <= x < NUM_INODES && x != parent && x != i && x != ti.index ==> ti.img.inodes[x] == img.inodes[x]
    ensures GrowsOnly(img, ti.img, parent)
  {
    assert ti.img.inodes[parent] == img2.inodes[parent];
  }

  /** A level of the directory loop that stops for want of a slot, a block
      or an inode leaves the inodes as the entry and the link left them. */
  lemma DirStopped(img: Image, name: string, parent: int, b: int, i: int, n: int)
    requires WellFormed(img)
    requires 0 <= parent < NUM_INODES && 0 <= b < NUM_BLOCKS && 0 <= i < NUM_INODES && parent != i
    ensures var img1 := MakeDir(img, name, b, i, n);
      var l := Link(img1, parent, b);
      var c := if l.Some? then l.value else img1;
      c.inodes[i].inUse && GrowsOnly(img, c, parent) &&
      (forall x :: 0 <= x < NUM_INODES && x != parent && x != i ==> c.inodes[x] == img.inodes[x])
  {
    var img1 := MakeDir(img, name, b, i, n);
    assert img1.inodes[parent] == img.inodes[parent];
  }

  /** The directory loop leaves every inode in use other than `parent` and
      the new directory `i` as it was. */
  lemma {:induction false} AddDirsInodeAt(img: Image, comps: seq<string>, k: int, parent: int, b: int, i: int, content: seq<byte>, x: int)
    requires WellFormed(img) && 0 <= k < |comps|
    requires 0 <= parent < NUM_INODES && 0 <= b < NUM_BLOCKS && 0 <= i < NUM_INODES
    requires parent != i && img.inodes[parent].inUse && img.inodes[i].inUse
    requires 0 <= x < NUM_INODES && img.inodes[x].inUse && x != parent && x != i
    ensures AddDirs(img, comps, k, parent, b, i, content).img.inodes[x] == img.inodes[x]
    decreases |comps| - k
  {
    if k == |comps| - 1 {
      AddContentInodes(img, comps[k], parent, b, i, content, 0, NumReads(|content|));
    } else {
      var l := Link(MakeDir(img, comps[k], b, i, |content|), parent, b);
      if l.Some? {
        var tb := TakeBlock(l.value);
        if tb.index != -1 {
          var ti := TakeInode(tb.img);
          if ti.index != -1 {
            DirStep(img, comps[k], parent, b, i, |content|, l.value, tb, ti);
            AddDirsInodeAt(ti.img, comps, k + 1, i, tb.index, ti.index, content, x);
          }
        }
      }
    }
  }

  /** The directory loop only fills empty slots of `parent` and leaves the
      new directory `i` in use. */
  lemma {:induction false} AddDirsParent(img: Image, comps: seq<string>, k: int, parent: int, b: int, i: int, content: seq<byte>)
    requires WellFormed(img) && 0 <= k < |comps|
    requires 0 <= parent < NUM_INODES && 0 <= b < NUM_BLOCKS && 0 <= i < NUM_INODES
    requires parent != i && img.inodes[parent].inUse && img.inodes[i].inUse
    ensures var r := AddDirs(img, comps, k, parent, b, i, content).img;
      GrowsOnly(img, r, parent) && r.inodes[i].inUse
    decreases |comps| - k
  {
    if k == |comps| - 1 {
      AddContentInodes(img, comps[k], parent, b, i, content, 0, NumReads(|content|));
    } else {
      DirStopped(img, comps[k], parent, b, i, |content|);
      var l := Link(MakeDir(img, comps[k], b, i, |content|), parent, b);
      if l.Some? {
        var tb := TakeBlock(l.value);
        if tb.index != -1 {
          var ti := TakeInode(tb.img);
          if ti.index != -1 {
            DirStep(img, comps[k], parent, b, i, |content|, l.value, tb, ti);
            AddDirsInodeAt(ti.img, comps, k + 1, i, tb.index, ti.index, content, parent);
            AddDirsParent(ti.img, comps, k + 1, i, tb.index, ti.index, content);
          }
        }
      }
    }
  }

  /** The directory loop keeps every inode in use in use; of those it
      changes only the new directory `i` and empty slots of the parent. */
  lemma AddDirsInodes(img: Image, comps: seq<string>, k: int, parent: int, b: int, i: int, content: seq<byte>)
    requires WellFormed(img) && 0 <= k < |comps|
    requires 0 <= parent < NUM_INODES && 0 <= b < NUM_BLOCKS && 0 <= i < NUM_INODES
    requires parent != i && img.inodes[parent].inUse && img.inodes[i].inUse
    ensures var r := AddDirs(img, comps, k, parent, b, i, content).img;
      (forall x :: 0 <= x < NUM_INODES && img.inodes[x].inUse ==> r.inodes[x].inUse) &&
      (forall x :: 0 <= x < NUM_INODES && img.inodes[x].inUse && x != parent && x != i ==> r.inodes[x] == img.inodes[x]) &&
      GrowsOnly(img, r, parent)
  {
    AddDirsParent(img, comps, k, parent, b, i, content);
    forall x | 0 <= x < NUM_INODES && img.inodes[x].inUse && x != parent && x != i {
      AddDirsInodeAt(img, comps, k, parent, b, i, content, x);
    }
  }


  /** The directory loop keeps the root intact. */
  lemma {:induction false} AddDirsIntact(img: Image, comps: seq<string>, k: int, parent: int, b: int, i: int, content: seq<byte>)
    requires WellFormed(img) && Intact(img) && 0 <= k < |comps|
    requires 0 <= parent < NUM_INODES && 0 < b < NUM_BLOCKS && 0 < i < NUM_INODES
    ensures Intact(AddDirs(img, comps, k, parent, b, i, content).img)
    decreases |comps| - k
  {
    if k == |comps| - 1 {
      AddContentIntact(img, comps[k], parent, b, i, content, 0, NumReads(|content|));
    } else {
      var img1 := MakeDir(img, comps[k], b, i, |content|);
      assert Intact(img1);
      var l := Link(img1, parent, b);
      if l.Some? {
        var tb := TakeBlock(l.value);
        if tb.index != -1 {
          var ti := TakeInode(tb.img);
          if ti.index != -1 {
            AddDirsIntact(ti.img, comps, k + 1, i, tb.index, ti.index, content);
          }
        }
      }
    }
  }

  /** A leaf the directory loop links holds exactly the content. */
  lemma {:induction false} AddDirsHolds(img: Image, comps: seq<string>, k: int, parent: int, b: int, i: int, content: seq<byte>)
    requires WellFormed(img) && 0 <= k < |comps|
    requires 0 <= parent < NUM_INODES && 0 <= b < NUM_BLOCKS && 0 <= i < NUM_INODES
    requires parent != i && img.bitmap[b] == 1 && img.inodes[i].inUse
    ensures var r := AddDirs(img, comps, k, parent, b, i, content);
      r.result.Added? ==> 0 <= r.result.leaf < NUM_INODES && Holds(r.img, r.result.leaf, content)
    decreases |comps| - k
  {
    if k == |comps| - 1 {
      AddContentHolds(img, comps[k], parent, b, i, content, 0, NumReads(|content|));
    } else {
      var l := Link(MakeDir(img, comps[k], b, i, |content|), parent, b);
      if l.Some? {
        var tb := TakeBlock(l.value);
        if tb.index != -1 {
          var ti := TakeInode(tb.img);
          if ti.index != -1 {
            AddDirsHolds(ti.img, comps, k + 1, i, tb.index, ti.index, content);
          }
        }
      }
    }
  }

  /** Blocks are taken from the lowest free one up: a successful add has
      taken one per remaining directory level, plus the content blocks. */
  lemma {:induction false} AddDirsConsumes(img: Image, comps: seq<string>, k: int, parent: int, b: int, i: int, content: seq<byte>)
    requires WellFormed(img) && 0 <= k < |comps|
    requires 0 <= parent < NUM_INODES && 0 <= b < NUM_BLOCKS && 0 <= i < NUM_INODES
    requires parent != i && img.inodes[i].inUse
    ensures var r := AddDirs(img, comps, k, parent, b, i, content);
      var m := |comps| - 1 - k;
      r.result.Added? ==>
        m + NumReads(|content|) <= |FreeList(img.bitmap, 0)| &&
        FreeList(r.img.bitmap, 0) == FreeList(img.bitmap, 0)[m + NumReads(|content|)..]
    decreases |comps| - k, 1
  {
    if k == |comps| - 1 {
      AddContentConsumes(img, comps[k], parent, b, i, content, 0, NumReads(|content|));
    } else {
      var l := Link(MakeDir(img, comps[k], b, i, |content|), parent, b);
      if l.Some? {
        var tb := TakeBlock(l.value);
        if tb.index != -1 {
          var ti := TakeInode(tb.img);
          if ti.index != -1 {
            DirStepFree(img, comps[k], parent, b, i, |content|, l.value, tb, ti);
            ConsumesLevel(img, ti.img, comps, k, i, tb.index, ti.index, content);
          }
        }
      }
    }
  }

  /** When one level of the directory loop has taken the lowest free block,
      the rest of the loop takes the others from what is left. */
  lemma ConsumesLevel(img: Image, next: Image, comps: seq<string>, k: int, i: int, nb: int, ni: int, content: seq<byte>)
    requires WellFormed(img) && WellFormed(next) && 0 <= k < |comps| - 1
    requires 0 <= i < NUM_INODES && 0 <= nb < NUM_BLOCKS && 0 <= ni < NUM_INODES
    requires i != ni && next.inodes[ni].inUse
    requires |FreeList(img.bitmap, 0)| >= 1 && FreeList(next.bitmap, 0) == FreeList(img.bitmap, 0)[1..]
    ensures var r := AddDirs(next, comps, k + 1, i, nb, ni, content);
      r.result.Added? ==>
        |comps| - 1 - k + NumReads(|content|) <= |FreeList(img.bitmap, 0)| &&
        FreeList(r.img.bitmap, 0) == FreeList(img.bitmap, 0)[|comps| - 1 - k + NumReads(|content|)..]
    decreases |comps| - k, 0
  {
    AddDirsConsumes(next, comps, k + 1, i, nb, ni, content);
    var r := AddDirs(next, comps, k + 1, i, nb, ni, content);
    if r.result.Added? {
      DropAfterFirst(FreeList(img.bitmap, 0), FreeList(next.bitmap, 0), FreeList(r.img.bitmap, 0),
                     |comps| - 1 - (k + 1) + NumReads(|content|), |comps| - 1 - k + NumReads(|content|));
    }
  }



  /** Inodes are taken from the lowest free one (above the root) up: a
      successful add has taken one per remaining directory level. */
  lemma {:induction false} AddDirsTakesInodes(img: Image, comps: seq<string>, k: int, parent: int, b: int, i: int, content: seq<byte>)
    requires WellFormed(img) && 0 <= k < |comps|
    requires 0 <= parent < NUM_INODES && 0 <= b < NUM_BLOCKS && 0 <= i < NUM_INODES
    requires parent != i && img.inodes[i].inUse
    ensures var r := AddDirs(img, comps, k, parent, b, i, content);
      var m := |comps| - 1 - k;
      r.result.Added? ==>
        m <= |FreeList(UseFlags(img.inodes), 1)| &&
        FreeList(UseFlags(r.img.inodes), 1) == FreeList(UseFlags(img.inodes), 1)[m..]
    decreases |comps| - k
  {
    var r := AddDirs(img, comps, k, parent, b, i, content);
    if k == |comps| - 1 {
      AddContentInodes(img, comps[k], parent, b, i, content, 0, NumReads(|content|));
      UseFlagsSame(r.img.inodes, img.inodes);
    } else {
      assert r == AddDirLevel(img, comps, k, parent, b, i, content);
      var l := Link(MakeDir(img, comps[k], b, i, |content|), parent, b);
      if l.Some? {
        var tb := TakeBlock(l.value);
        if tb.index != -1 {
          var ti := TakeInode(tb.img);
          if ti.index != -1 {
            var m := |comps| - 1 - k;
            var fi := FreeList(UseFlags(img.inodes), 1);
            UseFlagsSame(l.value.inodes, img.inodes);
            assert FreeList(UseFlags(ti.img.inodes), 1) == fi[1..];
            AddDirsTakesInodes(ti.img, comps, k + 1, i, tb.index, ti.index, content);
            assert r == AddDirs(ti.img, comps, k + 1, i, tb.index, ti.index, content);
            if r.result.Added? {
              assert fi[1..][m - 1..] == fi[m..];
            }
          }
        }
      }
    }
  }

  /** One level of the directory loop, up to the allocation of the next
      block and inode: the entry for `name` sits in the parent's lowest
      empty slot, is the only entry there with that name, and everything
      the next level needs holds for the new directory. */
  lemma DirLevel(img: Image, name: string, next: string, parent: int, b: int, i: int, n: int, img2: Image, tb: Taken, ti: Taken)
    requires WellFormed(img)
    requires 0 <= parent < NUM_INODES && 0 < b < NUM_BLOCKS && 0 <= i < NUM_INODES
    requires parent != i && img.bitmap[b] == 1 && img.bitmap[0] == 1
    requires img.inodes[parent].inUse && img.inodes[i].inUse && NoSlots(img, i)
    requires FreeInodesClean(img)
    requires SlotsAllocated(img, parent) && Unlisted(img, parent, b) && NameAbsent(img, parent, name)
    requires Link(MakeDir(img, name, b, i, n), parent, b) == Some(img2)
    requires tb == TakeBlock(img2) && tb.index != -1
    requires ti == TakeInode(tb.img) && ti.index != -1
    ensures WellFormed(ti.img) && 0 < tb.index < NUM_BLOCKS && 0 < ti.index < NUM_INODES
    ensures i != ti.index && ti.img.bitmap[tb.index] == 1 && ti.img.bitmap[0] == 1
    ensures ti.img.inodes[i].inUse && ti.img.inodes[ti.index].inUse && NoSlots(ti.img, ti.index)
    ensures FreeInodesClean(ti.img)
    ensures SlotsAllocated(ti.img, i) && Unlisted(ti.img, i, tb.index) && NameAbsent(ti.img, i, next)
    ensures ti.img.inodes[parent].inUse && parent != ti.index
    ensures var ref := FirstFree(img.inodes[parent].dataBlocks, 0);
      OnlyEntry(ti.img, parent, ref, name, i) && SlotsAllocated(ti.img, parent) && Unlisted(ti.img, parent, tb.index)
  {
    var img1 := MakeDir(img, name, b, i, n);
    assert img1.inodes[parent] == img.inodes[parent];
    assert forall x :: 0 <= x < NUM_INODES && x != i ==> ti.img.inodes[x].inUse == img.inodes[x].inUse || x == ti.index;
    assert forall x :: 0 <= x < NUM_INODES && !ti.img.inodes[x].inUse ==> ti.img.inodes[x] == img.inodes[x];
  }

  /** After a successful add, resolving the remaining components from
      `parent` reaches the leaf, provided `parent` held no entry named like
      the next component and its slots name used blocks other than `b`. */
  lemma {:induction false} AddDirsResolves(img: Image, comps: seq<string>, k: int, parent: int, b: int, i: int, content: seq<byte>)
    requires WellFormed(img) && 0 <= k < |comps| < MAX_DEPTH
    requires 0 <= parent < NUM_INODES && 0 < b < NUM_BLOCKS && 0 <= i < NUM_INODES
    requires parent != i && img.bitmap[b] == 1 && img.bitmap[0] == 1
    requires img.inodes[parent].inUse && img.inodes[i].inUse && NoSlots(img, i)
    requires FreeInodesClean(img)
    requires SlotsAllocated(img, parent) && Unlisted(img, parent, b) && NameAbsent(img, parent, comps[k])
    ensures var r := AddDirs(img, comps, k, parent, b, i, content);
      r.result.Added? ==> Leads(r.img, parent, comps, k + 1, r.result.leaf)
    decreases |comps| - k, 3
  {
    if k == |comps| - 1 {
      LastResolves(img, comps, k, parent, b, i, content);
    } else {
      DirResolves(img, comps, k, parent, b, i, content);
    }
  }

  /** The last component: the content loop and the link into `parent`. */
  lemma LastResolves(img: Image, comps: seq<string>, k: int, parent: int, b: int, i: int, content: seq<byte>)
    requires WellFormed(img) && 0 <= k == |comps| - 1 && |comps| < MAX_DEPTH
    requires 0 <= parent < NUM_INODES && 0 < b < NUM_BLOCKS && 0 <= i < NUM_INODES
    requires parent != i && img.bitmap[b] == 1 && img.bitmap[0] == 1
    requires img.inodes[parent].inUse && img.inodes[i].inUse && NoSlots(img, i)
    requires FreeInodesClean(img)
    requires SlotsAllocated(img, parent) && Unlisted(img, parent, b) && NameAbsent(img, parent, comps[k])
    ensures var r := AddDirs(img, comps, k, parent, b, i, content);
      r.result.Added? ==> Leads(r.img, parent, comps, k + 1, r.result.leaf)
  {
    AddContentResolves(img, comps, k + 1, parent, b, i, content, 0, NumReads(|content|));
    LastIsContent(img, comps, k, parent, b, i, content);
  }

  /** At the last component the directory loop is the content loop. */
  lemma LastIsContent(img: Image, comps: seq<string>, k: int, parent: int, b: int, i: int, content: seq<byte>)
    requires WellFormed(img) && 0 <= k == |comps| - 1
    requires 0 <= parent < NUM_INODES && 0 <= b < NUM_BLOCKS && 0 <= i < NUM_INODES
    ensures AddDirs(img, comps, k, parent, b, i, content) == AddContent(img, comps[|comps| - 1], parent, b, i, content, 0, NumReads(|content|))
  {
  }

  /** A directory component: either the level fails, or it links a new
      directory and the rest of the loop continues from there. */
  lemma {:induction false} DirResolves(img: Image, comps: seq<string>, k: int, parent: int, b: int, i: int, content: seq<byte>)
    requires WellFormed(img) && 0 <= k < |comps| - 1 && |comps| < MAX_DEPTH
    requires 0 <= parent < NUM_INODES && 0 < b < NUM_BLOCKS && 0 <= i < NUM_INODES
    requires parent != i && img.bitmap[b] == 1 && img.bitmap[0] == 1
    requires img.inodes[parent].inUse && img.inodes[i].inUse && NoSlots(img, i)
    requires FreeInodesClean(img)
    requires SlotsAllocated(img, parent) && Unlisted(img, parent, b) && NameAbsent(img, parent, comps[k])
    ensures var r := AddDirs(img, comps, k, parent, b, i, content);
      r.result.Added? ==> Leads(r.img, parent, comps, k + 1, r.result.leaf)
    decreases |comps| - k, 2
  {
    var l := Link(MakeDir(img, comps[k], b, i, |content|), parent, b);
    if l.Some? {
      var tb := TakeBlock(l.value);
      if tb.index != -1 {
        var ti := TakeInode(tb.img);
        if ti.index != -1 {
          DeepResolves(img, comps, k, parent, b, i, content, l.value, tb, ti);
          assert AddDirs(ti.img, comps, k + 1, i, tb.index, ti.index, content) == AddDirs(img, comps, k, parent, b, i, content);
        } else {
          assert AddDirs(img, comps, k, parent, b, i, content).result == AddFailed(NoFreeInode);
        }
      } else {
        assert AddDirs(img, comps, k, parent, b, i, content).result == AddFailed(NoFreeBlock);
      }
    } else {
      assert AddDirs(img, comps, k, parent, b, i, content).result == AddFailed(NoFreeSlot);
    }
  }

  /** A level that links a new directory: the path leads through its entry
      in `parent` and, by the rest of the loop, on to the leaf. */
  lemma {:induction false} DeepResolves(img: Image, comps: seq<string>, k: int, parent: int, b: int, i: int, content: seq<byte>, img2: Image, tb: Taken, ti: Taken)
    requires WellFormed(img) && 0 <= k < |comps| - 1 && |comps| < MAX_DEPTH
    requires 0 <= parent < NUM_INODES && 0 < b < NUM_BLOCKS && 0 <= i < NUM_INODES
    requires parent != i && img.bitmap[b] == 1 && img.bitmap[0] == 1
    requires img.inodes[parent].inUse && img.inodes[i].inUse && NoSlots(img, i)
    requires FreeInodesClean(img)
    requires SlotsAllocated(img, parent) && Unlisted(img, parent, b) && NameAbsent(img, parent, comps[k])
    requires Link(MakeDir(img, comps[k], b, i, |content|), parent, b) == Some(img2)
    requires tb == TakeBlock(img2) && tb.index != -1
    requires ti == TakeInode(tb.img) && ti.index != -1
    ensures WellFormed(ti.img) && 0 < tb.index < NUM_BLOCKS && 0 < ti.index < NUM_INODES
    ensures var r := AddDirs(ti.img, comps, k + 1, i, tb.index, ti.index, content);
      r.result.Added? ==> Leads(r.img, parent, comps, k + 1, r.result.leaf)
    decreases |comps| - k, 1
  {
    DirLevel(img, comps[k], comps[k + 1], parent, b, i, |content|, img2, tb, ti);
    DeepLink(ti.img, comps, k, parent, FirstFree(img.inodes[parent].dataBlocks, 0), i, tb.index, ti.index, content);
  }

  /** The entry for component `k` stays the only one of its name in
      `parent` while the rest of the loop runs, so a path that leads from
      the new directory `i` to the leaf also leads there from `parent`. */
  lemma DeepLink(img: Image, comps: seq<string>, k: int, parent: int, ref: int, i: int, b: int, ni: int, content: seq<byte>)
    requires WellFormed(img) && 0 <= k < |comps| - 1 && |comps| < MAX_DEPTH
    requires 0 <= parent < NUM_INODES && 0 <= b < NUM_BLOCKS && 0 <= i < NUM_INODES && 0 <= ni < NUM_INODES
    requires parent != i && parent != ni && i != ni && img.bitmap[b] == 1
    requires img.inodes[parent].inUse && img.inodes[i].inUse && img.inodes[ni].inUse
    requires OnlyEntry(img, parent, ref, comps[k], i) && SlotsAllocated(img, parent) && Unlisted(img, parent, b)
    requires 0 < b && img.bitmap[0] == 1 && NoSlots(img, ni) && FreeInodesClean(img)
    requires SlotsAllocated(img, i) && Unlisted(img, i, b) && NameAbsent(img, i, comps[k + 1])
    ensures var r := AddDirs(img, comps, k + 1, i, b, ni, content);
      r.result.Added? ==> Leads(r.img, parent, comps, k + 1, r.result.leaf)
    decreases |comps| - k, 0
  {
    AddDirsResolves(img, comps, k + 1, i, b, ni, content);
    var r := AddDirs(img, comps, k + 1, i, b, ni, content);
    if r.result.Added? {
      DirKept(img, comps, k + 1, parent, ref, comps[k], i, b, ni, content);
      LinkAbove(r.img, parent, comps, k, ref, i, r.result.leaf);
    }
  }

  /** A path that leads from `i` to `leaf` also leads there from `parent`,
      whose only entry called `comps[k]` names `i`. */
  lemma LinkAbove(r: Image, parent: int, comps: seq<string>, k: int, ref: int, i: int, leaf: int)
    requires WellFormed(r) && 0 <= k < |comps| - 1 && |comps| < MAX_DEPTH
    requires 0 <= parent < NUM_INODES && 0 <= i < NUM_INODES
    requires r.inodes[parent].inUse && OnlyEntry(r, parent, ref, comps[k], i) && Leads(r, i, comps, k + 2, leaf)
    ensures Leads(r, parent, comps, k + 1, leaf)
  {
    EntryLeads(r, parent, comps, k + 1, ref, i, leaf);
  }

  /** The entry one level of the directory loop links into `parent` stays
      the only one there with its name through the rest of the loop. */
  lemma DirKept(img: Image, comps: seq<string>, k: int, parent: int, ref: int, name: string, i: int, b: int, ni: int, content: seq<byte>)
    requires WellFormed(img) && 0 <= k < |comps|
    requires 0 <= parent < NUM_INODES && 0 <= b < NUM_BLOCKS && 0 <= i < NUM_INODES && 0 <= ni < NUM_INODES
    requires parent != i && parent != ni && i != ni && img.bitmap[b] == 1
    requires img.inodes[parent].inUse && img.inodes[i].inUse && img.inodes[ni].inUse
    requires OnlyEntry(img, parent, ref, name, i) && SlotsAllocated(img, parent) && Unlisted(img, parent, b)
    ensures var r := AddDirs(img, comps, k, i, b, ni, content).img;
      r.inodes[parent].inUse && OnlyEntry(r, parent, ref, name, i)
  {
    AddDirsBlocks(img, comps, k, i, b, ni, content);
    AddDirsInodes(img, comps, k, i, b, ni, content);
  }

  /** The first block and inode `addFile` takes, before any path component
      is written: the block is a free one other than 0 and the inode a free
      one other than the root. */
  lemma AddStart(img: Image)
    requires WellFormed(img) && Intact(img)
    ensures var tb := TakeBlock(img);
      tb.index != -1 ==>
        var ti := TakeInode(tb.img);
        0 < tb.index < NUM_BLOCKS && img.bitmap[tb.index] == 0 &&
        (ti.index != -1 ==> Intact(ti.img) && ti.img.bitmap[tb.index] == 1 && !img.inodes[ti.index].inUse)
  {
  }

  /** Adding a file never damages the root: block 0, inode 0 and the
      entries naming inode 0 are as `formatfs` left them. */
  lemma AddIntact(img: Image, comps: seq<string>, source: Option<seq<byte>>)
    requires WellFormed(img) && Intact(img) && 1 <= |comps|
    ensures Intact(Add(img, comps, source).img)
  {
    AddStart(img);
    var tb := TakeBlock(img);
    if tb.index != -1 {
      var ti := TakeInode(tb.img);
      if ti.index != -1 && source.Some? {
        AddDirsIntact(ti.img, comps, 0, 0, tb.index, ti.index, source.value);
      }
    }
  }

  /** A successful add stores the source's bytes so that `extractFile`
      returns exactly them for the new leaf. */
  lemma AddExtracts(img: Image, comps: seq<string>, content: seq<byte>)
    requires WellFormed(img) && 1 <= |comps|
    ensures var r := Add(img, comps, Some(content));
      r.result.Added? ==> 0 <= r.result.leaf < NUM_INODES && ReadFile(r.img, r.result.leaf) == Ok(content)
  {
    var tb := TakeBlock(img);
    if tb.index != -1 {
      var ti := TakeInode(tb.img);
      if ti.index != -1 {
        AddDirsHolds(ti.img, comps, 0, 0, tb.index, ti.index, content);
        var r := Add(img, comps, Some(content));
        if r.result.Added? {
          ReadFileHolds(r.img, r.result.leaf, content);
        }
      }
    }
  }

  /** A successful add of an `n`-byte file under `|comps| - 1` directories
      takes the lowest `|comps| + NumReads(n)` free blocks and the lowest
      `|comps|` free inodes above the root, and no others. */
  lemma AddConsumes(img: Image, comps: seq<string>, content: seq<byte>)
    requires WellFormed(img) && 1 <= |comps|
    ensures var r := Add(img, comps, Some(content));
      var fb := FreeList(img.bitmap, 0);
      var fi := FreeList(UseFlags(img.inodes), 1);
      r.result.Added? ==>
        |comps| + NumReads(|content|) <= |fb| && FreeList(r.img.bitmap, 0) == fb[|comps| + NumReads(|content|)..] &&
        |comps| <= |fi| && FreeList(UseFlags(r.img.inodes), 1) == fi[|comps|..]
  {
    var tb := TakeBlock(img);
    if tb.index != -1 {
      var ti := TakeInode(tb.img);
      if ti.index != -1 {
        var r := AddDirs(ti.img, comps, 0, 0, tb.index, ti.index, content);
        assert Add(img, comps, Some(content)) == r;
        AddDirsConsumes(ti.img, comps, 0, 0, tb.index, ti.index, content);
        AddDirsTakesInodes(ti.img, comps, 0, 0, tb.index, ti.index, content);
        if r.result.Added? {
          DropAfterHead(FreeList(img.bitmap, 0), FreeList(ti.img.bitmap, 0), |comps| - 1 + NumReads(|content|));
          DropAfterHead(FreeList(UseFlags(img.inodes), 1), FreeList(UseFlags(ti.img.inodes), 1), |comps| - 1);
        }
      }
    }
  }

  /** Dropping `k` more entries from a list whose head is already gone
      drops `k + 1` from the original. */
  lemma DropAfterHead(s: seq<int>, t: seq<int>, k: nat)
    requires 0 < |s| && t == s[1..] && k <= |t|
    ensures k + 1 <= |s| && t[k..] == s[k + 1..]
  {
  }

  /** After the first block and inode are taken, the root meets what the
      directory loop needs to leave a resolvable path behind. */
  lemma RootReady(img: Image, name: string)
    requires WellFormed(img) && Intact(img) && FreeInodesClean(img)
    requires SlotsAllocated(img, 0) && NameAbsent(img, 0, name)
    ensures var tb := TakeBlock(img);
      tb.index != -1 ==>
        var ti := TakeInode(tb.img);
        ti.index != -1 ==>
          0 < tb.index < NUM_BLOCKS && 0 < ti.index < NUM_INODES &&
          ti.img.bitmap[tb.index] == 1 && ti.img.bitmap[0] == 1 &&
          ti.img.inodes[0].inUse && ti.img.inodes[ti.index].inUse && NoSlots(ti.img, ti.index) &&
          FreeInodesClean(ti.img) &&
          SlotsAllocated(ti.img, 0) && Unlisted(ti.img, 0, tb.index) && NameAbsent(ti.img, 0, name)
  {
    AddStart(img);
  }

  /** On a filesystem whose root lists only used blocks and has no entry
      called like the first component, a successful add leaves a path that
      every later walk from the root follows to the new leaf. */
  lemma AddResolves(img: Image, comps: seq<string>, content: seq<byte>)
    requires WellFormed(img) && Intact(img) && FreeInodesClean(img) && 1 <= |comps| < MAX_DEPTH
    requires SlotsAllocated(img, 0) && NameAbsent(img, 0, comps[0])
    ensures var r := Add(img, comps, Some(content));
      r.result.Added? ==> 0 <= r.result.leaf < NUM_INODES && Leads(r.img, 0, comps, 1, r.result.leaf)
  {
    RootReady(img, comps[0]);
    var tb := TakeBlock(img);
    if tb.index != -1 {
      var ti := TakeInode(tb.img);
      if ti.index != -1 {
        AddDirsHolds(ti.img, comps, 0, 0, tb.index, ti.index, content);
        var k := 0;
        AddDirsResolves(ti.img, comps, k, 0, tb.index, ti.index, content);
        var r := AddDirs(ti.img, comps, 0, 0, tb.index, ti.index, content);
        assert r == Add(img, comps, Some(content));
        if r.result.Added? {
          LeadsAt(r.img, 0, comps, k + 1, 1, r.result.leaf);
        }
      }
    }
  }

  /** The failures `addFile` reports before touching any path component:
      no free block, then no free inode, then an unreadable source. */
  lemma AddFailsEarly(img: Image, comps: seq<string>, source: Option<seq<byte>>)
    requires WellFormed(img) && 1 <= |comps|
    ensures var r := Add(img, comps, source);
      (FreeList(img.bitmap, 0) == [] ==> r == AddOutcome(img, AddFailed(NoFreeBlock))) &&
      (FreeList(img.bitmap, 0) != [] && FreeList(UseFlags(img.inodes), 1) == [] ==>
         r.result == AddFailed(NoFreeInode) && FreeList(r.img.bitmap, 0) == FreeList(img.bitmap, 0)[1..]) &&
      (FreeList(img.bitmap, 0) != [] && FreeList(UseFlags(img.inodes), 1) != [] && source.None? ==>
         r.result == AddFailed(SourceUnreadable))
  {
  }

  /** The directory created at level `k` (inode `i`) ends up in use, typed
      as a directory, with the file's size added to what it had. */
  lemma AddDirsTyped(img: Image, comps: seq<string>, k: int, parent: int, b: int, i: int, content: seq<byte>)
    requires WellFormed(img) && 0 <= k < |comps| - 1
    requires 0 <= parent < NUM_INODES && 0 <= b < NUM_BLOCKS && 0 <= i < NUM_INODES
    requires parent != i
    ensures var r := AddDirs(img, comps, k, parent, b, i, content);
      r.result.Added? ==>
        r.img.inodes[i].inUse && r.img.inodes[i].fileType == 'd' &&
        r.img.inodes[i].fileSize == img.inodes[i].fileSize + |content|
  {
    var img1 := MakeDir(img, comps[k], b, i, |content|);
    var l := Link(img1, parent, b);
    if l.Some? {
      var tb := TakeBlock(l.value);
      if tb.index != -1 {
        var ti := TakeInode(tb.img);
        if ti.index != -1 {
          AddDirsInodes(ti.img, comps, k + 1, i, tb.index, ti.index, content);
        }
      }
    }
  }

  /** The content loop reports the inode it filled. */
  lemma AddContentLeaf(img: Image, name: string, parent: int, b: int, i: int, content: seq<byte>, readNum: int, left: int)
    requires WellFormed(img) && 0 <= parent < NUM_INODES && 0 <= b < NUM_BLOCKS && 0 <= i < NUM_INODES && 0 <= readNum
    ensures var r := AddContent(img, name, parent, b, i, content, readNum, left);
      r.result.Added? ==> r.result.leaf == i
  {
  }

  /** The directory loop reports an inode taken by `findINode`, never the root. */
  lemma {:induction false} AddDirsLeaf(img: Image, comps: seq<string>, k: int, parent: int, b: int, i: int, content: seq<byte>)
    requires WellFormed(img) && 0 <= k < |comps|
    requires 0 <= parent < NUM_INODES && 0 <= b < NUM_BLOCKS && 0 < i < NUM_INODES
    ensures var r := AddDirs(img, comps, k, parent, b, i, content);
      r.result.Added? ==> 0 < r.result.leaf < NUM_INODES
    decreases |comps| - k
  {
    if k == |comps| - 1 {
      AddContentLeaf(img, comps[k], parent, b, i, content, 0, NumReads(|content|));
    } else {
      var l := Link(MakeDir(img, comps[k], b, i, |content|), parent, b);
      if l.Some? {
        var tb := TakeBlock(l.value);
        if tb.index != -1 {
          var ti := TakeInode(tb.img);
          if ti.index != -1 {
            AddDirsLeaf(ti.img, comps, k + 1, i, tb.index, ti.index, content);
          }
        }
      }
    }
  }

  /** The content loop runs to the end when the leaf has a slot for every
      read left and that many blocks are free. */
  lemma {:induction false} StoreSucceeds(img: Image, i: int, b: int, content: seq<byte>, readNum: int, left: int)
    requires WellFormed(img) && 0 <= i < NUM_INODES && 0 <= b < NUM_BLOCKS && 0 <= readNum
    requires readNum + left <= NUM_SLOTS && left <= |FreeList(img.bitmap, 0)|
    ensures StoreContent(img, i, b, content, readNum, left).failure.None?
    decreases left
  {
    if left > 0 {
      var tb := TakeBlock(StoreChunk(img, i, b, content, readNum));
      StoreSucceeds(tb.img, i, tb.index, content, readNum + 1, left - 1);
    }
  }

  /** The content loop only runs to the end when the leaf has a slot for
      every read left; otherwise it stops with `TooLarge` or earlier. */
  lemma {:induction false} StoreNeeds(img: Image, i: int, b: int, content: seq<byte>, readNum: int, left: int)
    requires WellFormed(img) && 0 <= i < NUM_INODES && 0 <= b < NUM_BLOCKS && 0 <= readNum <= NUM_SLOTS && 0 <= left
    ensures StoreContent(img, i, b, content, readNum, left).failure.None? ==> readNum + left <= NUM_SLOTS
    decreases left
  {
    if left > 0 && readNum < NUM_SLOTS {
      var tb := TakeBlock(StoreChunk(img, i, b, content, readNum));
      if tb.index != -1 {
        StoreNeeds(tb.img, i, tb.index, content, readNum + 1, left - 1);
      }
    }
  }

  /** The content loop and the link succeed exactly when the file needs at
      most one block per slot, enough blocks are free for its reads, and
      the parent has an empty slot. */
  lemma AddContentSucceeds(img: Image, name: string, parent: int, b: int, i: int, content: seq<byte>)
    requires WellFormed(img) && 0 <= parent < NUM_INODES && 0 <= b < NUM_BLOCKS && 0 <= i < NUM_INODES
    requires parent != i
    ensures var r := AddContent(img, name, parent, b, i, content, 0, NumReads(|content|));
      (NumReads(|content|) <= NUM_SLOTS && NumReads(|content|) <= |FreeList(img.bitmap, 0)| &&
       FirstFree(img.inodes[parent].dataBlocks, 0) != -1) ==> r.result.Added?
    ensures var r := AddContent(img, name, parent, b, i, content, 0, NumReads(|content|));
      r.result.Added? ==> NumReads(|content|) <= NUM_SLOTS && FirstFree(img.inodes[parent].dataBlocks, 0) != -1
  {
    var n := NumReads(|content|);
    StoreNeeds(img, i, b, content, 0, n);
    StoreInodeAt(img, i, b, content, 0, n, parent);
    if n <= NUM_SLOTS && n <= |FreeList(img.bitmap, 0)| {
      StoreSucceeds(img, i, b, content, 0, n);
    }
    var s := StoreContent(img, i, b, content, 0, n);
    assert FinishLeaf(s.img, name, s.b, i, |content|).inodes[parent] == img.inodes[parent];
  }

  /** From component `k` on, the directory loop and what follows succeed
      when the parent has an empty slot, the file needs at most one block
      per slot, and enough blocks and inodes are free for the remaining
      levels and the reads; every directory it creates starts empty. */
  lemma {:induction false} AddDirsSucceeds(img: Image, comps: seq<string>, k: int, parent: int, b: int, i: int, content: seq<byte>)
    requires WellFormed(img) && 0 <= k < |comps|
    requires 0 <= parent < NUM_INODES && 0 <= b < NUM_BLOCKS && 0 <= i < NUM_INODES
    requires parent != i && img.inodes[parent].inUse && img.inodes[i].inUse && NoSlots(img, i)
    requires FreeInodesClean(img) && FirstFree(img.inodes[parent].dataBlocks, 0) != -1
    requires NumReads(|content|) <= NUM_SLOTS
    requires |comps| - 1 - k + NumReads(|content|) <= |FreeList(img.bitmap, 0)|
    requires |comps| - 1 - k <= |FreeList(UseFlags(img.inodes), 1)|
    ensures AddDirs(img, comps, k, parent, b, i, content).result.Added?
    decreases |comps| - k
  {
    if k == |comps| - 1 {
      AddContentSucceeds(img, comps[k], parent, b, i, content);
    } else {
      var img1 := MakeDir(img, comps[k], b, i, |content|);
      assert img1.inodes[parent] == img.inodes[parent];
      var img2 := Link(img1, parent, b).value;
      UseFlagsSame(img.inodes, img2.inodes);
      var tb := TakeBlock(img2);
      var ti := TakeInode(tb.img);
      assert forall x :: 0 <= x < NUM_INODES && !tb.img.inodes[x].inUse ==> tb.img.inodes[x] == img.inodes[x];
      assert forall x :: 0 <= x < NUM_INODES && !ti.img.inodes[x].inUse ==> ti.img.inodes[x] == img.inodes[x];
      assert ti.img.inodes[i] == img1.inodes[i];
      assert FirstFree(ti.img.inodes[i].dataBlocks, 0) != -1 by {
        assert ti.img.inodes[i].dataBlocks[0] == 0;
      }
      AddDirsSucceeds(ti.img, comps, k + 1, i, tb.index, ti.index, content);
    }
  }

  /** From component `k` on, success needs an empty slot in the parent and
      at most one block per slot for the file. */
  lemma {:induction false} AddDirsNeeds(img: Image, comps: seq<string>, k: int, parent: int, b: int, i: int, content: seq<byte>)
    requires WellFormed(img) && 0 <= k < |comps|
    requires 0 <= parent < NUM_INODES && 0 <= b < NUM_BLOCKS && 0 <= i < NUM_INODES && parent != i
    ensures AddDirs(img, comps, k, parent, b, i, content).result.Added? ==>
      NumReads(|content|) <= NUM_SLOTS && FirstFree(img.inodes[parent].dataBlocks, 0) != -1
    decreases |comps| - k
  {
    if k == |comps| - 1 {
      AddContentSucceeds(img, comps[k], parent, b, i, content);
    } else {
      var img1 := MakeDir(img, comps[k], b, i, |content|);
      assert img1.inodes[parent] == img.inodes[parent];
      assert AddDirs(img, comps, k, parent, b, i, content) == AddDirLevel(img, comps, k, parent, b, i, content);
      var l := Link(img1, parent, b);
      if l.Some? {
        var tb := TakeBlock(l.value);
        if tb.index != -1 {
          var ti := TakeInode(tb.img);
          if ti.index != -1 {
            AddDirsNeeds(ti.img, comps, k + 1, i, tb.index, ti.index, content);
          }
        }
      }
    }
  }

  /** What an add needs: a file of at most one block per slot, an empty
      slot in the root, and free blocks and inodes for every component and
      every read. */
  ghost predicate Room(img: Image, comps: seq<string>, content: seq<byte>)
    requires WellFormed(img)
  {
    NumReads(|content|) <= NUM_SLOTS &&
    FirstFree(img.inodes[0].dataBlocks, 0) != -1 &&
    |comps| + NumReads(|content|) <= |FreeList(img.bitmap, 0)| &&
    |comps| <= |FreeList(UseFlags(img.inodes), 1)|
  }

  /** On a filesystem whose root is in use and whose unused inodes are
      empty, an add of readable bytes succeeds exactly when there is room
      for it. */
  lemma AddSucceeds(img: Image, comps: seq<string>, content: seq<byte>)
    requires WellFormed(img) && 1 <= |comps|
    requires img.inodes[0].inUse && FreeInodesClean(img)
    ensures Add(img, comps, Some(content)).result.Added? <==> Room(img, comps, content)
  {
    var tb := TakeBlock(img);
    AddConsumes(img, comps, content);
    if tb.index != -1 {
      var ti := TakeInode(tb.img);
      if ti.index != -1 {
        AddDirsNeeds(ti.img, comps, 0, 0, tb.index, ti.index, content);
        assert ti.img.inodes[0] == img.inodes[0];
        if Room(img, comps, content) {
          assert ti.img.inodes[ti.index] == img.inodes[ti.index].(inUse := true);
          assert forall x :: 0 <= x < NUM_INODES && !ti.img.inodes[x].inUse ==> ti.img.inodes[x] == img.inodes[x];
          AddDirsSucceeds(ti.img, comps, 0, 0, tb.index, ti.index, content);
        }
      }
    }
  }

  /** A freshly formatted filesystem has room for any path of fewer than
      100 components and any file of fewer than 100 blocks' worth of bytes,
      and for no larger file. */
  lemma FreshRoom(comps: seq<string>, content: seq<byte>)
    requires 1 <= |comps| < MAX_DEPTH
    ensures WellFormed(ZeroImage())
    ensures Room(Format(ZeroImage()), comps, content) <==> |content| < NUM_SLOTS * BLOCK_SIZE
  {
    FormatFresh();
    var f := Format(ZeroImage());
    FreeListSkip(f.bitmap, 0, 1);
    FreeListAll(f.bitmap, 1);
    var flags := UseFlags(f.inodes);
    FreeListAll(flags, 1);
    assert f.inodes[0].dataBlocks[0] == 0;
  }

  /** Adding a file and then looking its path up from the root, whatever the
      globals hold, finds the new leaf, which is not the root, and reading
      it returns exactly the bytes added. */
  lemma AddThenExtract(img: Image, comps: seq<string>, content: seq<byte>, g: Lookup)
    requires WellFormed(img) && Intact(img) && FreeInodesClean(img) && 1 <= |comps| < MAX_DEPTH
    requires SlotsAllocated(img, 0) && NameAbsent(img, 0, comps[0]) && LookupOk(g)
    ensures var r := Add(img, comps, Some(content));
      r.result.Added? ==>
        var f := Find(r.img, 0, comps, 1, g);
        f.node == r.result.leaf && f.node != 0 && ReadFile(r.img, f.node) == Ok(content)
  {
    AddResolves(img, comps, content);
    AddExtracts(img, comps, content);
    AddStart(img);
    var tb := TakeBlock(img);
    if tb.index != -1 {
      var ti := TakeInode(tb.img);
      if ti.index != -1 {
        AddDirsLeaf(ti.img, comps, 0, 0, tb.index, ti.index, content);
      }
    }
  }

  /** On a freshly formatted filesystem, adding a file succeeds exactly
      when it is under 51200 bytes; then looking its path up from the root,
      whatever the globals hold, finds the new leaf, and reading it returns
      exactly the bytes added. */
  lemma FreshAddThenExtract(comps: seq<string>, content: seq<byte>, g: Lookup)
    requires 1 <= |comps| < MAX_DEPTH && LookupOk(g)
    ensures WellFormed(ZeroImage())
    ensures var r := Add(Format(ZeroImage()), comps, Some(content));
      (r.result.Added? <==> |content| < NUM_SLOTS * BLOCK_SIZE) &&
      (r.result.Added? ==>
        var f := Find(r.img, 0, comps, 1, g);
        f.node == r.result.leaf && f.node != 0 && ReadFile(r.img, f.node) == Ok(content))
  {
    FormatFresh();
    FreshRoom(comps, content);
    AddSucceeds(Format(ZeroImage()), comps, content);
    AddThenExtract(Format(ZeroImage()), comps, content, g);
  }
}
