/** The mapped filesystem as the program holds it: the superblock, the
    free-block bitmap, the inode table and the data blocks, updated in
    place, and the three globals through which `findFile` reports. Every
    operation is proved to leave exactly the state its specification
    function computes from the state before. */
module FileSystem {
  import opened Layout
  import opened FreeLists
  import opened Allocation
  import opened Paths
  import opened Extraction
  import opened Resolution
  import opened Formatting
  import opened Ingestion
  import opened Removal
  import opened Listing

  /** `Ok(acc + v)` for `Ok(v)`; errors pass through. */
  function Prepend(acc: seq<byte>, r: Result<seq<byte>, ExtractError>): Result<seq<byte>, ExtractError> {
    match r
    case Ok(v) => Ok(acc + v)
    case Err(e) => Err(e)
  }

  lemma PrependAppend(acc: seq<byte>, part: seq<byte>, r: Result<seq<byte>, ExtractError>)
    ensures Prepend(acc, Prepend(part, r)) == Prepend(acc + part, r)
  {
    if r.Ok? {
      assert acc + (part + r.value) == (acc + part) + r.value;
    }
  }

  class FileSystem {
    var sb: Superblock
    /** `FBL->freeBlocks`: 0 free, anything else used. */
    const bitmap: array<int>
    /** `INODES`. */
    const inodes: array<Inode>
    /** `BLOCKS`. */
    const blocks: array<Block>
    /** The inode the last lookup found. */
    var node: int
    /** The inode matched at each intermediate depth of the last lookup. */
    const parentDir: array<int>
    /** The root slot scanned last at depth 1. */
    var initialRefBlock: int

    ghost predicate Valid()
      reads this, bitmap, inodes, blocks, parentDir
    {
      bitmap.Length == NUM_BLOCKS && inodes.Length == NUM_INODES &&
      blocks.Length == NUM_BLOCKS && parentDir.Length == MAX_DEPTH &&
      bitmap != parentDir &&
      WellFormed(Disk()) && LookupOk(Globals())
    }

    /** The mapped region as a value. */
    ghost function Disk(): Image
      reads this, bitmap, inodes, blocks
    {
      Image(sb, bitmap[..], inodes[..], blocks[..])
    }

    /** The globals as a value. */
    ghost function Globals(): Lookup
      reads this, parentDir
    {
      Lookup(node, parentDir[..], initialRefBlock)
    }

    /** Mapping a backing file whose contents are `img`, with the globals `g`. */
    constructor Mount(img: Image, g: Lookup)
      requires WellFormed(img) && LookupOk(g)
      ensures Valid() && Disk() == img && Globals() == g
    {
      sb := img.sb;
      bitmap := new int[NUM_BLOCKS](v requires 0 <= v < NUM_BLOCKS => img.bitmap[v]);
      inodes := new Inode[NUM_INODES](i requires 0 <= i < NUM_INODES => img.inodes[i]);
      blocks := new Block[NUM_BLOCKS](v requires 0 <= v < NUM_BLOCKS => img.blocks[v]);
      node := g.node;
      parentDir := new int[MAX_DEPTH](j requires 0 <= j < MAX_DEPTH => g.parentDir[j]);
      initialRefBlock := g.initialRefBlock;
      new;
      assert bitmap[..] == img.bitmap;
      assert inodes[..] == img.inodes;
      assert blocks[..] == img.blocks;
      assert parentDir[..] == g.parentDir;
    }

    /** `formatfs`. */
    method Format()
      requires Valid()
      modifies this, bitmap, inodes, blocks
      ensures Valid() && Disk() == Formatting.Format(old(Disk())) && Globals() == old(Globals())
    {
      ghost var img := Disk();
      sb := Superblock(NUM_BLOCKS, BLOCK_SIZE, NUM_INODES);
      var i := 1;
      while i < NUM_BLOCKS
        modifies bitmap
        invariant 1 <= i <= NUM_BLOCKS
        invariant bitmap[0] == img.bitmap[0]
        invariant forall v :: 1 <= v < i ==> bitmap[v] == 0
      {
        bitmap[i] := 0;
        i := i + 1;
      }
      i := 1;
      while i < NUM_INODES
        modifies inodes
        invariant 1 <= i <= NUM_INODES
        invariant inodes[0] == img.inodes[0]
        invariant forall x :: 1 <= x < i ==> inodes[x] == img.inodes[x].(inUse := false)
        invariant forall x :: i <= x < NUM_INODES ==> inodes[x] == img.inodes[x]
      {
        inodes[i] := inodes[i].(inUse := false);
        i := i + 1;
      }
      bitmap[0] := 1;
      var root := inodes[0];
      inodes[0] := root.(inUse := true, fileType := 'd', fileSize := 0, dataBlocks := root.dataBlocks[0 := 0]);
      blocks[0] := Entry("root", 0);
      ghost var f := Formatting.Format(img);
      assert bitmap[..] == f.bitmap;
      assert inodes[..] == f.inodes;
      assert blocks[..] == f.blocks;
    }

    /** `findBlock`: the lowest free block is marked used and returned; -1
        when every block is used. */
    method FindBlock() returns (index: int)
      requires Valid()
      modifies bitmap
      ensures Valid() && Globals() == old(Globals())
      ensures var t := TakeBlock(old(Disk())); index == t.index && Disk() == t.img
    {
      var block := 0;
      while block < NUM_BLOCKS
        invariant 0 <= block <= NUM_BLOCKS
        invariant forall v :: 0 <= v < block ==> bitmap[v] != 0
      {
        if bitmap[block] == 0 {
          bitmap[block] := 1;
          assert bitmap[..] == old(bitmap[..])[block := 1];
          return block;
        }
        block := block + 1;
      }
      return -1;
    }

    /** `findINode`: the lowest unused inode from 1 on is marked in use and
        returned; -1 stands for the program exiting when the table is full. */
    method FindINode() returns (index: int)
      requires Valid()
      modifies inodes
      ensures Valid() && Globals() == old(Globals())
      ensures var t := TakeInode(old(Disk())); index == t.index && Disk() == t.img
    {
      ghost var flags := UseFlags(inodes[..]);
      var i := 1;
      while i < NUM_INODES
        invariant 1 <= i <= NUM_INODES
        invariant forall x :: 1 <= x < i ==> flags[x] != 0
      {
        if !inodes[i].inUse {
          inodes[i] := inodes[i].(inUse := true);
          assert inodes[..] == old(inodes[..])[i := old(inodes[i]).(inUse := true)];
          return i;
        }
        i := i + 1;
      }
      return -1;
    }

    /** `findReference`: the lowest empty slot of inode `ino`, or -1 when
        all are taken. */
    method FindReference(ino: int) returns (ref: int)
      requires Valid() && 0 <= ino < NUM_INODES
      ensures ref == -1 <==> forall k :: 0 <= k < NUM_SLOTS ==> inodes[ino].dataBlocks[k] != 0
      ensures ref != -1 ==> 0 <= ref < NUM_SLOTS && inodes[ino].dataBlocks[ref] == 0 &&
                            forall k :: 0 <= k < ref ==> inodes[ino].dataBlocks[k] != 0
      ensures ref == FirstFree(inodes[ino].dataBlocks, 0)
    {
      var slots := inodes[ino].dataBlocks;
      ref := 0;
      while ref < NUM_SLOTS
        invariant 0 <= ref <= NUM_SLOTS
        invariant forall k :: 0 <= k < ref ==> slots[k] != 0
      {
        if slots[ref] == 0 {
          return;
        }
        ref := ref + 1;
      }
      ref := -1;
    }

    /** `findFile(cur, |path|, depth, path)`: the globals end up as the walk
        `Find` computes; the disk is only read. */
    method FindFile(cur: int, path: seq<string>, depth: int) returns (found: int)
      requires Valid() && 0 <= cur < NUM_INODES && 1 <= depth <= |path| < MAX_DEPTH
      modifies this, parentDir
      ensures Valid() && Disk() == old(Disk())
      ensures Globals() == Find(old(Disk()), cur, path, depth, old(Globals()))
      ensures found == 0 || found == Globals().node
      decreases |path| - depth
    {
      ghost var img := Disk();
      ghost var target := Find(img, cur, path, depth, Globals());
      if !inodes[cur].inUse {
        return 0;
      }
      var dataBlock := 0;
      while dataBlock < NUM_SLOTS
        invariant 0 <= dataBlock <= NUM_SLOTS
        invariant Valid() && Disk() == img
        invariant target == Scan(img, cur, path, depth, dataBlock, Globals())
      {
        var curBlock := inodes[cur].dataBlocks[dataBlock];
        if curBlock != 0 {
          var dir := blocks[curBlock];
          if depth == 1 {
            initialRefBlock := dataBlock;
          }
          if dir.Entry? && dir.name == path[depth - 1] {
            if depth == |path| {
              node := dir.inode;
              return node;
            }
            parentDir[depth] := dir.inode;
            var _ := FindFile(dir.inode, path, depth + 1);
          }
        }
        dataBlock := dataBlock + 1;
      }
      return 0;
    }

    /** `lsfs(ino, indent)`, returning the lines it prints, with the
        recursion cut off after `fuel` nested directories. */
    method Ls(ino: int, indent: int, fuel: nat) returns (rows: seq<Row>)
      requires Valid() && 0 <= ino < NUM_INODES
      ensures rows == List(Disk(), ino, indent, fuel)
      decreases fuel, 2
    {
      if fuel == 0 || !inodes[ino].inUse {
        return [];
      }
      var head := [];
      if ino == 0 {
        head := if blocks[0].Entry? then [RootLine(Some(blocks[0].name))] else [RootLine(None)];
      }
      var slots := LsSlots(ino, indent, fuel);
      rows := head + slots;
    }

    /** The slot loop of `lsfs`. */
    method LsSlots(ino: int, indent: int, fuel: nat) returns (rows: seq<Row>)
      requires Valid() && 0 <= ino < NUM_INODES && fuel > 0
      ensures rows == ListSlots(Disk(), ino, indent, 0, fuel)
      decreases fuel, 1
    {
      ghost var d := Disk();
      rows := [];
      var dataBlock := 0;
      while dataBlock < NUM_SLOTS
        invariant 0 <= dataBlock <= NUM_SLOTS
        invariant ListSlots(d, ino, indent, 0, fuel) == rows + ListSlots(d, ino, indent, dataBlock, fuel)
      {
        var here := LsSlot(ino, indent, dataBlock, fuel);
        var rest := ListSlots(d, ino, indent, dataBlock + 1, fuel);
        assert rows + (here + rest) == (rows + here) + rest;
        rows := rows + here;
        dataBlock := dataBlock + 1;
      }
    }

    /** One pass of the slot loop of `lsfs`: nothing for an empty slot,
        otherwise the slot's line followed by the listing of the directory
        it names. */
    method LsSlot(ino: int, indent: int, slot: int, fuel: nat) returns (rows: seq<Row>)
      requires Valid() && 0 <= ino < NUM_INODES && 0 <= slot < NUM_SLOTS && fuel > 0
      ensures ListSlots(Disk(), ino, indent, slot, fuel) == rows + ListSlots(Disk(), ino, indent, slot + 1, fuel)
      decreases fuel, 0
    {
      var curBlock := inodes[ino].dataBlocks[slot];
      if curBlock == 0 {
        return [];
      }
      var dir := blocks[curBlock];
      if dir.Entry? {
        rows := [Listed(indent, dir.name, dir.inode, inodes[dir.inode].fileSize)];
        if inodes[dir.inode].fileType == 'd' {
          var below := Ls(dir.inode, indent + 1, fuel - 1);
          rows := rows + below;
        }
      } else {
        rows := [Garbled(indent)];
      }
    }

    /** The slot loop of `removeFile`: from slot 0, free each listed block
        and clear its slot, up to the first empty slot. */
    method ReleaseSlots(ino: int)
      requires Valid() && 0 <= ino < NUM_INODES
      modifies bitmap, inodes
      ensures Valid() && Globals() == old(Globals())
      ensures Disk() == Release(old(Disk()), ino, 0)
    {
      var j := 0;
      while j < NUM_SLOTS
        invariant 0 <= j <= NUM_SLOTS && Valid()
        invariant Release(Disk(), ino, j) == Release(old(Disk()), ino, 0)
      {
        var b := inodes[ino].dataBlocks[j];
        if b == 0 {
          break;
        }
        ghost var before := Disk();
        bitmap[b] := 0;
        var n := inodes[ino];
        inodes[ino] := n.(dataBlocks := n.dataBlocks[j := 0]);
        assert Disk() == SetSlot(before.(bitmap := before.bitmap[b := 0]), ino, j, 0);
        j := j + 1;
      }
    }

    /** The leaf's step of `removeFile`: unused, size 0, blocks released. */
    method UnlinkNode(ino: int)
      requires Valid() && 0 <= ino < NUM_INODES
      modifies bitmap, inodes
      ensures Valid() && Globals() == old(Globals())
      ensures Disk() == Unlink(old(Disk()), ino)
    {
      var n := inodes[ino];
      inodes[ino] := n.(inUse := false, fileSize := 0);
      ReleaseSlots(ino);
    }

    /** One pass of the ancestor loop of `removeFile` on directory `a`. */
    method SettleDir(a: int, size: int)
      requires Valid() && 0 <= a < NUM_INODES
      modifies bitmap, inodes
      ensures Valid() && Globals() == old(Globals())
      ensures Disk() == Settle(old(Disk()), a, size)
    {
      var an := inodes[a];
      inodes[a] := an.(fileSize := an.fileSize - size);
      if an.fileSize - size == 0 {
        inodes[a] := inodes[a].(inUse := false);
        ReleaseSlots(a);
      }
    }

    /** The ancestor loop of `removeFile`: `i` from `depth - 1` down to 1. */
    method SettleAncestors(depth: int, size: int)
      requires Valid() && 1 <= depth <= MAX_DEPTH
      modifies bitmap, inodes
      ensures Valid() && Globals() == old(Globals())
      ensures Disk() == Ancestors(old(Disk()), Globals().parentDir, depth - 1, size)
    {
      ghost var target := Ancestors(Disk(), parentDir[..], depth - 1, size);
      var i := depth - 1;
      while i > 0
        invariant 0 <= i <= depth - 1
        invariant Valid() && Globals() == old(Globals())
        invariant target == Ancestors(Disk(), parentDir[..], i, size)
      {
        SettleDir(parentDir[i], size);
        i := i - 1;
      }
    }

    /** The root check at the end of `removeFile`. */
    method CheckRoot()
      requires Valid()
      modifies bitmap, inodes
      ensures Valid() && Globals() == old(Globals())
      ensures Disk() == RootCheck(old(Disk()), initialRefBlock)
    {
      var initialDirBlock := inodes[0].dataBlocks[initialRefBlock];
      var dir := blocks[initialDirBlock];
      if dir.Entry? && inodes[dir.inode].fileSize == 0 {
        ghost var before := Disk();
        var root := inodes[0];
        inodes[0] := root.(dataBlocks := root.dataBlocks[initialRefBlock := 0]);
        bitmap[initialDirBlock] := 0;
        assert Disk() == SetSlot(before.(bitmap := before.bitmap[initialDirBlock := 0]), 0, initialRefBlock, 0);
      }
    }

    /** `removeFile(path)`: look the path up from the root; when nothing is
        found (`node` is still 0) report it and change nothing, otherwise
        release the node, settle its ancestors and check the root slot. */
    method RemoveFile(path: string) returns (removed: bool)
      requires Valid() && |Split(path)| < MAX_DEPTH
      modifies this, bitmap, inodes, parentDir
      ensures Valid() && Globals() == Find(old(Disk()), 0, Split(path), 1, old(Globals()))
      ensures removed <==> Globals().node != 0
      ensures removed ==> Disk() == Remove(old(Disk()), Globals(), |Split(path)|)
      ensures !removed ==> Disk() == old(Disk())
    {
      var comps := Split(path);
      var _ := FindFile(0, comps, 1);
      if node == 0 {
        return false;
      }
      RemoveFound(|comps|);
      return true;
    }

    /** The rest of `removeFile`, once the lookup at depth `depth` found
        `node`: release it, settle its ancestors and check the root slot. */
    method RemoveFound(depth: int)
      requires Valid() && 1 <= depth <= MAX_DEPTH
      modifies bitmap, inodes
      ensures Valid() && Globals() == old(Globals())
      ensures Disk() == Remove(old(Disk()), Globals(), depth)
    {
      ghost var d := Disk();
      ghost var g := Globals();
      var fileSize := inodes[node].fileSize;
      UnlinkNode(node);
      ghost var unlinked := Disk();
      SettleAncestors(depth, fileSize);
      ghost var settled := Disk();
      assert settled == Ancestors(unlinked, g.parentDir, depth - 1, fileSize);
      CheckRoot();
      assert Remove(d, g, depth) == RootCheck(settled, g.initialRefBlock);
    }

    /** The read loop of `extractFile` for inode `ino`: `fileSize / 512 + 1`
        reads, whole blocks while at least a block's worth is left, then the
        remainder. */
    method Emit(ino: int) returns (out: Result<seq<byte>, ExtractError>)
      requires Valid() && 0 <= ino < NUM_INODES
      ensures out == ReadFile(Disk(), ino)
    {
      ghost var d := Disk();
      var fileSize := inodes[ino].fileSize;
      if fileSize < 0 {
        return Err(Unreadable);
      }
      var numReads := fileSize / BLOCK_SIZE + 1;
      var size := fileSize;
      var bytes: seq<byte> := [];
      var i := 0;
      ghost var first := ReadFrom(d, ino, 0, size);
      if first.Ok? {
        assert [] + first.value == first.value;
      }
      while i < numReads
        invariant 0 <= i <= numReads && size == fileSize - BLOCK_SIZE * i
        invariant i < numReads ==> ReadFile(d, ino) == Prepend(bytes, ReadFrom(d, ino, i, size))
        invariant i == numReads ==> ReadFile(d, ino) == Ok(bytes)
      {
        var part: seq<byte>;
        if i >= NUM_SLOTS {
          // Past the block list only an empty write succeeds.
          if size != 0 {
            return Err(Unreadable);
          }
          part := [];
        } else {
          var curBlock := inodes[ino].dataBlocks[i];
          var want := if size < BLOCK_SIZE then size else BLOCK_SIZE;
          var blk := blocks[curBlock];
          if want > 0 && !(blk.Data? && |blk.bytes| >= want) {
            return Err(Unreadable);
          }
          part := if want == 0 then [] else blk.bytes[..want];
        }
        assert size < BLOCK_SIZE <==> i + 1 == numReads;
        if size >= BLOCK_SIZE {
          PrependAppend(bytes, part, ReadFrom(d, ino, i + 1, size - BLOCK_SIZE));
        }
        bytes := bytes + part;
        size := size - BLOCK_SIZE;
        i := i + 1;
      }
      return Ok(bytes);
    }

    /** `extractFile(path)`: look the path up from the root and emit the
        found inode's bytes; `NotFound` when `node` is still 0. */
    method ExtractFile(path: string) returns (out: Result<seq<byte>, ExtractError>)
      requires Valid() && |Split(path)| < MAX_DEPTH
      modifies this, parentDir
      ensures Valid() && Disk() == old(Disk())
      ensures Globals() == Find(old(Disk()), 0, Split(path), 1, old(Globals()))
      ensures out == if Globals().node == 0 then Err(NotFound) else ReadFile(Disk(), Globals().node)
    {
      var comps := Split(path);
      var _ := FindFile(0, comps, 1);
      if node == 0 {
        return Err(NotFound);
      }
      out := Emit(node);
    }

    /** `addFile(path)` with the bytes of the source file (`None` when it
        cannot be opened): a block and an inode are taken first, then the
        directory loop, the content loop and the leaf's entry follow. */
    method AddFile(path: string, source: Option<seq<byte>>) returns (result: AddResult)
      requires Valid() && |Split(path)| < MAX_DEPTH
      modifies bitmap, inodes, blocks
      ensures Valid() && Globals() == old(Globals())
      ensures var r := Add(old(Disk()), Split(path), source); Disk() == r.img && result == r.result
    {
      var emptyBlock := FindBlock();
      if emptyBlock == -1 {
        return AddFailed(NoFreeBlock);
      }
      var emptyINode := FindINode();
      if emptyINode == -1 {
        return AddFailed(NoFreeInode);
      }
      if source.None? {
        return AddFailed(SourceUnreadable);
      }
      result := AddLevels(Split(path), emptyBlock, emptyINode, source.value);
    }

    /** The directory loop of `addFile`, from the first component, with the
        block `b` and inode `i` already taken for it; then the content loop. */
    method AddLevels(comps: seq<string>, b: int, i: int, content: seq<byte>) returns (result: AddResult)
      requires Valid() && 1 <= |comps| && 0 <= b < NUM_BLOCKS && 0 <= i < NUM_INODES
      modifies bitmap, inodes, blocks
      ensures Valid() && Globals() == old(Globals())
      ensures var r := AddDirs(old(Disk()), comps, 0, 0, b, i, content); Disk() == r.img && result == r.result
    {
      ghost var target := AddDirs(Disk(), comps, 0, 0, b, i, content);
      var emptyBlock, emptyINode := b, i;
      var parentNode := 0;
      var depthIndex := 0;
      while depthIndex < |comps| - 1
        invariant 0 <= depthIndex < |comps| && Valid() && Globals() == old(Globals())
        invariant 0 <= parentNode < NUM_INODES && 0 <= emptyBlock < NUM_BLOCKS && 0 <= emptyINode < NUM_INODES
        invariant target == AddDirs(Disk(), comps, depthIndex, parentNode, emptyBlock, emptyINode, content)
        decreases |comps| - depthIndex
      {
        MakeDirEntry(comps[depthIndex], emptyBlock, emptyINode, |content|);
        var ok := LinkInto(parentNode, emptyBlock);
        if !ok {
          return AddFailed(NoFreeSlot);
        }
        parentNode := emptyINode;
        emptyBlock := FindBlock();
        if emptyBlock == -1 {
          return AddFailed(NoFreeBlock);
        }
        emptyINode := FindINode();
        if emptyINode == -1 {
          return AddFailed(NoFreeInode);
        }
        depthIndex := depthIndex + 1;
      }
      result := AddLeaf(comps[depthIndex], parentNode, emptyBlock, emptyINode, content);
    }

    /** The content loop of `addFile` and the leaf's entry: `|content| / 512
        + 1` reads into freshly taken blocks, then the leaf is typed, sized
        and linked into `parent`. */
    method AddLeaf(name: string, parent: int, b: int, i: int, content: seq<byte>) returns (result: AddResult)
      requires Valid() && 0 <= parent < NUM_INODES && 0 <= b < NUM_BLOCKS && 0 <= i < NUM_INODES
      modifies bitmap, inodes, blocks
      ensures Valid() && Globals() == old(Globals())
      ensures var r := AddContent(old(Disk()), name, parent, b, i, content, 0, NumReads(|content|));
        Disk() == r.img && result == r.result
    {
      ghost var target := AddContent(Disk(), name, parent, b, i, content, 0, NumReads(|content|));
      var emptyBlock := b;
      var readNum := 0;
      var numReads := |content| / BLOCK_SIZE + 1;
      while numReads > 0
        invariant 0 <= readNum && Valid() && Globals() == old(Globals())
        invariant 0 <= emptyBlock < NUM_BLOCKS
        invariant target == AddContent(Disk(), name, parent, emptyBlock, i, content, readNum, numReads)
      {
        if readNum >= NUM_SLOTS {
          return AddFailed(TooLarge);
        }
        ghost var stored := StoreChunk(Disk(), i, emptyBlock, content, readNum);
        StoreChunkAt(i, emptyBlock, content, readNum);
        readNum := readNum + 1;
        numReads := numReads - 1;
        emptyBlock := FindBlock();
        if emptyBlock == -1 {
          return AddFailed(NoFreeBlock);
        }
        assert target == AddContent(TakeBlock(stored).img, name, parent, emptyBlock, i, content, readNum, numReads);
      }
      result := LinkLeaf(name, parent, emptyBlock, i, |content|);
    }

    /** The end of `addFile`: the leaf's size, type and entry in block `b`,
        linked into `parent`. */
    method LinkLeaf(name: string, parent: int, b: int, i: int, n: int) returns (result: AddResult)
      requires Valid() && 0 <= parent < NUM_INODES && 0 <= b < NUM_BLOCKS && 0 <= i < NUM_INODES
      modifies inodes, blocks
      ensures Valid() && Globals() == old(Globals())
      ensures var l := Link(FinishLeaf(old(Disk()), name, b, i, n), parent, b);
        if l.None? then Disk() == FinishLeaf(old(Disk()), name, b, i, n) && result == AddFailed(NoFreeSlot)
        else Disk() == l.value && result == Added(i)
    {
      FinishLeafAt(name, b, i, n);
      var ok := LinkInto(parent, b);
      if !ok {
        return AddFailed(NoFreeSlot);
      }
      return Added(i);
    }

    /** An intermediate directory's entry in block `b` and its inode `i`. */
    method MakeDirEntry(name: string, b: int, i: int, n: int)
      requires Valid() && 0 <= b < NUM_BLOCKS && 0 <= i < NUM_INODES
      modifies inodes, blocks
      ensures Valid() && Globals() == old(Globals())
      ensures Disk() == MakeDir(old(Disk()), name, b, i, n)
    {
      blocks[b] := Entry(name, i);
      var ino := inodes[i];
      inodes[i] := ino.(fileType := 'd', inUse := true, fileSize := ino.fileSize + n);
      assert blocks[..] == old(blocks[..])[b := Entry(name, i)];
    }

    /** One read of the content loop: the next chunk into block `b`, listed
        in slot `readNum` of the leaf `i`. */
    method StoreChunkAt(i: int, b: int, content: seq<byte>, readNum: int)
      requires Valid() && 0 <= i < NUM_INODES && 0 <= b < NUM_BLOCKS && 0 <= readNum < NUM_SLOTS
      modifies inodes, blocks
      ensures Valid() && Globals() == old(Globals())
      ensures Disk() == StoreChunk(old(Disk()), i, b, content, readNum)
    {
      blocks[b] := Data(Chunk(content, readNum));
      var ino := inodes[i];
      inodes[i] := ino.(dataBlocks := ino.dataBlocks[readNum := b]);
      assert blocks[..] == old(blocks[..])[b := Data(Chunk(content, readNum))];
    }

    /** The leaf's size, type and entry. */
    method FinishLeafAt(name: string, b: int, i: int, n: int)
      requires Valid() && 0 <= b < NUM_BLOCKS && 0 <= i < NUM_INODES
      modifies inodes, blocks
      ensures Valid() && Globals() == old(Globals())
      ensures Disk() == FinishLeaf(old(Disk()), name, b, i, n)
    {
      var leaf := inodes[i];
      inodes[i] := leaf.(fileSize := n, fileType := 'f');
      blocks[b] := Entry(name, i);
      assert blocks[..] == old(blocks[..])[b := Entry(name, i)];
    }

    /** `findReference(parent)` followed by the slot write of `addFile`;
        false when the parent has no empty slot. */
    method LinkInto(parent: int, b: int) returns (ok: bool)
      requires Valid() && 0 <= parent < NUM_INODES && 0 <= b < NUM_BLOCKS
      modifies inodes
      ensures Valid() && Globals() == old(Globals())
      ensures var l := Link(old(Disk()), parent, b);
        ok == l.Some? && Disk() == if ok then l.value else old(Disk())
    {
      var ref := FindReference(parent);
      if ref == -1 {
        return false;
      }
      ghost var before := Disk();
      var pn := inodes[parent];
      inodes[parent] := pn.(dataBlocks := pn.dataBlocks[ref := b]);
      assert Disk() == SetSlot(before, parent, ref, b);
      return true;
    }
  }
}
