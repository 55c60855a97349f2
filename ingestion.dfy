/** Ingestion (`addFile`) as a function on an image: the directory loop,
    the content loop, and the final link of the leaf into its parent. */
module Ingestion {
  import opened Layout
  import opened FreeLists
  import opened Allocation
  import opened Extraction

  datatype AddError =
    | NoFreeBlock        // findBlock returned -1
    | NoFreeInode        // findINode found the table full
    | NoFreeSlot         // findReference returned -1
    | SourceUnreadable   // fopen failed
    | TooLarge           // a 101st content block would be written

  datatype AddResult = Added(leaf: int) | AddFailed(error: AddError)

  /** The image after the call, and how it ended. Failures keep what was
      already written: nothing is rolled back. */
  datatype AddOutcome = AddOutcome(img: Image, result: AddResult)

  /** `addFile(path)` with the source's bytes (`None` when it cannot be opened). */
  function Add(img: Image, comps: seq<string>, source: Option<seq<byte>>): (r: AddOutcome)
    requires WellFormed(img) && 1 <= |comps|
    ensures WellFormed(r.img)
  {
    var tb := TakeBlock(img);
    if tb.index == -1 then AddOutcome(tb.img, AddFailed(NoFreeBlock))
    else
      var ti := TakeInode(tb.img);
      if ti.index == -1 then AddOutcome(ti.img, AddFailed(NoFreeInode))
      else if source.None? then AddOutcome(ti.img, AddFailed(SourceUnreadable))
      else AddDirs(ti.img, comps, 0, 0, tb.index, ti.index, source.value)
  }

  /** The directory loop at component `k`: block `b` and inode `i` are the
      ones already taken for this component, `parent` is the directory it
      goes into. */
  function AddDirs(img: Image, comps: seq<string>, k: int, parent: int, b: int, i: int, content: seq<byte>): (r: AddOutcome)
    requires WellFormed(img) && 0 <= k < |comps|
    requires 0 <= parent < NUM_INODES && 0 <= b < NUM_BLOCKS && 0 <= i < NUM_INODES
    ensures WellFormed(r.img)
    decreases |comps| - k, 1
  {
    if k == |comps| - 1 then AddContent(img, comps[k], parent, b, i, content, 0, NumReads(|content|))
    else AddDirLevel(img, comps, k, parent, b, i, content)
  }

  /** One pass of the loop for a component other than the last: make
      `comps[k]` a directory, link it into `parent`, take the block and inode for the
      next component and go on with it. */
  function AddDirLevel(img: Image, comps: seq<string>, k: int, parent: int, b: int, i: int, content: seq<byte>): (r: AddOutcome)
    requires WellFormed(img) && 0 <= k < |comps| - 1
    requires 0 <= parent < NUM_INODES && 0 <= b < NUM_BLOCKS && 0 <= i < NUM_INODES
    ensures WellFormed(r.img)
    decreases |comps| - k, 0
  {
    var img1 := MakeDir(img, comps[k], b, i, |content|);
    match Link(img1, parent, b)
    case None => AddOutcome(img1, AddFailed(NoFreeSlot))
    case Some(img2) =>
      var tb := TakeBlock(img2);
      if tb.index == -1 then AddOutcome(tb.img, AddFailed(NoFreeBlock))
      else
        var ti := TakeInode(tb.img);
        if ti.index == -1 then AddOutcome(ti.img, AddFailed(NoFreeInode))
        else AddDirs(ti.img, comps, k + 1, i, tb.index, ti.index, content)
  }

  /** Where the content loop stopped: the image, the block taken for the
      next read (after the last read, the one that receives the leaf's
      entry), and the error that ended the loop early, if any. */
  datatype Loaded = Loaded(img: Image, b: int, failure: Option<AddError>)

  /** The content loop: `readNum` reads done, `left` to go, block `b` taken
      for the next one. Each read stores a chunk and then takes a block. */
  function StoreContent(img: Image, i: int, b: int, content: seq<byte>, readNum: int, left: int): (r: Loaded)
    requires WellFormed(img) && 0 <= i < NUM_INODES && 0 <= b < NUM_BLOCKS && 0 <= readNum
    ensures WellFormed(r.img) && 0 <= r.b < NUM_BLOCKS
    decreases left
  {
    if left <= 0 then Loaded(img, b, None)
    else if readNum >= NUM_SLOTS then Loaded(img, b, Some(TooLarge))
    else
      var tb := TakeBlock(StoreChunk(img, i, b, content, readNum));
      if tb.index == -1 then Loaded(tb.img, b, Some(NoFreeBlock))
      else StoreContent(tb.img, i, tb.index, content, readNum + 1, left - 1)
  }

  /** The end of `addFile`: the leaf typed and sized, its entry in block
      `b`, and that block linked into `parent`. */
  function PlaceLeaf(img: Image, name: string, parent: int, b: int, i: int, n: int): (r: AddOutcome)
    requires WellFormed(img) && 0 <= parent < NUM_INODES && 0 <= b < NUM_BLOCKS && 0 <= i < NUM_INODES
    ensures WellFormed(r.img)
  {
    var img1 := FinishLeaf(img, name, b, i, n);
    match Link(img1, parent, b)
    case None => AddOutcome(img1, AddFailed(NoFreeSlot))
    case Some(img2) => AddOutcome(img2, Added(i))
  }

  /** The content loop from `readNum` reads done and `left` to go, then the
      leaf's entry linked into `parent`. */
  function AddContent(img: Image, name: string, parent: int, b: int, i: int, content: seq<byte>, readNum: int, left: int): (r: AddOutcome)
    requires WellFormed(img)
    requires 0 <= parent < NUM_INODES && 0 <= b < NUM_BLOCKS && 0 <= i < NUM_INODES
    requires 0 <= readNum
    ensures WellFormed(r.img)
  {
    var s := StoreContent(img, i, b, content, readNum, left);
    if s.failure.Some? then AddOutcome(s.img, AddFailed(s.failure.value))
    else PlaceLeaf(s.img, name, parent, s.b, i, |content|)
  }

  /** One pass of the content loop: block `b` receives the next chunk of the
      content and is listed in slot `readNum` of the leaf. */
  function StoreChunk(img: Image, i: int, b: int, content: seq<byte>, readNum: int): (r: Image)
    requires WellFormed(img) && 0 <= i < NUM_INODES && 0 <= b < NUM_BLOCKS && 0 <= readNum < NUM_SLOTS
    ensures WellFormed(r)
    ensures r.sb == img.sb && r.bitmap == img.bitmap
    ensures r.blocks == img.blocks[b := Data(Chunk(content, readNum))]
    ensures r.inodes[i] == img.inodes[i].(dataBlocks := img.inodes[i].dataBlocks[readNum := b])
    ensures forall x :: 0 <= x < NUM_INODES && x != i ==> r.inodes[x] == img.inodes[x]
  {
    SetSlot(img.(blocks := img.blocks[b := Data(Chunk(content, readNum))]), i, readNum, b)
  }

  /** The leaf's metadata and its entry in block `b`. */
  function FinishLeaf(img: Image, name: string, b: int, i: int, n: int): (r: Image)
    requires WellFormed(img) && 0 <= i < NUM_INODES && 0 <= b < NUM_BLOCKS
    ensures WellFormed(r)
    ensures r.sb == img.sb && r.bitmap == img.bitmap
    ensures r.blocks == img.blocks[b := Entry(name, i)]
    ensures r.inodes[i] == img.inodes[i].(fileSize := n, fileType := 'f')
    ensures forall x :: 0 <= x < NUM_INODES && x != i ==> r.inodes[x] == img.inodes[x]
  {
    var ino := img.inodes[i];
    img.(inodes := img.inodes[i := ino.(fileSize := n, fileType := 'f')],
         blocks := img.blocks[b := Entry(name, i)])
  }

  /** An intermediate directory: its entry in block `b`, and inode `i` typed
      as a directory, in use, with the file's size added to its own. */
  function MakeDir(img: Image, name: string, b: int, i: int, n: int): (r: Image)
    requires WellFormed(img) && 0 <= i < NUM_INODES && 0 <= b < NUM_BLOCKS
    ensures WellFormed(r)
    ensures r.sb == img.sb && r.bitmap == img.bitmap
    ensures r.blocks == img.blocks[b := Entry(name, i)]
    ensures r.inodes[i] == img.inodes[i].(fileType := 'd', inUse := true, fileSize := img.inodes[i].fileSize + n)
    ensures forall x :: 0 <= x < NUM_INODES && x != i ==> r.inodes[x] == img.inodes[x]
  {
    var ino := img.inodes[i];
    img.(blocks := img.blocks[b := Entry(name, i)],
         inodes := img.inodes[i := ino.(fileType := 'd', inUse := true, fileSize := ino.fileSize + n)])
  }

  /** `findReference(parent)` and the slot write: block `b` goes into the
      parent's lowest empty slot; `None` when every slot is taken. */
  function Link(img: Image, parent: int, b: int): (r: Option<Image>)
    requires WellFormed(img) && 0 <= parent < NUM_INODES && 0 <= b < NUM_BLOCKS
    ensures r.None? <==> FirstFree(img.inodes[parent].dataBlocks, 0) == -1
    ensures r.Some? ==> WellFormed(r.value) && r.value == SetSlot(img, parent, FirstFree(img.inodes[parent].dataBlocks, 0), b)
  {
    var ref := FirstFree(img.inodes[parent].dataBlocks, 0);
    if ref == -1 then None else Some(SetSlot(img, parent, ref, b))
  }
}
