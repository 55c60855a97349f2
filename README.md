# Simple File System storage engine, in Dafny

A model of the storage engine of a small filesystem kept in one mapped
region (`fs.c`). The region holds a superblock, a free-block bitmap of
10000 flags (0 free, 1 used), a table of 100 inodes, and 10000 data blocks
of 512 bytes. Each inode has an `inUse` flag, a `fileSize`, a `fileType`
('d' or 'f') and 100 block slots, where 0 means an empty slot. A data
block holds either file bytes or one directory entry (a name and an inode
number). Inode 0 is the root directory, and block 0 holds its entry
("root", 0).

The operations are:

- `formatfs`
- the first-fit allocators `findBlock`, `findINode` and `findReference`
- path lookup `findFile`, which reports through the globals `node`,
  `parentDir` and `initialRefBlock`
- `addFile`, `removeFile` and `extractFile`
- the listing `lsfs`

The project has two layers:

- The class `FileSystem.FileSystem` holds the bitmap, the inode table, the
  blocks and `parentDir` as arrays, and `node` and `initialRefBlock` as
  fields. Each C function is a method with the same loops, updating the
  arrays in place.
- Each method's postcondition ties its new state (and its result) to a
  function on an `Image` value, the whole region as a value. Those
  functions are in the modules `Formatting`, `Allocation`, `Resolution`,
  `Ingestion`, `Removal`, `Extraction` and `Listing`.

The properties are proved as lemmas about those functions, in `FreeLists`,
`Paths`, `IngestionFacts`, `RemovalFacts`, `Extraction` and `Listing`.
The main ones:

- Allocation is first-fit, and a successful add uses exactly the lowest
  free blocks and inodes.
- When the root is in use and unused inodes are empty, an add succeeds
  exactly when there is room for it: an empty root slot, enough free
  blocks and inodes, and at most 100 content blocks. On a freshly
  formatted filesystem that means exactly a file under 51200 bytes.
- Adding a file and then looking up its path, whatever the globals held,
  finds the new leaf, and extracting it returns exactly the added bytes.
- Removal subtracts the removed size once from every recorded ancestor,
  frees the removed file's blocks, and never frees the root.

Behaviour of the code worth knowing:

- **Block count.** Content takes `size / 512 + 1` blocks, not the rounded-up
  quotient, so a file whose size is a multiple of 512 takes one extra
  block. Because at most 100 content blocks fit, a file of 51200 bytes
  cannot be added (`TooLarge`).
- **Release loops.** `removeFile` frees a node's blocks slot by slot and
  stops at the first empty slot (fs.c:391-399, fs.c:408-414), so blocks
  listed after an empty slot stay allocated.
- **Root check.** The final check of `removeFile` inspects the root slot
  scanned last at depth 1. That is not necessarily the slot that led to
  the removed file.
- **Duplicate directories.** `addFile` creates a new directory for every
  intermediate component (fs.c:258-283) and never looks for an existing
  one. So adding a/b/f and then a/c leaves two root entries named a.
- **Last match wins above the last depth.** `findFile` goes on scanning
  after a match above the last depth (fs.c:349-362), so `parentDir[depth]`
  ends as the inode of the last matching entry
  (`Resolution.FindRecordsLast`). In the example above, removing a/b/f
  finds f under the first a but records the second a, the one holding c,
  as `parentDir[1]`. The size of f is taken off that second a, whose size
  can then go negative, or reach 0 so that it is freed along with its
  blocks. The first a is not touched and still lists b, which is now
  unused. The root check then reads the last non-empty root slot, since
  every non-empty slot at depth 1 is recorded (fs.c:345-346).
- **Emptied directories.** Only the root's entry for an emptied directory
  is cleared (fs.c:419-428). On an image where each directory on the path
  has one entry of the path's name, a directory below depth 1 that reaches
  size 0 while its parent keeps a size stays listed in that parent,
  although it is now unused (`RemovalFacts.RemoveKeepsEmptiedEntry`).
- **`findINode`.** `addFile` calls `find_iNode` (fs.c:196), which is taken
  to be `findINode`.

## Model

| member | source | states |
|---|---|---|
| FileSystem.FileSystem.Mount | fs.c:42-53 | Mapping a region whose contents are `img` gives a valid filesystem whose disk is exactly `img` and whose globals are as given |
| FileSystem.FileSystem.Format | fs.c:61-87 | Leaves exactly the image `Formatting.Format` computes from the old one, with the globals unchanged |
| Formatting.FormatFresh | fs.c:61-87 | After formatting a zero-filled region: block 0 is the only used block and holds ("root", 0); inode 0 is the only inode in use, a directory of size 0 with empty slots; the superblock is 10000/512/100; every unused inode is empty |
| FileSystem.FileSystem.FindBlock | fs.c:136-153 | Returns and marks used the lowest free block, or returns -1 with the bitmap unchanged; nothing else changes |
| Allocation.TakeBlock | fs.c:136-153 | -1 exactly when no block is free; otherwise the result is the head of the free list, was free and is now used, and the free list loses exactly its head; every other flag, the inodes and the blocks are unchanged |
| FileSystem.FileSystem.FindINode | fs.c:156-173 | Returns and marks in use the lowest unused inode from 1 on (never the root); returns -1, standing for the exit, with the table unchanged when none is free |
| Allocation.TakeInode | fs.c:156-173 | -1 exactly when no inode from 1 on is free; otherwise the result is at least 1, was unused and is now in use with its other fields kept, and the free list loses exactly its head; every other inode, the bitmap and the blocks are unchanged |
| FileSystem.FileSystem.FindReference | fs.c:176-190 | Changes nothing; returns the lowest empty slot of the inode, or -1 exactly when all 100 slots are non-zero |
| FreeLists.FirstFree | fs.c:176-190 | The lowest index whose flag is 0, with every index before it non-zero; -1 exactly when there is none |
| FreeLists.FreeListHead | fs.c:140-152 | The free list is complete: empty only when every flag is set, and its head is the lowest free index |
| FreeLists.FreeListSound | fs.c:140-152 | Every index on the free list is free and in range, and the list is strictly increasing |
| FreeLists.TakeFirst | fs.c:142-146 | Marking the first free index used removes exactly the head of the free list, so repeated allocation goes up the free list in order |
| Paths.Split | fs.c:221-223 | Splitting a path on '/' gives at least one component, and no component contains '/' |
| Paths.JoinSplit | fs.c:221-223 | Splitting loses nothing: joining the components with '/' gives the path back |
| Paths.SplitJoin | fs.c:374-376 | Components without '/' come back unchanged from splitting their join |
| Paths.SplitDepth | fs.c:374-376 | The path depth is one more than the number of '/' |
| FileSystem.FileSystem.FindFile | fs.c:320-366 | Never writes the bitmap, the inodes or the blocks; leaves the globals exactly as the walk `Resolution.Find` computes from the old globals |
| Resolution.FindFacts | fs.c:320-366 | What a walk leaves in the globals. (1) Below depth 1, `initialRefBlock` is untouched. (2) A non-zero `node` stays non-zero. (3) Only `parentDir[depth..]` is written, never with 0. (4) A walk that finds something has written every `parentDir` entry below the path's end. (5) A walk from depth 1 that finds something leaves a non-empty root slot in `initialRefBlock` |
| Resolution.ScanAbsent | fs.c:332-363 | When no non-empty slot names the component, `node` and `parentDir` keep their values |
| Resolution.ScanFirstMatch | fs.c:349-354 | At the last depth, the first non-empty slot, in slot order, whose entry carries the name decides the node found |
| Resolution.ScanUnique | fs.c:332-363 | When exactly one non-empty slot names the component, the walk reaches whatever that entry leads to, and a scan starting past that slot finds nothing new |
| Resolution.EntryLeads | fs.c:349-359 | A directory whose only entry for the component leads to the target leads every walk, whatever the globals, to the target |
| Resolution.FindChain | fs.c:349-359 | For a path whose every level has one entry of its name, the walk finds the last inode of the chain and records in `parentDir[d]` the inode of the entry matched at depth d, for every d below the path's end; entries above the starting depth keep their values |
| Resolution.ScanChain | fs.c:332-363 | The slot loop along such a path: from any slot up to the matching one it does what `FindChain` says; past that slot it changes neither `node` nor `parentDir` |
| Resolution.FindKeepsAbove | fs.c:320-366 | A walk at depth d writes no `parentDir` entry below index d |
| Resolution.ScanKeepsAbove | fs.c:332-363 | The slot loop at depth d writes no `parentDir` entry below index d |
| Resolution.ScanLastMatch | fs.c:345-362 | Above the last depth, when several non-empty slots name the component, a scan from a slot at or before the last of them ends with `parentDir[depth]` set to that last entry's inode; a scan from past it leaves `parentDir[depth]` alone |
| Resolution.FindRecordsLast | fs.c:349-359 | A walk through an in-use directory above the last depth records the inode of the last matching entry in `parentDir[depth]` |
| FileSystem.FileSystem.AddFile | fs.c:193-311 | Takes a block, then an inode, then reads the source; the result and the new disk are those of `Ingestion.Add`; the globals are unchanged |
| FileSystem.FileSystem.AddLevels | fs.c:258-283 | The directory loop plus everything after it: the new disk and the result are those of `Ingestion.AddDirs` |
| FileSystem.FileSystem.AddLeaf | fs.c:284-307 | The content loop and the leaf's entry: the new disk and the result are those of `Ingestion.AddContent` |
| FileSystem.FileSystem.LinkLeaf | fs.c:293-307 | Sizes and types the leaf and writes its entry; links it into the parent, or reports `NoFreeSlot` when the parent is full |
| FileSystem.FileSystem.LinkInto | fs.c:274-275 | Block `b` goes into the parent's lowest empty slot; false, with nothing changed, when there is none |
| FileSystem.FileSystem.MakeDirEntry | fs.c:260-271 | Writes the directory entry and makes the inode an in-use directory with the file's size added |
| FileSystem.FileSystem.StoreChunkAt | fs.c:287-288 | Block `b` receives the next chunk of the content and is listed in slot `readNum` of the leaf |
| FileSystem.FileSystem.FinishLeafAt | fs.c:294-303 | The leaf gets size `n` and type 'f', and its entry goes into block `b` |
| Ingestion.Link | fs.c:274-275 | `None` exactly when the parent has no empty slot; otherwise `b` goes into its lowest empty slot |
| IngestionFacts.AddFailsEarly | fs.c:195-207 | With no free block, the add fails with nothing changed; with no free inode, it fails holding the block it took; with an unreadable source, it fails after both allocations |
| IngestionFacts.AddStart | fs.c:195-199 | The first block taken is a free one other than 0, and the first inode a free one other than the root; the root stays intact |
| IngestionFacts.AddIntact | fs.c:193-311 | Adding a file, successful or not, never damages the root: block 0 stays used and holds ("root", 0), inode 0 stays in use, and no other entry names inode 0 |
| IngestionFacts.AddConsumes | fs.c:193-311 | A successful add of an n-byte file at a path of d components takes exactly the lowest d + (n / 512 + 1) free blocks and the lowest d free inodes above the root, and no others |
| IngestionFacts.AddExtracts | fs.c:284-303 | After a successful add, reading the new leaf returns exactly the added bytes |
| IngestionFacts.AddResolves | fs.c:193-311 | Suppose the root lists only used blocks and has no entry named like the first component. Then, after a successful add, every later walk from the root, whatever the globals, finds the new leaf |
| IngestionFacts.AddThenExtract | fs.c:193-311 | On a filesystem whose root is intact, whose unused inodes are empty, whose root slots name used blocks and whose root has no entry named like the first component: adding and then looking up the path from the root finds the new leaf, which is not the root; reading it gives back exactly the added bytes |
| IngestionFacts.FreshAddThenExtract | fs.c:193-311 | On a freshly formatted filesystem, for any path of 1 to 99 components: the add succeeds exactly when the file is under 51200 bytes, and then looking up the path from the root finds the new leaf, and reading it gives back exactly the added bytes |
| IngestionFacts.AddSucceeds | fs.c:193-311 | With the root in use and unused inodes empty, an add of readable bytes succeeds exactly when there is room: at most 100 content blocks, an empty root slot, free blocks for every component and every read, and free inodes for every component |
| IngestionFacts.FreshRoom | fs.c:61-87 | A freshly formatted filesystem has room for a path of 1 to 99 components exactly when the file is under 51200 bytes |
| IngestionFacts.AddDirsSucceeds | fs.c:258-307 | From any level on, suppose that the parent is in use and has an empty slot, that the inode taken for the level is in use, differs from the parent and has no listed block, and that every unused inode is empty. Then the directory loop and the leaf succeed when the file needs at most 100 blocks and enough blocks and inodes are free for the levels left and the reads |
| IngestionFacts.AddDirsNeeds | fs.c:258-307 | From any level on, when the inode taken for the level is not the parent, success needs an empty slot in the parent and at most 100 content blocks |
| IngestionFacts.AddContentSucceeds | fs.c:284-307 | For a leaf inode other than the parent, the content loop and the leaf link succeed when the file needs at most 100 blocks, that many are free, and the parent has an empty slot; success needs the slot bound and the empty parent slot |
| IngestionFacts.StoreSucceeds | fs.c:284-292 | The content loop runs to the end when the leaf has a slot for every read left and that many blocks are free |
| IngestionFacts.StoreNeeds | fs.c:284-292 | The content loop only runs to the end when the leaf has a slot for every read left |
| IngestionFacts.AddDirsTyped | fs.c:268-271 | Each directory the loop creates ends up in use, typed 'd', with the file's size added to what it had |
| IngestionFacts.AddDirsLeaf | fs.c:280 | The leaf reported is an inode `findINode` took, never the root |
| IngestionFacts.AddDirsConsumes | fs.c:259-292 | The directory loop and the content loop take blocks from the lowest free one up: one per remaining directory level plus the content blocks |
| IngestionFacts.AddDirsTakesInodes | fs.c:259-283 | The directory loop takes inodes from the lowest free one up, one per remaining level |
| IngestionFacts.AddDirsBlocks | fs.c:259-283 | The directory loop frees no block, and writes only block `b` and blocks that were free |
| IngestionFacts.AddDirsInodes | fs.c:259-283 | The directory loop keeps every in-use inode in use, and of those changes only the new directory and empty slots of the parent |
| IngestionFacts.AddDirsIntact | fs.c:259-307 | The directory loop and what follows keep the root intact |
| IngestionFacts.AddDirsHolds | fs.c:259-307 | A leaf that the directory loop links holds exactly the content |
| IngestionFacts.AddDirsResolves | fs.c:258-307 | Suppose the parent has no entry named like the next component, and its slots name used blocks other than `b`. Then, after a successful add, the rest of the path leads from the parent to the leaf |
| IngestionFacts.DirLevel | fs.c:259-283 | One directory level puts the new entry in the parent's lowest empty slot, as the only entry there with that name, and sets up what the next level needs |
| IngestionFacts.DeepLink | fs.c:274-283 | The entry a level links stays the only one of its name in the parent, so a path leading on from the new directory also leads from the parent |
| IngestionFacts.DirKept | fs.c:259-283 | The rest of the loop keeps the parent in use and keeps its entry the only one with that name |
| IngestionFacts.AddContentHolds | fs.c:285-307 | The content loop puts chunk k of the content in a fresh block listed in slot k, so a leaf that gets linked holds exactly the content |
| IngestionFacts.StoreStored | fs.c:286-292 | A content loop that runs to the end has stored each chunk in a used block listed in its slot, and stops on a used block that no slot of the leaf names |
| IngestionFacts.StoreConsumes | fs.c:286-292 | Each pass of the content loop takes the lowest free block; a loop that runs to the end has taken exactly as many as it read |
| IngestionFacts.AddContentConsumes | fs.c:286-307 | The content loop and the final link take exactly the lowest `left` free blocks |
| IngestionFacts.AddContentBlocks | fs.c:286-307 | The content loop and the final link free no block, and write only block `b` and blocks that were free |
| IngestionFacts.AddContentInodes | fs.c:286-307 | The content loop and the final link change no `inUse` flag, and leave every inode other than the parent and the leaf alone; of the parent they only fill an empty slot |
| IngestionFacts.AddContentIntact | fs.c:286-307 | The content loop and the final link keep the root intact |
| IngestionFacts.StoreIntact | fs.c:286-292 | The content loop keeps the root intact and stops on a block other than 0 |
| IngestionFacts.StoreParent | fs.c:286-292 | The content loop leaves the parent alone, and stops on a block that no slot of the parent names |
| IngestionFacts.StoreBlockKept | fs.c:286-292 | A used block other than `b` keeps its contents through the content loop, and the loop does not stop on it |
| IngestionFacts.StoreBlockData | fs.c:287 | Every block the content loop writes receives file bytes, never an entry |
| IngestionFacts.LeafLinked | fs.c:293-307 | The leaf's entry goes into the parent's lowest empty slot, as the only entry there with that name |
| IngestionFacts.LeafHolds | fs.c:293-307 | Once every chunk is stored, a leaf that gets linked holds the content |
| IngestionFacts.AddContentResolves | fs.c:293-307 | After a successful link, resolving the last component in the parent reaches the leaf, provided the parent had no entry of that name |
| FileSystem.FileSystem.RemoveFile | fs.c:369-429 | Looks the path up, leaving the globals as `Find` computes. When `node` is 0, nothing on disk changes. Otherwise the disk becomes exactly `Removal.Remove` of the old one |
| FileSystem.FileSystem.RemoveFound | fs.c:387-428 | Once the lookup has found `node`: the globals stay as they are, and the disk becomes exactly `Removal.Remove` of the old one |
| FileSystem.FileSystem.UnlinkNode | fs.c:387-399 | Marks the node unused with size 0 and releases its slots |
| FileSystem.FileSystem.ReleaseSlots | fs.c:391-399 | The slot loop: the disk becomes exactly `Removal.Release` of the old one |
| FileSystem.FileSystem.SettleDir | fs.c:403-416 | One pass of the ancestor loop: the disk becomes exactly `Removal.Settle` of the old one |
| FileSystem.FileSystem.SettleAncestors | fs.c:402-417 | The ancestor loop from `depth - 1` down to 1: the disk becomes exactly `Removal.Ancestors` of the old one |
| FileSystem.FileSystem.CheckRoot | fs.c:419-428 | The root check: the disk becomes exactly `Removal.RootCheck` of the old one |
| Removal.Settle | fs.c:403-416 | Subtracts the removed size from the ancestor. The ancestor becomes unused exactly when its size reaches 0 and keeps its type. Bitmap flags only ever go to 0, and block 0's flag never changes. No block and no other inode changes |
| Removal.SettleRun | fs.c:405-416 | When the removed size brings the ancestor to 0, its run of listed blocks up to the first empty slot is freed and those slots are cleared. Later slots and the flags of blocks outside that run are kept. When the size stays non-zero, its block list and the whole bitmap are unchanged |
| Removal.Release | fs.c:391-399 | The slot loop changes no block and no other inode, keeps the inode's `inUse`, size and type, and only frees bitmap flags (never block 0) |
| Removal.ReleaseRun | fs.c:391-399 | The slot loop frees exactly the blocks of the run of non-empty slots up to the first empty one and clears those slots. Later slots and unlisted blocks keep their values |
| RemovalFacts.UnlinkRun | fs.c:387-399 | The leaf's step frees the blocks of its run of listed slots and clears them, keeping the slots after the first empty one |
| RemovalFacts.RemoveFreesLeaf | fs.c:387-399 | Removal frees every block in the removed inode's run of listed slots and clears those slots |
| RemovalFacts.AncestorsSizes | fs.c:402-417 | With distinct ancestors, each loses the removed size exactly once, and ends up unused exactly when it was unused or its size reached 0 |
| RemovalFacts.AncestorsFrame | fs.c:402-417 | The ancestor loop changes no block, only frees flags (never block 0), marks no inode in use, and leaves every non-ancestor alone |
| RemovalFacts.AncestorRunAt | fs.c:402-417 | With distinct ancestors, an ancestor whose size reaches 0 ends with its run of listed blocks freed and those slots cleared, later slots kept; one that keeps a size keeps its block list |
| RemovalFacts.RemoveFreesAncestors | fs.c:402-417 | With distinct recorded ancestors, none the node or the root, removal frees and clears the run of listed blocks of every ancestor whose size reaches 0, and leaves the block list of every other ancestor as it was |
| RemovalFacts.RemoveAlongPath | fs.c:369-417 | For a path whose every level has one entry of its name, leading through distinct directories: the lookup finds the last one, and removal takes its size off each directory on the path below the root once; a directory reaching 0 becomes unused with its run of blocks freed, others keep their block lists |
| RemovalFacts.RemoveKeepsEmptiedEntry | fs.c:402-428 | On such a path, a directory below depth 1 whose size reaches 0 while its parent's does not is unused afterwards, yet the parent stays in use and its slot still holds the entry naming it |
| RemovalFacts.RemoveSizes | fs.c:402-417 | When the ancestors are distinct and none of them is the removed node, removal takes the removed size off each recorded ancestor once. An ancestor becomes unused exactly when its size reaches 0 |
| RemovalFacts.RemoveFrame | fs.c:369-429 | Removal changes no block's contents; flags only go from used to free; no inode becomes used; the removed inode ends unused with size 0; inodes that are neither the node, the root nor an ancestor are unchanged; of the root, only the recorded slot may change |
| RemovalFacts.RemoveKeepsIntact | fs.c:369-429 | Removing a path that a fresh lookup from the root found never frees the root: the lookup records only non-root ancestors and a non-empty root slot, and removal keeps the root intact |
| RemovalFacts.RemoveIntact | fs.c:387-428 | Removal after a lookup that found a non-root node keeps the root intact, when the root is not a recorded ancestor and the recorded root slot is non-empty |
| FileSystem.FileSystem.ExtractFile | fs.c:432-464 | Looks the path up, changing no disk state. Returns `NotFound` when `node` is 0, otherwise exactly the bytes `ReadFile` gives for `node` |
| FileSystem.FileSystem.Emit | fs.c:450-463 | The read loop returns exactly `Extraction.ReadFile` of the inode |
| Extraction.ReadFrom | fs.c:455-463 | A successful read from position k with `size` bytes left emits exactly `size` bytes; past the 100-slot block list only an empty write succeeds |
| Extraction.ReadFile | fs.c:450-463 | A successful extract emits exactly `fileSize` bytes |
| Extraction.ReadChunks | fs.c:455-463 | For a file holding `content`, reading from block position k gives exactly the content from byte 512k on |
| Extraction.ReadFileHolds | fs.c:450-463 | Extracting a file that holds `content` returns exactly `content` |
| Extraction.ChunkSplit | fs.c:460 | A whole 512-byte chunk followed by the rest is the content from that chunk's start |
| FileSystem.FileSystem.Ls | fs.c:97-133 | The rows printed are exactly `Listing.List` of the disk |
| FileSystem.FileSystem.LsSlots | fs.c:114-132 | The slot loop prints exactly `Listing.ListSlots` from slot 0 |
| FileSystem.FileSystem.LsSlot | fs.c:115-131 | One pass prints nothing for an empty slot, otherwise the slot's line followed by the listing of the directory it names |
| Listing.ListIndented | fs.c:122-130 | Every entry line of a listing at indent i is indented by at least i |
| Listing.ListLevel | fs.c:113-132 | At a directory's own indentation the listing shows exactly one line per non-empty slot, in slot order; everything printed for subdirectories is indented further |
| Listing.ListSlotsEmpty | fs.c:114-118 | Empty slots print nothing |
| Listing.ListFresh | fs.c:97-133 | Listing a freshly formatted filesystem prints the root's name and nothing else |

## Left out

- `mapfs`/`unmapfs` (fs.c:42-58): there is no mmap or pointer arithmetic. `FileSystem.FileSystem.Mount` takes the region's contents as a value.
- filefs.c, the command-line driver that opens, sizes and dispatches on the backing file, is not part of this model.
- `printf` diagnostics and `lsfs`'s printing: the listing returns rows (indent, name, inode, size) instead of text.
- stdio:
  - `fopen`/`fseek`/`ftell`/`fread` are replaced by the source file's bytes as a parameter (`None` when it cannot be opened);
  - `fwrite` to stdout is replaced by the returned byte sequence.
- `exit()` calls are modelled as error results, with the state as it was at that point:
  - the unreadable source in `addFile`;
  - a full inode table in `findINode`;
  - a path that is not found in `removeFile` and `extractFile`.
- Unchecked -1 results: the source then indexes with -1. The model instead stops with an error and keeps what was already written, as nothing is rolled back:
  - `findBlock` → `NoFreeBlock`;
  - `findReference` → `NoFreeSlot`.
- A 101st content block (fs.c:286-292) would be written to `dataBlocks[100]`, past the 100-slot block list. The model stops with `TooLarge` instead, keeping what was already written.
- Byte-level `memcpy` of `struct directory`: blocks are either `Data` bytes or an `Entry`. As a result:
  - a block of file bytes never matches a name during lookup;
  - it lists as a `Garbled` row;
  - an extract that would emit bytes from an entry block is `Unreadable`;
  - a block keeps only the bytes its last read stored, so an extract that would emit more of a block than that (the stale rest of the 512 bytes) is `Unreadable` in `Extraction.ReadFrom`;
  - `Removal.RootCheck` keeps a root slot whose block holds file bytes, where fs.c:421-428 would take an inode number from those bytes and could clear the slot;
  - the 512-byte over-read when entries are written is not represented.
- Listing.List: the pointer-sized copy of the root's name at fs.c:109 is not modelled; the row carries the whole name.
- Name buffers: `strcpy` into the 255-byte name field, and `strcmp` on it, are modelled as whole-string equality, with no truncation or overflow.
- Integer width:
  - `int` sizes and the `size_t` countdown of `extractFile` are unbounded integers;
  - `Extraction.ReadFile` reports a negative size as `Unreadable`, where the source would wrap it to a huge unsigned count.
- FileSystem.FileSystem.FindFile: the returned value is stated only as 0 or the new `node`. Callers use only the globals, and the recursive call's result is discarded, as in the source.
- FileSystem.FileSystem.Ls: recursion is cut off after `fuel` nested directories. The source has no bound, so a directory that lists itself would recurse forever.
- FileSystem.FileSystem.AddFile: paths of 100 or more components are excluded by a precondition, as they would overflow the 100-entry `filePath` array. FileSystem.FileSystem.RemoveFile and FileSystem.FileSystem.ExtractFile carry the same precondition for the same reason.
- `removeFile` and `extractFile` read the globals left by earlier lookups. The model takes them as they are, including a stale non-zero `node`.
- The bitmap agreeing with the inode block lists is not stated as an invariant, because the code does not keep it:
  - a failed add keeps the blocks it took but never links them;
  - the release loops stop at the first empty slot.
  
  The model proves frame properties instead (AddDirsBlocks, AddContentBlocks, RemoveFrame, ReleaseRun).
- IngestionFacts.AddResolves: stated only when the root has no entry with the first component's name. With duplicate names, the first matching slot decides at the last depth (`ScanFirstMatch`) and the last one above it (`FindRecordsLast`).
- IngestionFacts.AddThenExtract: stated only when the root has no entry with the first component's name, unused inodes are empty and the root's slots name used blocks. These hold on a freshly formatted filesystem (`IngestionFacts.FreshAddThenExtract`); after other adds and removes they are not proved to hold.
