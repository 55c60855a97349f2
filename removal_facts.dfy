/** What `removeFile` guarantees: which blocks it frees, how it accounts for
    the removed size in the directories above, and what it leaves alone. */
module RemovalFacts {
  import opened Layout
  import opened Resolution
  import opened Removal

  /** `x` is none of the ancestors `parentDir[1..i]` a walk recorded. */
  ghost predicate NotAncestor(parentDir: seq<int>, i: int, x: int)
    requires |parentDir| == MAX_DEPTH && i < MAX_DEPTH
  {
    forall a :: 1 <= a <= i ==> parentDir[a] != x
  }

  /** The ancestor loop changes no block, only frees blocks (never block 0)
      and never marks an inode in use. */
  lemma {:induction false} AncestorsShrink(img: Image, parentDir: seq<int>, i: int, size: int)
    requires WellFormed(img) && |parentDir| == MAX_DEPTH && i < MAX_DEPTH
    requires forall j :: 0 <= j < MAX_DEPTH ==> 0 <= parentDir[j] < NUM_INODES
    ensures var r := Ancestors(img, parentDir, i, size);
      r.sb == img.sb && r.blocks == img.blocks && r.bitmap[0] == img.bitmap[0] &&
      (forall v :: 0 <= v < NUM_BLOCKS ==> r.bitmap[v] == img.bitmap[v] || r.bitmap[v] == 0) &&
      (forall x :: 0 <= x < NUM_INODES && r.inodes[x].inUse ==> img.inodes[x].inUse)
    decreases i
  {
    if i > 0 {
      var img2 := Settle(img, parentDir[i], size);
      AncestorsShrink(img2, parentDir, i - 1, size);
      assert Ancestors(img2, parentDir, i - 1, size) == Ancestors(img, parentDir, i, size);
    }
  }

  /** An inode that is not one of the ancestors is left alone by the
      ancestor loop. */
  lemma {:induction false} AncestorsKeep(img: Image, parentDir: seq<int>, i: int, size: int, x: int)
    requires WellFormed(img) && |parentDir| == MAX_DEPTH && i < MAX_DEPTH
    requires forall j :: 0 <= j < MAX_DEPTH ==> 0 <= parentDir[j] < NUM_INODES
    requires 0 <= x < NUM_INODES && NotAncestor(parentDir, i, x)
    ensures Ancestors(img, parentDir, i, size).inodes[x] == img.inodes[x]
    decreases i
  {
    if i > 0 {
      var img2 := Settle(img, parentDir[i], size);
      AncestorsKeep(img2, parentDir, i - 1, size, x);
    }
  }

  /** The ancestor loop changes no block, only frees blocks (never block 0),
      never marks an inode in use, and leaves every inode that is not an
      ancestor alone. */
  lemma AncestorsFrame(img: Image, parentDir: seq<int>, i: int, size: int)
    requires WellFormed(img) && |parentDir| == MAX_DEPTH && i < MAX_DEPTH
    requires forall j :: 0 <= j < MAX_DEPTH ==> 0 <= parentDir[j] < NUM_INODES
    ensures var r := Ancestors(img, parentDir, i, size);
      r.sb == img.sb && r.blocks == img.blocks && r.bitmap[0] == img.bitmap[0] &&
      (forall v :: 0 <= v < NUM_BLOCKS ==> r.bitmap[v] == img.bitmap[v] || r.bitmap[v] == 0) &&
      (forall x :: 0 <= x < NUM_INODES && r.inodes[x].inUse ==> img.inodes[x].inUse) &&
      (forall x :: 0 <= x < NUM_INODES && NotAncestor(parentDir, i, x) ==> r.inodes[x] == img.inodes[x])
  {
    AncestorsShrink(img, parentDir, i, size);
    forall x | 0 <= x < NUM_INODES && NotAncestor(parentDir, i, x) {
      AncestorsKeep(img, parentDir, i, size, x);
    }
  }

  /** With distinct ancestors, ancestor `a` loses the removed size exactly
      once, and it ends up unused exactly when it was unused or its size
      reached 0. */
  lemma {:induction false} AncestorSizeAt(img: Image, parentDir: seq<int>, i: int, size: int, a: int)
    requires WellFormed(img) && |parentDir| == MAX_DEPTH && i < MAX_DEPTH
    requires forall j :: 0 <= j < MAX_DEPTH ==> 0 <= parentDir[j] < NUM_INODES
    requires forall a, b :: 1 <= a < b <= i ==> parentDir[a] != parentDir[b]
    requires 1 <= a <= i
    ensures var r := Ancestors(img, parentDir, i, size);
      var x := parentDir[a];
      r.inodes[x].fileSize == img.inodes[x].fileSize - size &&
      (r.inodes[x].inUse <==> img.inodes[x].inUse && img.inodes[x].fileSize - size != 0)
    decreases i
  {
    var x := parentDir[a];
    var img2 := Settle(img, parentDir[i], size);
    var r := Ancestors(img2, parentDir, i - 1, size);
    assert r == Ancestors(img, parentDir, i, size);
    if a < i {
      AncestorSizeAt(img2, parentDir, i - 1, size, a);
      assert img2.inodes[x] == img.inodes[x];
    } else {
      AncestorsKeep(img2, parentDir, i - 1, size, x);
      assert r.inodes[x] == img2.inodes[x];
    }
  }

  /** With distinct ancestors, each one loses the removed size exactly
      once, and it ends up unused exactly when it was unused or its size
      reached 0. */
  lemma AncestorsSizes(img: Image, parentDir: seq<int>, i: int, size: int)
    requires WellFormed(img) && |parentDir| == MAX_DEPTH && i < MAX_DEPTH
    requires forall j :: 0 <= j < MAX_DEPTH ==> 0 <= parentDir[j] < NUM_INODES
    requires forall a, b :: 1 <= a < b <= i ==> parentDir[a] != parentDir[b]
    ensures var r := Ancestors(img, parentDir, i, size);
      forall a :: 1 <= a <= i ==>
        var x := parentDir[a];
        r.inodes[x].fileSize == img.inodes[x].fileSize - size &&
        (r.inodes[x].inUse <==> img.inodes[x].inUse && img.inodes[x].fileSize - size != 0)
  {
    forall a | 1 <= a <= i {
      AncestorSizeAt(img, parentDir, i, size, a);
    }
  }

  /** What happens to the blocks of ancestor `a` when the ancestors are
      distinct: if its size reaches 0, its run of listed blocks is freed
      and those slots are cleared, and the later slots are kept; otherwise
      its block list is left as it was. */
  lemma {:induction false} AncestorRunAt(img: Image, parentDir: seq<int>, i: int, size: int, a: int)
    requires WellFormed(img) && |parentDir| == MAX_DEPTH && i < MAX_DEPTH
    requires forall j :: 0 <= j < MAX_DEPTH ==> 0 <= parentDir[j] < NUM_INODES
    requires forall a, b :: 1 <= a < b <= i ==> parentDir[a] != parentDir[b]
    requires 1 <= a <= i
    ensures var r := Ancestors(img, parentDir, i, size);
      RunSettled(r, parentDir[a], img.inodes[parentDir[a]], size)
    decreases i
  {
    var x := parentDir[a];
    var img2 := Settle(img, parentDir[i], size);
    var r := Ancestors(img2, parentDir, i - 1, size);
    assert r == Ancestors(img, parentDir, i, size);
    if a < i {
      assert img2.inodes[x] == img.inodes[x];
      AncestorRunAt(img2, parentDir, i - 1, size, a);
    } else {
      AncestorRunLast(img, parentDir, i, size);
    }
  }

  /** `AncestorRunAt` for the ancestor the loop settles first. */
  lemma AncestorRunLast(img: Image, parentDir: seq<int>, i: int, size: int)
    requires WellFormed(img) && |parentDir| == MAX_DEPTH && 1 <= i < MAX_DEPTH
    requires forall j :: 0 <= j < MAX_DEPTH ==> 0 <= parentDir[j] < NUM_INODES
    requires forall a, b :: 1 <= a < b <= i ==> parentDir[a] != parentDir[b]
    ensures var r := Ancestors(img, parentDir, i, size);
      RunSettled(r, parentDir[i], img.inodes[parentDir[i]], size)
  {
    var x := parentDir[i];
    var img2 := Settle(img, x, size);
    SettleRun(img, x, size);
    AncestorsRest(img2, parentDir, i, size);
    assert Ancestors(img2, parentDir, i - 1, size) == Ancestors(img, parentDir, i, size);
  }

  /** The passes after the first leave the first ancestor alone and keep
      every free block free. */
  lemma AncestorsRest(img2: Image, parentDir: seq<int>, i: int, size: int)
    requires WellFormed(img2) && |parentDir| == MAX_DEPTH && 1 <= i < MAX_DEPTH
    requires forall j :: 0 <= j < MAX_DEPTH ==> 0 <= parentDir[j] < NUM_INODES
    requires forall a, b :: 1 <= a < b <= i ==> parentDir[a] != parentDir[b]
    ensures var r := Ancestors(img2, parentDir, i - 1, size);
      r.inodes[parentDir[i]] == img2.inodes[parentDir[i]] &&
      forall v :: 0 <= v < NUM_BLOCKS && img2.bitmap[v] == 0 ==> r.bitmap[v] == 0
  {
    AncestorsKeep(img2, parentDir, i - 1, size, parentDir[i]);
    AncestorsShrink(img2, parentDir, i - 1, size);
  }

  /** What removal leaves alone and what it does to the removed inode, when
      the lookup found a node other than the root and the root is not one
      of the recorded ancestors: no block's contents change (so the entries
      naming the removed file stay where they are), bits of the free-block
      bitmap only go from used to free, no inode becomes used, the removed
      inode is unused with size 0, inodes that are neither the node, the
      root nor an ancestor are unchanged, and of the root only the recorded
      slot may change. */
  lemma RemoveFrame(img: Image, g: Lookup, depth: int)
    requires WellFormed(img) && LookupOk(g) && 1 <= depth <= MAX_DEPTH
    requires g.node != 0 && NotAncestor(g.parentDir, depth - 1, 0)
    ensures var r := Remove(img, g, depth);
      r.sb == img.sb && r.blocks == img.blocks &&
      (forall v :: 0 <= v < NUM_BLOCKS ==> r.bitmap[v] == img.bitmap[v] || r.bitmap[v] == 0) &&
      (forall x :: 0 <= x < NUM_INODES && r.inodes[x].inUse ==> img.inodes[x].inUse) &&
      !r.inodes[g.node].inUse &&
      (NotAncestor(g.parentDir, depth - 1, g.node) ==> r.inodes[g.node].fileSize == 0) &&
      (forall x :: 0 <= x < NUM_INODES && x != 0 && x != g.node && NotAncestor(g.parentDir, depth - 1, x) ==>
         r.inodes[x] == img.inodes[x]) &&
      r.inodes[0].inUse == img.inodes[0].inUse && r.inodes[0].fileSize == img.inodes[0].fileSize &&
      (forall j :: 0 <= j < NUM_SLOTS && j != g.initialRefBlock ==> r.inodes[0].dataBlocks[j] == img.inodes[0].dataBlocks[j])
  {
    var size := img.inodes[g.node].fileSize;
    var u := Unlink(img, g.node);
    AncestorsFrame(u, g.parentDir, depth - 1, size);
    var w := Ancestors(u, g.parentDir, depth - 1, size);
    assert Remove(img, g, depth) == RootCheck(w, g.initialRefBlock);
    assert w.inodes[0] == u.inodes[0];
  }

  /** The leaf's own step clears slot `k` and frees its block when `k` lies
      in the run of listed blocks, and keeps the slot otherwise. */
  lemma UnlinkSlotAt(img: Image, ino: int, k: int)
    requires WellFormed(img) && 0 <= ino < NUM_INODES && 0 <= k < NUM_SLOTS
    ensures var u := Unlink(img, ino);
      var s := img.inodes[ino].dataBlocks;
      var e := RunEnd(s, 0);
      (k < e ==> u.bitmap[s[k]] == 0 && u.inodes[ino].dataBlocks[k] == 0) &&
      (e <= k ==> u.inodes[ino].dataBlocks[k] == s[k])
  {
    var n := img.inodes[ino];
    var img0 := img.(inodes := img.inodes[ino := n.(inUse := false, fileSize := 0)]);
    assert img0.inodes[ino].dataBlocks == n.dataBlocks;
    ReleaseSlotAt(img0, ino, 0, RunEnd(n.dataBlocks, 0), k);
  }

  /** The leaf's own step frees its run of listed blocks and clears those
      slots, keeping the slots after the run. */
  lemma UnlinkRun(img: Image, ino: int)
    requires WellFormed(img) && 0 <= ino < NUM_INODES
    ensures var u := Unlink(img, ino);
      var s := img.inodes[ino].dataBlocks;
      var e := RunEnd(s, 0);
      (forall k :: 0 <= k < e ==> u.bitmap[s[k]] == 0 && u.inodes[ino].dataBlocks[k] == 0) &&
      (forall k :: e <= k < NUM_SLOTS ==> u.inodes[ino].dataBlocks[k] == s[k])
  {
    forall k | 0 <= k < NUM_SLOTS {
      UnlinkSlotAt(img, ino, k);
    }
  }

  /** Removal frees every block in the removed inode's run of listed blocks
      (its slots up to the first empty one) and clears those slots. */
  lemma RemoveFreesLeaf(img: Image, g: Lookup, depth: int)
    requires WellFormed(img) && LookupOk(g) && 1 <= depth <= MAX_DEPTH
    requires g.node != 0 && NotAncestor(g.parentDir, depth - 1, g.node)
    ensures var r := Remove(img, g, depth);
      var s := img.inodes[g.node].dataBlocks;
      var e := RunEnd(s, 0);
      (forall k :: 0 <= k < e ==> r.bitmap[s[k]] == 0 && r.inodes[g.node].dataBlocks[k] == 0) &&
      (forall k :: e <= k < NUM_SLOTS ==> r.inodes[g.node].dataBlocks[k] == s[k])
  {
    var size := img.inodes[g.node].fileSize;
    var s := img.inodes[g.node].dataBlocks;
    var u := Unlink(img, g.node);
    var w := Ancestors(u, g.parentDir, depth - 1, size);
    var r := RootCheck(w, g.initialRefBlock);
    assert Remove(img, g, depth) == r;
    UnlinkRun(img, g.node);
    assert RunCleared(u, g.node, s);
    AncestorsKeepCleared(u, g.parentDir, depth - 1, size, g.node, s);
    RootCheckKeepsCleared(w, g.initialRefBlock, g.node, s);
  }

  /** The ancestor loop keeps a cleared run of a non-ancestor cleared. */
  lemma AncestorsKeepCleared(u: Image, parentDir: seq<int>, i: int, size: int, x: int, s: seq<int>)
    requires WellFormed(u) && |parentDir| == MAX_DEPTH && i < MAX_DEPTH
    requires forall j :: 0 <= j < MAX_DEPTH ==> 0 <= parentDir[j] < NUM_INODES
    requires 0 <= x < NUM_INODES && NotAncestor(parentDir, i, x)
    requires |s| == NUM_SLOTS && forall k :: 0 <= k < NUM_SLOTS ==> 0 <= s[k] < NUM_BLOCKS
    requires RunCleared(u, x, s)
    ensures RunCleared(Ancestors(u, parentDir, i, size), x, s)
  {
    AncestorsKeep(u, parentDir, i, size, x);
    AncestorsShrink(u, parentDir, i, size);
    RunClearedKept(u, Ancestors(u, parentDir, i, size), x, s);
  }

  /** The final root check keeps a cleared run of an inode other than the
      root cleared. */
  lemma RootCheckKeepsCleared(w: Image, k: int, x: int, s: seq<int>)
    requires WellFormed(w) && 0 <= k < NUM_SLOTS && 0 < x < NUM_INODES
    requires |s| == NUM_SLOTS && forall k :: 0 <= k < NUM_SLOTS ==> 0 <= s[k] < NUM_BLOCKS
    requires RunCleared(w, x, s)
    ensures RunCleared(RootCheck(w, k), x, s)
  {
    RunClearedKept(w, RootCheck(w, k), x, s);
  }

  /** Removal takes the removed file's size off ancestor `a` once, when the
      ancestors are distinct and none of them is the removed node. */
  lemma RemoveSizeAt(img: Image, g: Lookup, depth: int, a: int)
    requires WellFormed(img) && LookupOk(g) && 1 <= depth <= MAX_DEPTH
    requires g.node != 0 && NotAncestor(g.parentDir, depth - 1, 0) && NotAncestor(g.parentDir, depth - 1, g.node)
    requires forall a, b :: 1 <= a < b < depth ==> g.parentDir[a] != g.parentDir[b]
    requires 1 <= a < depth
    ensures var r := Remove(img, g, depth);
      var size := img.inodes[g.node].fileSize;
      var x := g.parentDir[a];
      r.inodes[x].fileSize == img.inodes[x].fileSize - size &&
      (r.inodes[x].inUse <==> img.inodes[x].inUse && img.inodes[x].fileSize - size != 0)
  {
    var size := img.inodes[g.node].fileSize;
    var u := Unlink(img, g.node);
    var x := g.parentDir[a];
    assert x != g.node && x != 0;
    assert u.inodes[x] == img.inodes[x];
    AncestorSizeAt(u, g.parentDir, depth - 1, size, a);
    var w := Ancestors(u, g.parentDir, depth - 1, size);
    assert Remove(img, g, depth) == RootCheck(w, g.initialRefBlock);
    assert RootCheck(w, g.initialRefBlock).inodes[x] == w.inodes[x];
  }

  /** With distinct ancestors, none of them the removed node, removal takes
      the removed file's size off each ancestor once; an ancestor becomes
      unused exactly when its size reaches 0. */
  lemma RemoveSizes(img: Image, g: Lookup, depth: int)
    requires WellFormed(img) && LookupOk(g) && 1 <= depth <= MAX_DEPTH
    requires g.node != 0 && NotAncestor(g.parentDir, depth - 1, 0) && NotAncestor(g.parentDir, depth - 1, g.node)
    requires forall a, b :: 1 <= a < b < depth ==> g.parentDir[a] != g.parentDir[b]
    ensures var r := Remove(img, g, depth);
      var size := img.inodes[g.node].fileSize;
      forall a :: 1 <= a < depth ==>
        r.inodes[g.parentDir[a]].fileSize == img.inodes[g.parentDir[a]].fileSize - size &&
        (r.inodes[g.parentDir[a]].inUse <==> img.inodes[g.parentDir[a]].inUse && img.inodes[g.parentDir[a]].fileSize - size != 0)
  {
    forall a | 1 <= a < depth {
      RemoveSizeAt(img, g, depth, a);
    }
  }

  /** Removal settles ancestor `a`'s blocks as `AncestorRunAt` says, when
      the ancestors are distinct and none of them is the removed node or
      the root. */
  lemma RemoveRunAt(img: Image, g: Lookup, depth: int, a: int)
    requires WellFormed(img) && LookupOk(g) && 1 <= depth <= MAX_DEPTH
    requires g.node != 0 && NotAncestor(g.parentDir, depth - 1, 0) && NotAncestor(g.parentDir, depth - 1, g.node)
    requires forall a, b :: 1 <= a < b < depth ==> g.parentDir[a] != g.parentDir[b]
    requires 1 <= a < depth
    ensures RunSettled(Remove(img, g, depth), g.parentDir[a], img.inodes[g.parentDir[a]], img.inodes[g.node].fileSize)
  {
    var size := img.inodes[g.node].fileSize;
    var u := Unlink(img, g.node);
    var x := g.parentDir[a];
    assert x != g.node && x != 0;
    assert u.inodes[x] == img.inodes[x];
    AncestorRunAt(u, g.parentDir, depth - 1, size, a);
    var w := Ancestors(u, g.parentDir, depth - 1, size);
    assert Remove(img, g, depth) == RootCheck(w, g.initialRefBlock);
    RootCheckSettled(w, g.initialRefBlock, x, img.inodes[x], size);
  }

  /** The root check keeps what the ancestor loop did to a directory other
      than the root. */
  lemma RootCheckSettled(w: Image, k: int, x: int, n: Inode, size: int)
    requires WellFormed(w) && 0 <= k < NUM_SLOTS && 0 < x < NUM_INODES && WellFormedInode(n)
    requires RunSettled(w, x, n, size)
    ensures RunSettled(RootCheck(w, k), x, n, size)
  {
    var r := RootCheck(w, k);
    assert r.inodes[x] == w.inodes[x];
    if n.fileSize - size == 0 {
      forall j | 0 <= j < RunEnd(n.dataBlocks, 0)
        ensures r.bitmap[n.dataBlocks[j]] == 0
      {
        assert w.bitmap[n.dataBlocks[j]] == 0;
      }
    }
  }

  /** With distinct ancestors, none of them the removed node or the root,
      an ancestor whose size reaches 0 has its run of listed blocks freed
      and those slots cleared, keeping the later slots; an ancestor that
      keeps a size keeps its block list. */
  lemma RemoveFreesAncestors(img: Image, g: Lookup, depth: int)
    requires WellFormed(img) && LookupOk(g) && 1 <= depth <= MAX_DEPTH
    requires g.node != 0 && NotAncestor(g.parentDir, depth - 1, 0) && NotAncestor(g.parentDir, depth - 1, g.node)
    requires forall a, b :: 1 <= a < b < depth ==> g.parentDir[a] != g.parentDir[b]
    ensures var r := Remove(img, g, depth);
      var size := img.inodes[g.node].fileSize;
      forall a :: 1 <= a < depth ==>
        var s := img.inodes[g.parentDir[a]].dataBlocks;
        (img.inodes[g.parentDir[a]].fileSize - size == 0 ==>
           (forall k :: 0 <= k < RunEnd(s, 0) ==> r.bitmap[s[k]] == 0 && r.inodes[g.parentDir[a]].dataBlocks[k] == 0) &&
           (forall k :: RunEnd(s, 0) <= k < NUM_SLOTS ==> r.inodes[g.parentDir[a]].dataBlocks[k] == s[k])) &&
        (img.inodes[g.parentDir[a]].fileSize - size != 0 ==> r.inodes[g.parentDir[a]].dataBlocks == s)
  {
    forall a | 1 <= a < depth
      ensures RunSettled(Remove(img, g, depth), g.parentDir[a], img.inodes[g.parentDir[a]], img.inodes[g.node].fileSize)
    {
      RemoveRunAt(img, g, depth, a);
    }
  }

  /** The lookup along a chain of distinct directories records exactly
      those directories, so removing the chain's last inode takes its size
      off each directory on the path below the root once; a directory
      whose size reaches 0 becomes unused with its run of listed blocks
      freed, and one that keeps a size keeps its block list. */
  lemma RemoveAlongPath(img: Image, path: seq<string>, dirs: seq<int>, slots: seq<int>, g0: Lookup)
    requires WellFormed(img) && Intact(img) && LookupOk(g0) && 1 <= |path| < MAX_DEPTH
    requires Chain(img, path, dirs, slots)
    requires forall a, b :: 1 <= a < b <= |path| ==> dirs[a] != dirs[b]
    ensures var g := Find(img, 0, path, 1, g0);
      var r := Remove(img, g, |path|);
      var size := img.inodes[dirs[|path|]].fileSize;
      g.node == dirs[|path|] &&
      forall d :: 1 <= d < |path| ==>
        var s := img.inodes[dirs[d]].dataBlocks;
        r.inodes[dirs[d]].fileSize == img.inodes[dirs[d]].fileSize - size &&
        (r.inodes[dirs[d]].inUse <==> img.inodes[dirs[d]].fileSize - size != 0) &&
        (img.inodes[dirs[d]].fileSize - size == 0 ==>
           forall k :: 0 <= k < RunEnd(s, 0) ==> r.bitmap[s[k]] == 0 && r.inodes[dirs[d]].dataBlocks[k] == 0) &&
        (img.inodes[dirs[d]].fileSize - size != 0 ==> r.inodes[dirs[d]].dataBlocks == s)
  {
    var g := Find(img, 0, path, 1, g0);
    FindChain(img, path, dirs, slots, 1, g0);
    ChainNotRoot(img, path, dirs, slots);
    RemoveSizes(img, g, |path|);
    RemoveFreesAncestors(img, g, |path|);
  }

  /** No directory on a chain below the root is the root: an entry in a
      block other than block 0 never names inode 0. */
  lemma ChainNotRoot(img: Image, path: seq<string>, dirs: seq<int>, slots: seq<int>)
    requires WellFormed(img) && Intact(img) && Chain(img, path, dirs, slots)
    ensures forall d :: 1 <= d <= |path| ==> dirs[d] != 0
  {
    forall d | 1 <= d <= |path|
      ensures dirs[d] != 0
    {
      assert OnlyEntry(img, dirs[d - 1], slots[d - 1], path[d - 1], dirs[d]);
    }
  }

  /** Removal clears only the root's entry for an emptied directory. On a
      path whose every directory has one entry of the path's name, an
      emptied directory deeper down stays listed in a parent that keeps a
      size: the parent's slot still names the block holding the entry, now
      for an unused inode. For instance, with a directory a of size 15
      holding only b, and b holding only f of size 10, removing a/b/f
      leaves a with size 5, still listing the unused b. */
  lemma RemoveKeepsEmptiedEntry(img: Image, path: seq<string>, dirs: seq<int>, slots: seq<int>, g0: Lookup, d: int)
    requires WellFormed(img) && Intact(img) && LookupOk(g0) && 1 <= |path| < MAX_DEPTH
    requires Chain(img, path, dirs, slots)
    requires forall a, b :: 1 <= a < b <= |path| ==> dirs[a] != dirs[b]
    requires 2 <= d < |path|
    requires img.inodes[dirs[d - 1]].fileSize != img.inodes[dirs[|path|]].fileSize
    requires img.inodes[dirs[d]].fileSize == img.inodes[dirs[|path|]].fileSize
    ensures var r := Remove(img, Find(img, 0, path, 1, g0), |path|);
      var p := dirs[d - 1];
      r.inodes[p].inUse && !r.inodes[dirs[d]].inUse &&
      r.inodes[p].dataBlocks[slots[d - 1]] != 0 &&
      r.blocks[r.inodes[p].dataBlocks[slots[d - 1]]] == Entry(path[d - 1], dirs[d])
  {
    var g := Find(img, 0, path, 1, g0);
    FindChain(img, path, dirs, slots, 1, g0);
    ChainNotRoot(img, path, dirs, slots);
    assert OnlyEntry(img, dirs[d - 1], slots[d - 1], path[d - 1], dirs[d]);
    assert img.inodes[dirs[d - 1]].inUse;
    EmptiedListed(img, g, |path|, d);
  }

  /** Removal after a lookup with distinct recorded ancestors: when
      ancestor `a` reaches size 0 and the ancestor above it, in use, does
      not, the one above stays in use with its block list and every block
      as they were, while ancestor `a` becomes unused. */
  lemma EmptiedListed(img: Image, g: Lookup, depth: int, a: int)
    requires WellFormed(img) && LookupOk(g) && 1 <= depth <= MAX_DEPTH
    requires g.node != 0 && NotAncestor(g.parentDir, depth - 1, 0) && NotAncestor(g.parentDir, depth - 1, g.node)
    requires forall a, b :: 1 <= a < b < depth ==> g.parentDir[a] != g.parentDir[b]
    requires 2 <= a < depth && img.inodes[g.parentDir[a - 1]].inUse
    requires img.inodes[g.parentDir[a - 1]].fileSize != img.inodes[g.node].fileSize
    requires img.inodes[g.parentDir[a]].fileSize == img.inodes[g.node].fileSize
    ensures var r := Remove(img, g, depth);
      r.inodes[g.parentDir[a - 1]].inUse && !r.inodes[g.parentDir[a]].inUse &&
      r.inodes[g.parentDir[a - 1]].dataBlocks == img.inodes[g.parentDir[a - 1]].dataBlocks &&
      r.blocks == img.blocks
  {
    RemoveSizeAt(img, g, depth, a - 1);
    RemoveSizeAt(img, g, depth, a);
    RemoveRunAt(img, g, depth, a - 1);
    RemoveFrame(img, g, depth);
  }

  /** Removing a path that a fresh lookup from the root found keeps the
      root intact: the lookup records only non-root ancestors and a
      non-empty root slot, so neither block 0 nor inode 0 is released. */
  lemma RemoveKeepsIntact(img: Image, path: seq<string>, g0: Lookup)
    requires WellFormed(img) && Intact(img) && LookupOk(g0) && g0.node == 0 && 1 <= |path| < MAX_DEPTH
    ensures var g := Find(img, 0, path, 1, g0);
      g.node != 0 ==>
        NotAncestor(g.parentDir, |path| - 1, 0) && RefRecorded(img, 0, g) && Intact(Remove(img, g, |path|))
  {
    var g := Find(img, 0, path, 1, g0);
    FindFacts(img, 0, path, 1, g0);
    if g.node != 0 {
      assert NotAncestor(g.parentDir, |path| - 1, 0);
      RemoveIntact(img, g, |path|);
    }
  }

  /** Removal after a lookup that found an inode other than the root, with
      the root neither among the recorded ancestors nor an empty recorded
      slot, keeps the root intact. */
  lemma RemoveIntact(img: Image, g: Lookup, depth: int)
    requires WellFormed(img) && Intact(img) && LookupOk(g) && 1 <= depth <= MAX_DEPTH
    requires g.node != 0 && NotAncestor(g.parentDir, depth - 1, 0) && RefRecorded(img, 0, g)
    ensures Intact(Remove(img, g, depth))
  {
    var size := img.inodes[g.node].fileSize;
    SettleIntact(img, g.node, g.parentDir, depth - 1, size);
    var w := Ancestors(Unlink(img, g.node), g.parentDir, depth - 1, size);
    RootCheckIntact(w, g.initialRefBlock);
  }

  /** Releasing a leaf other than the root and settling ancestors that do
      not include the root keep the root intact and leave inode 0 alone. */
  lemma SettleIntact(img: Image, node: int, parentDir: seq<int>, i: int, size: int)
    requires WellFormed(img) && Intact(img) && 0 < node < NUM_INODES
    requires |parentDir| == MAX_DEPTH && i < MAX_DEPTH
    requires forall j :: 0 <= j < MAX_DEPTH ==> 0 <= parentDir[j] < NUM_INODES
    requires NotAncestor(parentDir, i, 0)
    ensures var w := Ancestors(Unlink(img, node), parentDir, i, size);
      Intact(w) && w.inodes[0] == img.inodes[0]
  {
    var u := Unlink(img, node);
    AncestorsFrame(u, parentDir, i, size);
  }

  /** The final check on the root keeps it intact when the recorded root
      slot is not empty: the block it may free is then not block 0. */
  lemma RootCheckIntact(w: Image, k: int)
    requires WellFormed(w) && Intact(w) && 0 <= k < NUM_SLOTS && w.inodes[0].dataBlocks[k] != 0
    ensures Intact(RootCheck(w, k))
  {
  }
}
