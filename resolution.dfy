/** Path resolution (`findFile`): a recursive walk over the directory
    entries stored in data blocks. The walk reports through three globals,
    modelled here as a `Lookup` value: the inode found (`node`), the inode
    matched at each intermediate depth (`parentDir`) and the root slot
    scanned last at depth 1 (`initialRefBlock`). */
module Resolution {
  import opened Layout

  datatype Lookup = Lookup(node: int, parentDir: seq<int>, initialRefBlock: int)

  /** Every global holds a usable index. */
  ghost predicate LookupOk(g: Lookup) {
    0 <= g.node < NUM_INODES &&
    |g.parentDir| == MAX_DEPTH &&
    (forall j :: 0 <= j < MAX_DEPTH ==> 0 <= g.parentDir[j] < NUM_INODES) &&
    0 <= g.initialRefBlock < NUM_SLOTS
  }

  /** The globals at process start. */
  function InitialLookup(): (g: Lookup)
    ensures LookupOk(g) && g.node == 0
  {
    Lookup(0, seq(MAX_DEPTH, _ => 0), 0)
  }

  /** Does the block name the path component? A block holding file bytes
      names nothing. */
  predicate Names(b: Block, name: string) {
    b.Entry? && b.name == name
  }

  /** `findFile(cur, |path|, depth, path)`: the globals afterwards. An
      unused inode is not searched. */
  function Find(img: Image, cur: int, path: seq<string>, depth: int, g: Lookup): (r: Lookup)
    requires WellFormed(img) && LookupOk(g)
    requires 0 <= cur < NUM_INODES && 1 <= depth <= |path| < MAX_DEPTH
    ensures LookupOk(r)
    decreases |path| - depth, 1, 0
  {
    if !img.inodes[cur].inUse then g else Scan(img, cur, path, depth, 0, g)
  }

  /** The slot loop of `findFile` from slot `slot` on. Empty slots are
      skipped; at depth 1 every non-empty slot is recorded in
      `initialRefBlock`; a match at the last depth ends the walk; a match
      above it records the child in `parentDir[depth]`, recurses, and then
      goes on scanning. */
  function Scan(img: Image, cur: int, path: seq<string>, depth: int, slot: int, g: Lookup): (r: Lookup)
    requires WellFormed(img) && LookupOk(g)
    requires 0 <= cur < NUM_INODES && 1 <= depth <= |path| < MAX_DEPTH
    requires 0 <= slot <= NUM_SLOTS
    ensures LookupOk(r)
    decreases |path| - depth, 0, NUM_SLOTS - slot
  {
    if slot == NUM_SLOTS then g
    else
      var b := img.inodes[cur].dataBlocks[slot];
      if b == 0 then Scan(img, cur, path, depth, slot + 1, g)
      else
        var g1 := if depth == 1 then g.(initialRefBlock := slot) else g;
        var e := img.blocks[b];
        if Names(e, path[depth - 1]) then
          if depth == |path| then g1.(node := e.inode)
          else
            var below := Find(img, e.inode, path, depth + 1, g1.(parentDir := g1.parentDir[depth := e.inode]));
            Scan(img, cur, path, depth, slot + 1, below)
        else Scan(img, cur, path, depth, slot + 1, g1)
  }

  /** The root slot recorded at depth 1 is non-empty. */
  ghost predicate RefRecorded(img: Image, cur: int, g: Lookup)
    requires WellFormed(img) && LookupOk(g) && 0 <= cur < NUM_INODES
  {
    img.inodes[cur].dataBlocks[g.initialRefBlock] != 0
  }

  /** What a walk guarantees about the globals it leaves behind: below depth
      1 the recorded root slot is untouched; a found inode is never 0; only
      `parentDir[depth..]` is written, never with 0; if the walk finds the
      target, every `parentDir` entry it relies on was written; and at depth
      1 the recorded root slot is a non-empty one. */
  lemma {:induction false} FindFacts(img: Image, cur: int, path: seq<string>, depth: int, g: Lookup)
    requires WellFormed(img) && Intact(img) && LookupOk(g)
    requires 0 <= cur < NUM_INODES && 1 <= depth <= |path| < MAX_DEPTH
    ensures var r := Find(img, cur, path, depth, g);
      (depth >= 2 ==> r.initialRefBlock == g.initialRefBlock) &&
      (g.node != 0 ==> r.node != 0) &&
      (forall j :: 0 <= j < MAX_DEPTH ==> r.parentDir[j] == g.parentDir[j] || (depth <= j && r.parentDir[j] != 0)) &&
      (g.node == 0 && r.node != 0 ==> forall j :: depth <= j < |path| ==> r.parentDir[j] != 0) &&
      (depth == 1 && (g.node == 0 || RefRecorded(img, cur, g)) ==> r.node == 0 || RefRecorded(img, cur, r))
    decreases |path| - depth, 1, 0
  {
    if img.inodes[cur].inUse {
      ScanFacts(img, cur, path, depth, 0, g);
    }
  }

  lemma {:induction false} ScanFacts(img: Image, cur: int, path: seq<string>, depth: int, slot: int, g: Lookup)
    requires WellFormed(img) && Intact(img) && LookupOk(g)
    requires 0 <= cur < NUM_INODES && 1 <= depth <= |path| < MAX_DEPTH
    requires 0 <= slot <= NUM_SLOTS
    ensures var r := Scan(img, cur, path, depth, slot, g);
      (depth >= 2 ==> r.initialRefBlock == g.initialRefBlock) &&
      (g.node != 0 ==> r.node != 0) &&
      (forall j :: 0 <= j < MAX_DEPTH ==> r.parentDir[j] == g.parentDir[j] || (depth <= j && r.parentDir[j] != 0)) &&
      (g.node == 0 && r.node != 0 ==> forall j :: depth <= j < |path| ==> r.parentDir[j] != 0) &&
      (depth == 1 && (g.node == 0 || RefRecorded(img, cur, g)) ==> r.node == 0 || RefRecorded(img, cur, r))
    decreases |path| - depth, 0, NUM_SLOTS - slot
  {
    if slot < NUM_SLOTS {
      var b := img.inodes[cur].dataBlocks[slot];
      if b == 0 {
        ScanFacts(img, cur, path, depth, slot + 1, g);
      } else {
        var g1 := if depth == 1 then g.(initialRefBlock := slot) else g;
        var e := img.blocks[b];
        if Names(e, path[depth - 1]) {
          assert e.inode != 0;
          if depth < |path| {
            var g2 := g1.(parentDir := g1.parentDir[depth := e.inode]);
            var below := Find(img, e.inode, path, depth + 1, g2);
            FindFacts(img, e.inode, path, depth + 1, g2);
            ScanFacts(img, cur, path, depth, slot + 1, below);
            assert below.parentDir[depth] == e.inode;
          }
        } else {
          ScanFacts(img, cur, path, depth, slot + 1, g1);
        }
      }
    }
  }

  /** A component that no non-empty slot names is not found: `node` and
      `parentDir` keep their values. */
  lemma {:induction false} ScanAbsent(img: Image, cur: int, path: seq<string>, depth: int, slot: int, g: Lookup)
    requires WellFormed(img) && LookupOk(g)
    requires 0 <= cur < NUM_INODES && 1 <= depth <= |path| < MAX_DEPTH
    requires 0 <= slot <= NUM_SLOTS
    requires forall k :: 0 <= k < NUM_SLOTS && img.inodes[cur].dataBlocks[k] != 0 ==>
               !Names(img.blocks[img.inodes[cur].dataBlocks[k]], path[depth - 1])
    ensures var r := Scan(img, cur, path, depth, slot, g);
      r.node == g.node && r.parentDir == g.parentDir
    decreases NUM_SLOTS - slot
  {
    if slot < NUM_SLOTS {
      var g1 := if depth == 1 then g.(initialRefBlock := slot) else g;
      ScanAbsent(img, cur, path, depth, slot + 1, if img.inodes[cur].dataBlocks[slot] == 0 then g else g1);
    }
  }

  /** At the last depth the first non-empty slot (in slot order) whose entry
      carries the name decides the result. */
  lemma {:induction false} ScanFirstMatch(img: Image, cur: int, path: seq<string>, slot: int, s: int, g: Lookup)
    requires WellFormed(img) && LookupOk(g)
    requires 0 <= cur < NUM_INODES && 1 <= |path| < MAX_DEPTH
    requires 0 <= slot <= s < NUM_SLOTS
    requires img.inodes[cur].dataBlocks[s] != 0
    requires Names(img.blocks[img.inodes[cur].dataBlocks[s]], path[|path| - 1])
    requires forall k :: slot <= k < s && img.inodes[cur].dataBlocks[k] != 0 ==>
               !Names(img.blocks[img.inodes[cur].dataBlocks[k]], path[|path| - 1])
    ensures Scan(img, cur, path, |path|, slot, g).node == img.blocks[img.inodes[cur].dataBlocks[s]].inode
    decreases s - slot
  {
    if slot < s {
      var g1 := if |path| == 1 then g.(initialRefBlock := slot) else g;
      ScanFirstMatch(img, cur, path, slot + 1, s, if img.inodes[cur].dataBlocks[slot] == 0 then g else g1);
    }
  }

  /** A directory in which exactly one non-empty slot `s` names the
      component: the walk from `slot` reaches what that entry leads to (the
      entry's inode at the last depth, otherwise what the walk below it
      finds), and a walk that starts past `s` finds nothing new. */
  lemma {:induction false} ScanUnique(img: Image, cur: int, path: seq<string>, depth: int, slot: int, s: int, target: int, g: Lookup)
    requires WellFormed(img) && LookupOk(g)
    requires 0 <= cur < NUM_INODES && 1 <= depth <= |path| < MAX_DEPTH
    requires 0 <= slot <= NUM_SLOTS && 0 <= s < NUM_SLOTS
    requires img.inodes[cur].dataBlocks[s] != 0
    requires Names(img.blocks[img.inodes[cur].dataBlocks[s]], path[depth - 1])
    requires forall k :: 0 <= k < NUM_SLOTS && k != s && img.inodes[cur].dataBlocks[k] != 0 ==>
               !Names(img.blocks[img.inodes[cur].dataBlocks[k]], path[depth - 1])
    requires depth == |path| ==> img.blocks[img.inodes[cur].dataBlocks[s]].inode == target
    requires depth < |path| ==> Leads(img, img.blocks[img.inodes[cur].dataBlocks[s]].inode, path, depth + 1, target)
    ensures Scan(img, cur, path, depth, slot, g).node == if slot <= s then target else g.node
    decreases NUM_SLOTS - slot
  {
    if slot < NUM_SLOTS {
      var b := img.inodes[cur].dataBlocks[slot];
      if b == 0 {
        ScanUnique(img, cur, path, depth, slot + 1, s, target, g);
      } else {
        var g1 := if depth == 1 then g.(initialRefBlock := slot) else g;
        var e := img.blocks[b];
        if Names(e, path[depth - 1]) {
          if depth < |path| {
            var below := Find(img, e.inode, path, depth + 1, g1.(parentDir := g1.parentDir[depth := e.inode]));
            assert slot == s;
            assert below.node == target;
            ScanUnique(img, cur, path, depth, slot + 1, s, target, below);
          }
        } else {
          ScanUnique(img, cur, path, depth, slot + 1, s, target, g1);
        }
      }
    }
  }

  /** A walk at `depth` writes no `parentDir` entry above it. */
  lemma {:induction false} FindKeepsAbove(img: Image, cur: int, path: seq<string>, depth: int, g: Lookup)
    requires WellFormed(img) && LookupOk(g)
    requires 0 <= cur < NUM_INODES && 1 <= depth <= |path| < MAX_DEPTH
    ensures forall j :: 0 <= j < depth ==> Find(img, cur, path, depth, g).parentDir[j] == g.parentDir[j]
    decreases |path| - depth, 1, 0
  {
    if img.inodes[cur].inUse {
      ScanKeepsAbove(img, cur, path, depth, 0, g);
    }
  }

  lemma {:induction false} ScanKeepsAbove(img: Image, cur: int, path: seq<string>, depth: int, slot: int, g: Lookup)
    requires WellFormed(img) && LookupOk(g)
    requires 0 <= cur < NUM_INODES && 1 <= depth <= |path| < MAX_DEPTH
    requires 0 <= slot <= NUM_SLOTS
    ensures forall j :: 0 <= j < depth ==> Scan(img, cur, path, depth, slot, g).parentDir[j] == g.parentDir[j]
    decreases |path| - depth, 0, NUM_SLOTS - slot
  {
    if slot < NUM_SLOTS {
      var b := img.inodes[cur].dataBlocks[slot];
      if b == 0 {
        ScanKeepsAbove(img, cur, path, depth, slot + 1, g);
      } else {
        var g1 := if depth == 1 then g.(initialRefBlock := slot) else g;
        var e := img.blocks[b];
        if Names(e, path[depth - 1]) {
          if depth < |path| {
            var g2 := g1.(parentDir := g1.parentDir[depth := e.inode]);
            var below := Find(img, e.inode, path, depth + 1, g2);
            FindKeepsAbove(img, e.inode, path, depth + 1, g2);
            ScanKeepsAbove(img, cur, path, depth, slot + 1, below);
          }
        } else {
          ScanKeepsAbove(img, cur, path, depth, slot + 1, g1);
        }
      }
    }
  }

  /** Above the last depth the scan goes on past a match, so when several
      non-empty slots name the component, `parentDir[depth]` ends as the
      inode of the LAST of them, `s`, whatever was found below the earlier
      ones. A scan that starts past `s` leaves `parentDir[depth]` alone. */
  lemma {:induction false} ScanLastMatch(img: Image, cur: int, path: seq<string>, depth: int, slot: int, s: int, g: Lookup)
    requires WellFormed(img) && LookupOk(g)
    requires 0 <= cur < NUM_INODES && 1 <= depth < |path| < MAX_DEPTH
    requires 0 <= slot <= NUM_SLOTS && 0 <= s < NUM_SLOTS
    requires img.inodes[cur].dataBlocks[s] != 0
    requires Names(img.blocks[img.inodes[cur].dataBlocks[s]], path[depth - 1])
    requires forall k :: s < k < NUM_SLOTS && img.inodes[cur].dataBlocks[k] != 0 ==>
               !Names(img.blocks[img.inodes[cur].dataBlocks[k]], path[depth - 1])
    ensures Scan(img, cur, path, depth, slot, g).parentDir[depth] ==
      if slot <= s then img.blocks[img.inodes[cur].dataBlocks[s]].inode else g.parentDir[depth]
    decreases NUM_SLOTS - slot
  {
    if slot < NUM_SLOTS {
      var b := img.inodes[cur].dataBlocks[slot];
      if b == 0 {
        ScanLastMatch(img, cur, path, depth, slot + 1, s, g);
      } else {
        var g1 := if depth == 1 then g.(initialRefBlock := slot) else g;
        var e := img.blocks[b];
        if Names(e, path[depth - 1]) {
          var g2 := g1.(parentDir := g1.parentDir[depth := e.inode]);
          var below := Find(img, e.inode, path, depth + 1, g2);
          FindKeepsAbove(img, e.inode, path, depth + 1, g2);
          ScanLastMatch(img, cur, path, depth, slot + 1, s, below);
        } else {
          ScanLastMatch(img, cur, path, depth, slot + 1, s, g1);
        }
      }
    }
  }

  /** A walk through an in-use directory records in `parentDir[depth]`
      the last non-empty slot's entry that names the component. */
  lemma FindRecordsLast(img: Image, cur: int, path: seq<string>, depth: int, s: int, g: Lookup)
    requires WellFormed(img) && LookupOk(g)
    requires 0 <= cur < NUM_INODES && 1 <= depth < |path| < MAX_DEPTH && 0 <= s < NUM_SLOTS
    requires img.inodes[cur].inUse && img.inodes[cur].dataBlocks[s] != 0
    requires Names(img.blocks[img.inodes[cur].dataBlocks[s]], path[depth - 1])
    requires forall k :: s < k < NUM_SLOTS && img.inodes[cur].dataBlocks[k] != 0 ==>
               !Names(img.blocks[img.inodes[cur].dataBlocks[k]], path[depth - 1])
    ensures Find(img, cur, path, depth, g).parentDir[depth] == img.blocks[img.inodes[cur].dataBlocks[s]].inode
  {
    ScanLastMatch(img, cur, path, depth, 0, s, g);
  }

  /** Every walk from `cur` at `depth`, whatever the globals, ends with
      `node == target`. */
  ghost predicate Leads(img: Image, cur: int, path: seq<string>, depth: int, target: int)
    requires WellFormed(img) && 0 <= cur < NUM_INODES && 1 <= depth <= |path| < MAX_DEPTH
  {
    forall g :: LookupOk(g) ==> Find(img, cur, path, depth, g).node == target
  }

  /** Slot `s` of directory `cur` holds the entry (`name`, `child`) and no
      other non-empty slot holds an entry called `name`. */
  ghost predicate OnlyEntry(img: Image, cur: int, s: int, name: string, child: int)
    requires WellFormed(img) && 0 <= cur < NUM_INODES
  {
    0 <= s < NUM_SLOTS && img.inodes[cur].dataBlocks[s] != 0 &&
    img.blocks[img.inodes[cur].dataBlocks[s]] == Entry(name, child) &&
    forall k :: 0 <= k < NUM_SLOTS && k != s && img.inodes[cur].dataBlocks[k] != 0 ==>
      !Names(img.blocks[img.inodes[cur].dataBlocks[k]], name)
  }

  /** A path leads through a directory whose only entry for the component
      leads on to `target` (or is `target`, at the last depth). */
  lemma EntryLeads(img: Image, cur: int, path: seq<string>, depth: int, s: int, child: int, target: int)
    requires WellFormed(img) && 0 <= cur < NUM_INODES && 1 <= depth <= |path| < MAX_DEPTH
    requires img.inodes[cur].inUse && OnlyEntry(img, cur, s, path[depth - 1], child)
    requires depth == |path| ==> child == target
    requires depth < |path| ==> 0 <= child < NUM_INODES && Leads(img, child, path, depth + 1, target)
    ensures Leads(img, cur, path, depth, target)
  {
    forall g | LookupOk(g)
      ensures Find(img, cur, path, depth, g).node == target
    {
      ScanUnique(img, cur, path, depth, 0, s, target, g);
    }
  }

  /** The directories a path passes through: `dirs[0]` is the root, each
      `dirs[d]` is in use, and its slot `slots[d]` holds the only entry
      named `path[d]`, which names `dirs[d + 1]`. */
  ghost predicate Chain(img: Image, path: seq<string>, dirs: seq<int>, slots: seq<int>)
    requires WellFormed(img)
  {
    |dirs| == |path| + 1 && |slots| == |path| && dirs[0] == 0 &&
    (forall d :: 0 <= d <= |path| ==> 0 <= dirs[d] < NUM_INODES) &&
    (forall d :: 0 <= d < |path| ==> 0 <= slots[d] < NUM_SLOTS) &&
    forall d :: 0 <= d < |path| ==>
      img.inodes[dirs[d]].inUse && OnlyEntry(img, dirs[d], slots[d], path[d], dirs[d + 1])
  }

  /** Along a chain, the walk from `dirs[depth - 1]` finds the chain's last
      inode and records each directory it passes in `parentDir` at its own
      depth; entries below `depth` keep their values. */
  lemma {:induction false} FindChain(img: Image, path: seq<string>, dirs: seq<int>, slots: seq<int>, depth: int, g: Lookup)
    requires WellFormed(img) && LookupOk(g) && 1 <= depth <= |path| < MAX_DEPTH && Chain(img, path, dirs, slots)
    ensures var r := Find(img, dirs[depth - 1], path, depth, g);
      r.node == dirs[|path|] &&
      (forall j :: depth <= j < |path| ==> r.parentDir[j] == dirs[j]) &&
      (forall j :: 0 <= j < depth ==> r.parentDir[j] == g.parentDir[j])
    decreases |path| - depth, 1, 0
  {
    assert img.inodes[dirs[depth - 1]].inUse && OnlyEntry(img, dirs[depth - 1], slots[depth - 1], path[depth - 1], dirs[depth]);
    ScanChain(img, path, dirs, slots, depth, 0, g);
  }

  /** The slot loop along a chain: from a slot up to the chain's slot it
      does what `FindChain` says; past that slot it finds nothing new. */
  lemma {:induction false} ScanChain(img: Image, path: seq<string>, dirs: seq<int>, slots: seq<int>, depth: int, slot: int, g: Lookup)
    requires WellFormed(img) && LookupOk(g) && 1 <= depth <= |path| < MAX_DEPTH && Chain(img, path, dirs, slots)
    requires 0 <= slot <= NUM_SLOTS
    ensures var r := Scan(img, dirs[depth - 1], path, depth, slot, g);
      if slot <= slots[depth - 1] then
        r.node == dirs[|path|] &&
        (forall j :: depth <= j < |path| ==> r.parentDir[j] == dirs[j]) &&
        (forall j :: 0 <= j < depth ==> r.parentDir[j] == g.parentDir[j])
      else r.node == g.node && r.parentDir == g.parentDir
    decreases |path| - depth, 0, NUM_SLOTS - slot
  {
    var cur := dirs[depth - 1];
    assert OnlyEntry(img, cur, slots[depth - 1], path[depth - 1], dirs[depth]);
    if slot < NUM_SLOTS {
      var b := img.inodes[cur].dataBlocks[slot];
      if b == 0 {
        ScanChain(img, path, dirs, slots, depth, slot + 1, g);
      } else {
        var g1 := if depth == 1 then g.(initialRefBlock := slot) else g;
        var e := img.blocks[b];
        if Names(e, path[depth - 1]) {
          assert slot == slots[depth - 1] && e.inode == dirs[depth];
          if depth < |path| {
            var g2 := g1.(parentDir := g1.parentDir[depth := e.inode]);
            FindChain(img, path, dirs, slots, depth + 1, g2);
            ScanChain(img, path, dirs, slots, depth, slot + 1, Find(img, e.inode, path, depth + 1, g2));
          }
        } else {
          ScanChain(img, path, dirs, slots, depth, slot + 1, g1);
        }
      }
    }
  }

  /** `Leads` at two depths that are equal (stated so that the two
      arithmetic forms of the depth need not be matched up). */
  lemma LeadsAt(img: Image, cur: int, path: seq<string>, d1: int, d2: int, target: int)
    requires WellFormed(img) && 0 <= cur < NUM_INODES && 1 <= d1 <= |path| < MAX_DEPTH && d1 == d2
    requires Leads(img, cur, path, d1, target)
    ensures Leads(img, cur, path, d2, target)
  {
    forall g | LookupOk(g)
      ensures Find(img, cur, path, d2, g).node == target
    {
      assert Find(img, cur, path, d2, g) == Find(img, cur, path, d1, g);
    }
  }
}
