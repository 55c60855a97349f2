/** Listing (`lsfs`): the tree walk, as the sequence of lines it prints. */
module Listing {
  import opened Layout
  import opened Formatting

  /** One printed line: the root's own name (printed for inode 0), an entry
      with its indentation, inode number and size, or a slot whose block
      holds file bytes rather than an entry. */
  datatype Row =
    | RootLine(rootName: Option<string>)
    | Listed(indent: int, name: string, inode: int, size: int)
    | Garbled(indent: int)

  /** `lsfs(ino, indent)`, cut off after `fuel` nested directories (the
      walk has no depth bound of its own). */
  function List(img: Image, ino: int, indent: int, fuel: nat): seq<Row>
    requires WellFormed(img) && 0 <= ino < NUM_INODES
    decreases fuel, 1, 0
  {
    if fuel == 0 || !img.inodes[ino].inUse then []
    else
      var head := if ino != 0 then []
                  else if img.blocks[0].Entry? then [RootLine(Some(img.blocks[0].name))]
                  else [RootLine(None)];
      head + ListSlots(img, ino, indent, 0, fuel)
  }

  /** The slot loop of `lsfs` from slot `slot` on: one line per non-empty
      slot, followed by the listing of that entry when it is a directory. */
  function ListSlots(img: Image, ino: int, indent: int, slot: int, fuel: nat): seq<Row>
    requires WellFormed(img) && 0 <= ino < NUM_INODES && 0 <= slot <= NUM_SLOTS
    decreases fuel, 0, NUM_SLOTS - slot
  {
    if slot == NUM_SLOTS || fuel == 0 then []
    else
      var b := img.inodes[ino].dataBlocks[slot];
      if b == 0 then ListSlots(img, ino, indent, slot + 1, fuel)
      else
        var e := img.blocks[b];
        var here := if e.Entry? then [Listed(indent, e.name, e.inode, img.inodes[e.inode].fileSize)] else [Garbled(indent)];
        var below := if e.Entry? && img.inodes[e.inode].fileType == 'd' then List(img, e.inode, indent + 1, fuel - 1) else [];
        here + below + ListSlots(img, ino, indent, slot + 1, fuel)
  }

  /** The line a non-empty slot prints at its own level. */
  function SlotRow(img: Image, b: int, indent: int): Row
    requires WellFormed(img) && 0 <= b < NUM_BLOCKS
  {
    var e := img.blocks[b];
    if e.Entry? then Listed(indent, e.name, e.inode, img.inodes[e.inode].fileSize) else Garbled(indent)
  }

  /** The lines of a directory's own level, one per non-empty slot, from `slot` on. */
  function Heads(img: Image, ino: int, indent: int, slot: int): seq<Row>
    requires WellFormed(img) && 0 <= ino < NUM_INODES && 0 <= slot <= NUM_SLOTS
    decreases NUM_SLOTS - slot
  {
    if slot == NUM_SLOTS then []
    else
      var b := img.inodes[ino].dataBlocks[slot];
      (if b == 0 then [] else [SlotRow(img, b, indent)]) + Heads(img, ino, indent, slot + 1)
  }

  /** The entry and garbled lines at exactly `indent`. */
  function AtIndent(rows: seq<Row>, indent: int): seq<Row> {
    if rows == [] then []
    else (if !rows[0].RootLine? && rows[0].indent == indent then [rows[0]] else []) + AtIndent(rows[1..], indent)
  }

  lemma {:induction false} AtIndentAppend(a: seq<Row>, b: seq<Row>, indent: int)
    ensures AtIndent(a + b, indent) == AtIndent(a, indent) + AtIndent(b, indent)
  {
    if a != [] {
      AtIndentAppend(a[1..], b, indent);
      assert (a + b)[1..] == a[1..] + b;
    } else {
      assert a + b == b;
    }
  }

  /** Every entry or garbled line of a listing at `indent` is indented at
      least that far. */
  lemma ListIndented(img: Image, ino: int, indent: int, fuel: nat)
    requires WellFormed(img) && 0 <= ino < NUM_INODES
    ensures forall r :: r in List(img, ino, indent, fuel) && !r.RootLine? ==> r.indent >= indent
  {
    forall r | r in List(img, ino, indent, fuel) && !r.RootLine? {
      ListIndentedAt(img, ino, indent, fuel, r);
    }
  }

  /** The same, for one line `row`. */
  lemma {:induction false} ListIndentedAt(img: Image, ino: int, indent: int, fuel: nat, row: Row)
    requires WellFormed(img) && 0 <= ino < NUM_INODES
    ensures row in List(img, ino, indent, fuel) && !row.RootLine? ==> row.indent >= indent
    decreases fuel, 1, 0
  {
    if fuel > 0 && img.inodes[ino].inUse {
      ListSlotsIndentedAt(img, ino, indent, 0, fuel, row);
    }
  }

  lemma {:induction false} ListSlotsIndentedAt(img: Image, ino: int, indent: int, slot: int, fuel: nat, row: Row)
    requires WellFormed(img) && 0 <= ino < NUM_INODES && 0 <= slot <= NUM_SLOTS
    ensures row in ListSlots(img, ino, indent, slot, fuel) && !row.RootLine? ==> row.indent >= indent
    decreases fuel, 0, NUM_SLOTS - slot
  {
    if slot < NUM_SLOTS && fuel > 0 {
      ListSlotsIndentedAt(img, ino, indent, slot + 1, fuel, row);
      var b := img.inodes[ino].dataBlocks[slot];
      if b != 0 && img.blocks[b].Entry? && img.inodes[img.blocks[b].inode].fileType == 'd' {
        ListIndentedAt(img, img.blocks[b].inode, indent + 1, fuel - 1, row);
      }
    }
  }

  lemma {:induction false} AtIndentNone(rows: seq<Row>, indent: int)
    requires forall r :: r in rows && !r.RootLine? ==> r.indent > indent
    ensures AtIndent(rows, indent) == []
  {
    if rows != [] {
      assert rows[0] in rows;
      assert forall r :: r in rows[1..] ==> r in rows;
      AtIndentNone(rows[1..], indent);
    }
  }

  /** At a directory's own indentation the listing shows exactly one line
      per non-empty slot, in slot order; everything printed for the
      subdirectories is indented further. */
  lemma {:induction false} ListLevel(img: Image, ino: int, indent: int, slot: int, fuel: nat)
    requires WellFormed(img) && 0 <= ino < NUM_INODES && 0 <= slot <= NUM_SLOTS && fuel > 0
    ensures AtIndent(ListSlots(img, ino, indent, slot, fuel), indent) == Heads(img, ino, indent, slot)
    decreases NUM_SLOTS - slot
  {
    if slot < NUM_SLOTS {
      ListLevel(img, ino, indent, slot + 1, fuel);
      var b := img.inodes[ino].dataBlocks[slot];
      var rest := ListSlots(img, ino, indent, slot + 1, fuel);
      if b != 0 {
        var e := img.blocks[b];
        var here := [SlotRow(img, b, indent)];
        var below := if e.Entry? && img.inodes[e.inode].fileType == 'd' then List(img, e.inode, indent + 1, fuel - 1) else [];
        if e.Entry? && img.inodes[e.inode].fileType == 'd' {
          ListIndented(img, e.inode, indent + 1, fuel - 1);
        }
        AtIndentNone(below, indent);
        assert ListSlots(img, ino, indent, slot, fuel) == here + below + rest;
        AtIndentAppend(here + below, rest, indent);
        AtIndentAppend(here, below, indent);
        assert AtIndent(here, indent) == here;
      }
    }
  }

  /** Empty slots print nothing. */
  lemma {:induction false} ListSlotsEmpty(img: Image, ino: int, indent: int, slot: int, fuel: nat)
    requires WellFormed(img) && 0 <= ino < NUM_INODES && 0 <= slot <= NUM_SLOTS
    requires forall k :: slot <= k < NUM_SLOTS ==> img.inodes[ino].dataBlocks[k] == 0
    ensures ListSlots(img, ino, indent, slot, fuel) == []
    decreases NUM_SLOTS - slot
  {
    if slot < NUM_SLOTS && fuel > 0 {
      ListSlotsEmpty(img, ino, indent, slot + 1, fuel);
    }
  }

  /** Listing a freshly formatted filesystem prints the root's name and nothing else. */
  lemma ListFresh(fuel: nat)
    requires fuel > 0
    ensures WellFormed(Format(ZeroImage()))
    ensures List(Format(ZeroImage()), 0, 1, fuel) == [RootLine(Some("root"))]
  {
    FormatFresh();
    ListSlotsEmpty(Format(ZeroImage()), 0, 1, 0, fuel);
  }
}
