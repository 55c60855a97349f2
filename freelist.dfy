/** First-fit scans over flag sequences: the free-block bitmap (0 = free)
    and the inode table viewed through its `inUse` flags. */
module FreeLists {
  import opened Layout

  /** The indices at or after `from` whose flag is 0, in increasing order. */
  function FreeList(s: seq<int>, from: nat): seq<int>
    decreases |s| - from
  {
    if from >= |s| then []
    else if s[from] == 0 then [from] + FreeList(s, from + 1)
    else FreeList(s, from + 1)
  }

  /** Every index on the free list is a free one at or after `from`, and
      the list is strictly increasing. */
  lemma {:induction false} FreeListSound(s: seq<int>, from: nat)
    ensures forall k :: 0 <= k < |FreeList(s, from)| ==> from <= FreeList(s, from)[k] < |s| && s[FreeList(s, from)[k]] == 0
    ensures forall k, m :: 0 <= k < m < |FreeList(s, from)| ==> FreeList(s, from)[k] < FreeList(s, from)[m]
    decreases |s| - from
  {
    if from < |s| {
      FreeListSound(s, from + 1);
      var t := FreeList(s, from + 1);
      var r := FreeList(s, from);
      if s[from] == 0 {
        assert r == [from] + t;
        assert forall k :: 1 <= k < |r| ==> r[k] == t[k - 1];
      } else {
        assert r == t;
      }
    }
  }

  /** The lowest index at or after `from` whose flag is 0, or -1. */
  function FirstFree(s: seq<int>, from: nat): (r: int)
    ensures r == -1 <==> forall j :: from <= j < |s| ==> s[j] != 0
    ensures r != -1 ==> from <= r < |s| && s[r] == 0 && forall j :: from <= j < r ==> s[j] != 0
  {
    FreeListHead(s, from);
    FreeListSound(s, from);
    var l := FreeList(s, from);
    if l == [] then -1 else l[0]
  }

  /** The list is complete: it starts at the lowest index at or after
      `from` whose flag is 0, and is empty only when there is none. */
  lemma {:induction false} FreeListHead(s: seq<int>, from: nat)
    ensures FreeList(s, from) == [] <==> forall j :: from <= j < |s| ==> s[j] != 0
    ensures |FreeList(s, from)| > 0 ==> forall j :: from <= j < |s| && j < FreeList(s, from)[0] ==> s[j] != 0
    decreases |s| - from
  {
    if from < |s| && s[from] != 0 {
      FreeListHead(s, from + 1);
    }
  }

  /** The inode table's `inUse` flags as 1 (used) / 0 (free). */
  function UseFlags(ins: seq<Inode>): (r: seq<int>)
    ensures |r| == |ins|
    ensures forall i :: 0 <= i < |ins| ==> (r[i] == 0 <==> !ins[i].inUse)
  {
    seq(|ins|, i requires 0 <= i < |ins| => if ins[i].inUse then 1 else 0)
  }

  /** When every flag from `from` on is 0, every one of those indices is
      on the free list. */
  lemma {:induction false} FreeListAll(s: seq<int>, from: nat)
    requires from <= |s| && forall j :: from <= j < |s| ==> s[j] == 0
    ensures |FreeList(s, from)| == |s| - from
    decreases |s| - from
  {
    if from < |s| {
      FreeListAll(s, from + 1);
    }
  }

  /** Skipping used flags does not change the free list. */
  lemma {:induction false} FreeListSkip(s: seq<int>, from: nat, stop: nat)
    requires from <= stop <= |s|
    requires forall j :: from <= j < stop ==> s[j] != 0
    ensures FreeList(s, from) == FreeList(s, stop)
    decreases stop - from
  {
    if from < stop {
      FreeListSkip(s, from + 1, stop);
    }
  }

  /** Taking the first free index (flag set to 1) removes exactly the head
      of the free list: this is what makes repeated allocation first-fit. */
  lemma TakeFirst(s: seq<int>, from: nat, v: int)
    requires FirstFree(s, from) != -1
    requires v != 0
    ensures FreeList(s[FirstFree(s, from) := v], from) == FreeList(s, from)[1..]
  {
    TakeAt(s, from, FirstFree(s, from), v);
  }

  lemma {:induction false} TakeAt(s: seq<int>, from: nat, b: nat, v: int)
    requires from <= b < |s| && s[b] == 0 && v != 0
    requires forall j :: from <= j < b ==> s[j] != 0
    ensures |FreeList(s, from)| >= 1 && FreeList(s[b := v], from) == FreeList(s, from)[1..]
  {
    var t := s[b := v];
    FreeListSkip(s, from, b);
    assert FreeList(s, b) == [b] + FreeList(s, b + 1);
    assert forall j :: from <= j < b + 1 ==> t[j] != 0;
    FreeListSkip(t, from, b + 1);
    FreeListFrom(s, t, b + 1);
  }

  /** The free list only looks at the flags from `from` on. */
  lemma {:induction false} FreeListFrom(s: seq<int>, t: seq<int>, from: nat)
    requires |s| == |t|
    requires forall j :: from <= j < |s| ==> s[j] == t[j]
    ensures FreeList(s, from) == FreeList(t, from)
    decreases |s| - from
  {
    if from < |s| {
      FreeListFrom(s, t, from + 1);
    }
  }

  /** The flag view depends only on the `inUse` bits. */
  lemma UseFlagsSame(a: seq<Inode>, c: seq<Inode>)
    requires |a| == |c|
    requires forall i :: 0 <= i < |a| ==> a[i].inUse == c[i].inUse
    ensures UseFlags(a) == UseFlags(c)
  {
    assert forall i :: 0 <= i < |a| ==> UseFlags(a)[i] == UseFlags(c)[i];
  }
}
