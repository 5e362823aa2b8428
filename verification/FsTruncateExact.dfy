/** When shrinking a file frees exactly the blocks it gives up, and a sparse file for which it does not. */
module FsTruncateExact {
  import opened Bytes
  import opened FsLayout
  import opened FsVolume
  import opened FsOwnership
  import opened FsGrowth
  import opened FsLookup
  import opened FsFiles
  import opened FsTruncate

  /** What truncation is for: the file keeps exactly its first `start` blocks, and the blocks freed are exactly
      those that nothing of the file leads to any more. */
  ghost predicate Precise(v: Vol, w: Vol, f: nat, start: nat)
    requires Shape(v) && Shape(w) && f < |v.inodes| && |w.inodes| == |v.inodes|
  {
    && (forall n :: 0 <= n < MAX_BLOCKS ==> Holds(w, Data(f, n)) == if n < start then Holds(v, Data(f, n)) else 0)
    && (forall c: nat :: 0 < c < |v.disk| ==>
          (IsUsed(v, c) && !IsUsed(w, c) <==> OwnedBy(v, f, c) && !OwnedBy(w, f, c)))
  }

  /** No address block behind the first NULL of the double indirect block matters: there is none, or the double
      indirect block itself stays and they are empty. */
  ghost predicate NoStrays(v: Vol, f: nat, start: nat)
    requires Shape(v) && f < |v.inodes|
  {
    forall k :: StopAt(v, f, start) <= k < ADDRS && Holds(v, MidOf(f, k)) != 0 ==>
      start >= FIRST_DOUBLE && forall n :: FIRST_DOUBLE + ADDRS * k <= n < FIRST_DOUBLE + ADDRS * (k + 1) ==>
          Holds(v, Data(f, n)) == 0
  }

  lemma MidOfData(v: Vol, f: nat, n: nat)
    requires Shape(v) && f < |v.inodes| && FIRST_DOUBLE <= n < MAX_BLOCKS && Holds(v, Data(f, n)) != 0
    ensures Holds(v, MidOf(f, (n - FIRST_DOUBLE) / ADDRS)) != 0
  {
    assert Parent(Data(f, n)) == MidOf(f, (n - FIRST_DOUBLE) / ADDRS);
  }

  /** Without strays no slot that holds something is lost but not freed. */
  lemma LostIsNotStray(v: Vol, f: nat, start: nat, t: Slot)
    requires Shape(v) && f < |v.inodes| && ValidSlot(v, t) && Holds(v, t) != 0 && Lost(v, f, start, t)
        && NoStrays(v, f, start)
    ensures !Stray(v, f, start, t)
  {
    hide Holds, StopAt;
    if t.Data? && t.n >= FIRST_DOUBLE {
      MidOfData(v, f, t.n);
    }
  }

  lemma FirstMidIsBelow(v: Vol, f: nat, start: nat, k: nat)
    requires Shape(v) && f < |v.inodes| && StopAt(v, f, start) <= k < ADDRS && Holds(v, MidOf(f, k)) != 0
    ensures start <= FIRST_DOUBLE + ADDRS * k
  {
  }

  lemma DataAfter(v: Vol, w: Vol, f: nat, start: nat, n: nat)
    requires Own(v) && f < |v.inodes| && n < MAX_BLOCKS && Shape(w) && |w.inodes| == |v.inodes| && NoStrays(v, f, start)
    requires Holds(w, Data(f, n)) == if Lost(v, f, start, Data(f, n)) then 0 else Holds(v, Data(f, n))
    ensures Holds(w, Data(f, n)) == if n < start then Holds(v, Data(f, n)) else 0
  {
    hide Holds, StopAt;
    if n >= FIRST_DOUBLE && Holds(v, Data(f, n)) != 0 {
      MidOfData(v, f, n);
    }
  }

  lemma OwnedAfter(v: Vol, w: Vol, f: nat, start: nat, c: nat)
    requires Own(v) && f < |v.inodes| && Shape(w) && |w.inodes| == |v.inodes| && c != 0
    requires forall s :: ValidSlot(v, s) ==> Holds(w, s) == if Lost(v, f, start, s) then 0 else Holds(v, s)
    ensures OwnedBy(v, f, c) && !OwnedBy(w, f, c) <==>
        exists t :: ValidSlot(v, t) && Holds(v, t) == c && Lost(v, f, start, t)
  {
    hide Holds, Lost;
    if OwnedBy(v, f, c) && !OwnedBy(w, f, c) {
      var t :| ValidSlot(v, t) && t.f == f && Holds(v, t) == c;
      assert Holds(w, t) != c;
    }
    forall t | ValidSlot(v, t) && Holds(v, t) == c && Lost(v, f, start, t)
      ensures OwnedBy(v, f, c) && !OwnedBy(w, f, c)
    {
      LostIsOwn(v, f, start, t);
      forall s | ValidSlot(w, s) && s.f == f ensures Holds(w, s) != c {
        if s != t {
          DistinctSlots(v, t, s);
        }
      }
    }
  }

  lemma LostIsOwn(v: Vol, f: nat, start: nat, t: Slot)
    requires Shape(v) && f < |v.inodes| && Lost(v, f, start, t)
    ensures t.f == f
  {
  }

  lemma FreedAfter(v: Vol, w: Vol, f: nat, start: nat, c: nat)
    requires Own(v) && f < |v.inodes| && Shape(w) && |w.inodes| == |v.inodes| && c != 0 && NoStrays(v, f, start)
    requires forall s :: ValidSlot(v, s) ==> Holds(w, s) == if Lost(v, f, start, s) then 0 else Holds(v, s)
    ensures Freed(v, f, start, c) <==> OwnedBy(v, f, c) && !OwnedBy(w, f, c)
  {
    OwnedAfter(v, w, f, start, c);
    hide Holds, Lost, Stray, NoStrays;
    if exists t :: ValidSlot(v, t) && Holds(v, t) == c && Lost(v, f, start, t) {
      var t :| ValidSlot(v, t) && Holds(v, t) == c && Lost(v, f, start, t);
      LostIsNotStray(v, f, start, t);
    }
  }

  lemma UsedIfOwned(v: Vol, f: nat, c: nat)
    requires Own(v) && OwnedBy(v, f, c) && c != 0
    ensures IsUsed(v, c)
  {
    hide Holds;
    var s :| ValidSlot(v, s) && s.f == f && Holds(v, s) == c;
    HeldIsOnDisk(v, s);
  }

  lemma NoStraysIsPrecise(v: Vol, f: nat, size: nat)
    requires Stable(v) && f < |v.inodes| && size < v.inodes[f].size && NoStrays(v, f, BlocksFor(size))
    ensures var w := TruncateTo(v, f, size);
            Shape(w) && |w.inodes| == |v.inodes| && Precise(v, w, f, BlocksFor(size))
  {
    hide Holds, TruncateTo, Own, Lost, Freed, NoStrays, BlocksFor, IsUsed, FileBlock;
    TruncateIsRight(v, f, size);
    var w, start := TruncateTo(v, f, size), BlocksFor(size);
    forall n | 0 <= n < MAX_BLOCKS ensures Holds(w, Data(f, n)) == if n < start then Holds(v, Data(f, n)) else 0 {
      DataAfter(v, w, f, start, n);
    }
    forall c: nat | 0 < c < |v.disk|
      ensures IsUsed(v, c) && !IsUsed(w, c) <==> OwnedBy(v, f, c) && !OwnedBy(w, f, c)
    {
      FreedAfter(v, w, f, start, c);
      if OwnedBy(v, f, c) {
        UsedIfOwned(v, f, c);
      }
    }
  }

  /** A stray address block is lost when the double indirect block goes, and its data stay when that stays. */
  lemma StrayIsImprecise(v: Vol, f: nat, size: nat, k: nat)
    requires Stable(v) && f < |v.inodes| && size < v.inodes[f].size
    requires StopAt(v, f, BlocksFor(size)) <= k < ADDRS && Holds(v, MidOf(f, k)) != 0
    requires BlocksFor(size) < FIRST_DOUBLE ||
             exists n :: FIRST_DOUBLE + ADDRS * k <= n < FIRST_DOUBLE + ADDRS * (k + 1) && Holds(v, Data(f, n)) != 0
    ensures var w := TruncateTo(v, f, size);
            Shape(w) && |w.inodes| == |v.inodes| && !Precise(v, w, f, BlocksFor(size))
  {
    hide Holds, TruncateTo, Own, BlocksFor, IsUsed, FileBlock, StopAt;
    TruncateIsRight(v, f, size);
    var w, start := TruncateTo(v, f, size), BlocksFor(size);
    if start < FIRST_DOUBLE {
      LeakedMid(v, w, f, start, k);
    } else {
      var n :| FIRST_DOUBLE + ADDRS * k <= n < FIRST_DOUBLE + ADDRS * (k + 1) && Holds(v, Data(f, n)) != 0;
      FirstMidIsBelow(v, f, start, k);
      assert (n - FIRST_DOUBLE) / ADDRS == k;
      assert Holds(w, Data(f, n)) == Holds(v, Data(f, n));
    }
  }

  lemma LeakedMid(v: Vol, w: Vol, f: nat, start: nat, k: nat)
    requires Own(v) && f < |v.inodes| && Shape(w) && |w.inodes| == |v.inodes| && start < FIRST_DOUBLE
    requires StopAt(v, f, start) <= k < ADDRS && Holds(v, MidOf(f, k)) != 0
    requires forall s :: ValidSlot(v, s) ==> Holds(w, s) == if Lost(v, f, start, s) then 0 else Holds(v, s)
    requires forall c: nat :: c < |v.disk| ==> (IsUsed(w, c) <==> IsUsed(v, c) && (c == 0 || !Freed(v, f, start, c)))
    ensures var c := Holds(v, MidOf(f, k));
            0 < c < |v.disk| && IsUsed(w, c) && OwnedBy(v, f, c) && !OwnedBy(w, f, c)
  {
    hide Holds, IsUsed, StopAt;
    var c := Holds(v, MidOf(f, k));
    HeldIsOnDisk(v, MidOf(f, k));
    OwnedAfter(v, w, f, start, c);
    forall t | ValidSlot(v, t) && Holds(v, t) == c ensures t == MidOf(f, k) {
      if t != MidOf(f, k) {
        DistinctSlots(v, t, MidOf(f, k));
      }
    }
  }

  /** fs_truncate does what it is for exactly if there are no strays. */
  lemma TruncateIsPreciseIffNoStrays(v: Vol, f: nat, size: nat)
    requires Stable(v) && f < |v.inodes| && size < v.inodes[f].size
    ensures var w := TruncateTo(v, f, size);
            && Shape(w) && |w.inodes| == |v.inodes|
            && (Precise(v, w, f, BlocksFor(size)) <==> NoStrays(v, f, BlocksFor(size)))
  {
    hide TruncateTo, Precise, Holds, StopAt, BlocksFor;
    var start := BlocksFor(size);
    if NoStrays(v, f, start) {
      NoStraysIsPrecise(v, f, size);
    } else {
      var k :| StopAt(v, f, start) <= k < ADDRS && Holds(v, MidOf(f, k)) != 0
               && !(start >= FIRST_DOUBLE &&
                    forall n :: FIRST_DOUBLE + ADDRS * k <= n < FIRST_DOUBLE + ADDRS * (k + 1) ==>
                        Holds(v, Data(f, n)) == 0);
      StrayIsImprecise(v, f, size, k);
    }
  }

  // ---- a sparse file that loses blocks ----

  /** Growing the file to have logical block n touches only the slots on the way to it. */
  predicate OnPath(f: nat, n: nat, s: Slot) {
    s.f == f && (s == Data(f, n) || s.SingleOf? || s.DoubleOf?
        || (s.MidOf? && n >= FIRST_DOUBLE && s.i == (n - FIRST_DOUBLE) / ADDRS))
  }

  ghost predicate OnlyPath(v: Vol, w: Vol, f: nat, n: nat)
    requires Shape(v) && Shape(w) && |w.inodes| == |v.inodes|
  {
    forall s :: ValidSlot(v, s) && !OnPath(f, n, s) ==> Holds(w, s) == Holds(v, s)
  }

  lemma GrownOnPath(v: Vol, w: Vol, t: Slot, b: nat, f: nat, n: nat)
    requires Shape(v) && Grown(v, w, t, b) && OnPath(f, n, t)
    ensures |w.inodes| == |v.inodes| && Own(w) && Holds(w, t) == b != 0 && OnlyPath(v, w, f, n)
  {
  }

  lemma OnlyPathTwice(v: Vol, u: Vol, w: Vol, f: nat, n: nat)
    requires Shape(v) && Shape(u) && Shape(w) && |u.inodes| == |v.inodes| == |w.inodes|
    requires OnlyPath(v, u, f, n) && OnlyPath(u, w, f, n)
    ensures OnlyPath(v, w, f, n)
  {
    hide Holds;
  }

  lemma LocateStaysOnPath(v: Vol, f: nat, n: nat)
    requires Own(v) && f < |v.inodes| && FIRST_DOUBLE <= n < MAX_BLOCKS
    ensures var r := Locate(v, f, n, true);
            r.Found? ==> Shape(r.v) && |r.v.inodes| == |v.inodes| && OnlyPath(v, r.v, f, n)
  {
    hide Own, EnsurePtr, EnsureEntry, Grown, OnlyPath, Holds, Shape;
    var t, m := Data(f, n), n - FIRST_DOUBLE;
    var mid := MidOf(f, m / ADDRS);
    assert Parent(t) == mid && Entry(t) == m % ADDRS && Parent(mid) == DoubleOf(f) && Entry(mid) == m / ADDRS;
    EnsurePtrGrows(v, f, DoublePtr, true);
    var r1 := EnsurePtr(v, f, DoublePtr, true);
    if r1.Found? {
      GrownOnPath(v, r1.v, DoubleOf(f), r1.block, f, n);
      EnsureEntryGrows(r1.v, DoubleOf(f), mid, r1.block, true);
      var r2 := EnsureEntry(r1.v, r1.block, m / ADDRS, r1.block, true);
      if r2.Found? {
        GrownOnPath(r1.v, r2.v, mid, r2.block, f, n);
        OnlyPathTwice(v, r1.v, r2.v, f, n);
        EnsureEntryGrows(r2.v, mid, t, r1.block, true);
        var r3 := EnsureEntry(r2.v, r2.block, m % ADDRS, r1.block, true);
        if r3.Found? {
          GrownOnPath(r2.v, r3.v, t, r3.block, f, n);
          OnlyPathTwice(v, r2.v, r3.v, f, n);
        }
      }
    }
  }

  const SPARSE := (FIRST_DOUBLE + ADDRS) * BLOCK_SIZE    // the first byte under the second address block

  lemma NoDoubleNoMid(v: Vol, f: nat)
    requires Shape(v) && f < |v.inodes| && v.inodes[f].double == 0
    ensures Holds(v, MidOf(f, 0)) == 0
  {
  }

  lemma OneByteWrite(v: Vol, f: nat, x: byte, pos: nat)
    requires Shape(v) && f < |v.inodes| && pos + 1 < WORD && Write(v, f, [x], pos, true).Some?
    requires !GetDataBlock(v, f, pos, true).Missing?
    ensures GetDataBlock(v, f, pos, true).Found?
    ensures var r := GetDataBlock(v, f, pos, true);
            var u := Put(r.v, r.block, Splice(At(r.v, r.block), pos % BLOCK_SIZE, [x]));
            Write(v, f, [x], pos, true).value.0 == SaveInode(Extend(u, f, pos + 1), f)
  {
    hide GetDataBlock, Put, Splice, SaveInode, Extend;
  }

  /** Writing one byte there, in a file without a double indirect block, leaves its first entry NULL. */
  lemma SparseWriteLeavesGap(v: Vol, f: nat, x: byte)
    requires Stable(v) && f < |v.inodes| && v.inodes[f].double == 0 && Write(v, f, [x], SPARSE, true).Some?
    ensures var w := Write(v, f, [x], SPARSE, true).value.0;
            Holds(w, MidOf(f, 0)) == 0 && Holds(w, MidOf(f, 1)) != 0 && w.inodes[f].size > 0
  {
    hide Holds, GetDataBlock, Own, SlotsGrew, SameFrame, Opened, Splice, SaveInode, Put, OnlyPath, Write, FileBlock;
    var n := SPARSE / BLOCK_SIZE;
    assert n == FIRST_DOUBLE + ADDRS;
    NoDoubleNoMid(v, f);
    var r := GetDataBlock(v, f, SPARSE, true);
    GetDataBlockIsRight(v, f, SPARSE, true);
    LookupStaysOnPath(v, f, n);
    OneByteWrite(v, f, x, SPARSE);
    var content := Splice(At(r.v, r.block), SPARSE % BLOCK_SIZE, [x]);
    BlockWrites(v, r.v, f, SPARSE, r.block, [x]);
    PutKeepsSlots(r.v, Data(f, n), content);
    var u := Put(r.v, r.block, content);
    ExtendSyncs(u, f, SPARSE + 1);
    var w := Write(v, f, [x], SPARSE, true).value.0;
    MidOfData(w, f, n);
    PathMissesFirstMid(v, r.v, f, n);
  }

  lemma PathMissesFirstMid(v: Vol, w: Vol, f: nat, n: nat)
    requires Shape(v) && Shape(w) && |w.inodes| == |v.inodes| && f < |v.inodes| && n == FIRST_DOUBLE + ADDRS
    requires OnlyPath(v, w, f, n)
    ensures Holds(w, MidOf(f, 0)) == Holds(v, MidOf(f, 0))
  {
    hide Holds;
  }

  lemma LookupStaysOnPath(v: Vol, f: nat, n: nat)
    requires Own(v) && f < |v.inodes| && FIRST_DOUBLE <= n < MAX_BLOCKS
    ensures var r := GetDataBlock(v, f, n * BLOCK_SIZE, true);
            r.Found? ==> Shape(r.v) && |r.v.inodes| == |v.inodes| && OnlyPath(v, r.v, f, n)
  {
    hide Holds, Own, Grew, Locate;
    assert n * BLOCK_SIZE / BLOCK_SIZE == n;
    LocateIsRight(v, f, n, true);
    LocateStaysOnPath(v, f, n);
    var l := Locate(v, f, n, true);
    if l.Found? {
      GrewShape(v, l.v, f);
      SaveKeepsAll(l.v, f);
    }
  }

  lemma GapLosesBlocks(w: Vol, f: nat)
    requires Stable(w) && f < |w.inodes| && w.inodes[f].size > 0
    requires Holds(w, MidOf(f, 0)) == 0 && Holds(w, MidOf(f, 1)) != 0
    ensures var z := TruncateTo(w, f, 0);
            && Shape(z) && |z.inodes| == |w.inodes| && !Precise(w, z, f, 0)
            && var c := Holds(w, MidOf(f, 1)); c != 0 && IsUsed(z, c) && !OwnedBy(z, f, c)
  {
    hide TruncateTo, Holds, IsUsed, Own, Freed, FileBlock, Lost, OwnedBy, Precise, Synced;
    assert StopAt(w, f, 0) == 0;
    TruncateIsRight(w, f, 0);
    StrayIsImprecise(w, f, 0, 1);
    LeakedMid(w, TruncateTo(w, f, 0), f, 0, 1);
  }
}
