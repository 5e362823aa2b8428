/** get_data_block: which block it finds or makes, and all that it leaves as it was. */
module FsLookup {
  import opened Bytes
  import opened Options
  import opened FsLayout
  import opened FsVolume
  import opened FsOwnership
  import opened FsGrowth

  ghost predicate OwnedBy(v: Vol, f: nat, c: nat)
    requires Shape(v)
  {
    exists s :: ValidSlot(v, s) && s.f == f && Holds(v, s) == c
  }

  /** From v to w file f took blocks that were free, kept all it had, and left all else to the others. */
  ghost predicate SlotsGrew(v: Vol, w: Vol, f: nat)
    requires Shape(v)
  {
    && Own(w) && |w.inodes| == |v.inodes| && |w.disk| == |v.disk| && w.mapBlocks == v.mapBlocks
    && (forall s :: ValidSlot(v, s) && (s.f != f || Holds(v, s) != 0) ==> Holds(w, s) == Holds(v, s))
    && (forall s :: ValidSlot(v, s) && Holds(w, s) != Holds(v, s) ==> !IsUsed(v, Holds(w, s)))
    && (forall c: nat :: c < |v.disk| && IsUsed(v, c) ==> IsUsed(w, c))
    && (forall c: nat :: c < |v.disk| && IsUsed(w, c) && !IsUsed(v, c) ==> OwnedBy(w, f, c))
    && (forall g :: 0 <= g < |v.inodes| && g != f ==> w.inodes[g] == v.inodes[g])
  }

  /** Steps that grow file f leave the contents of all data blocks and of all inode blocks alone, too. */
  ghost predicate Grew(v: Vol, w: Vol, f: nat)
    requires Shape(v)
  {
    SameFrame(v, w) && SlotsGrew(v, w, f) && DataKept(v, w) && InodeBlocksKept(v, w)
  }

  /** No logical block but block n of file f was given a disk block. */
  ghost predicate OnlyData(v: Vol, w: Vol, f: nat, n: nat)
    requires Shape(v) && Shape(w) && |w.inodes| == |v.inodes|
  {
    forall s :: ValidSlot(v, s) && s.Data? && s != Data(f, n) ==> Holds(w, s) == Holds(v, s)
  }

  lemma GrownGrew(v: Vol, w: Vol, t: Slot, b: nat)
    requires Own(v) && Grown(v, w, t, b)
    ensures Grew(v, w, t.f)
    ensures t.Data? ==> OnlyData(v, w, t.f, t.n)
    ensures !t.Data? ==> forall n :: OnlyData(v, w, t.f, n)
  {
    hide Holds, Own, DataKept, InodeBlocksKept, IsUsed;
    forall c: nat | c < |v.disk| && IsUsed(w, c) && !IsUsed(v, c) ensures OwnedBy(w, t.f, c) {
      assert Holds(w, t) == c;
    }
    forall c: nat | c < |v.disk| && IsUsed(v, c) ensures IsUsed(w, c) {
      assert IsUsed(w, c) == (IsUsed(v, c) || c == b);
    }
  }

  lemma SlotsGrewTwice(v: Vol, u: Vol, w: Vol, f: nat)
    requires Own(v) && SlotsGrew(v, u, f) && SlotsGrew(u, w, f)
    ensures SlotsGrew(v, w, f)
  {
    hide Holds, Own, IsUsed, At, AllLegal;
    forall s | ValidSlot(v, s) && Holds(w, s) != Holds(v, s) ensures !IsUsed(v, Holds(w, s)) {
      if Holds(u, s) == Holds(v, s) {
        HeldIsOnDisk(w, s);
        assert !IsUsed(u, Holds(w, s));
      }
    }
    forall c: nat | c < |v.disk| && IsUsed(w, c) && !IsUsed(v, c) ensures OwnedBy(w, f, c) {
      if IsUsed(u, c) {
        var s :| ValidSlot(u, s) && s.f == f && Holds(u, s) == c;
        NullIsUsed(v);
        assert Holds(w, s) == c;
      }
    }
  }

  lemma GrewTwice(v: Vol, u: Vol, w: Vol, f: nat)
    requires Own(v) && Grew(v, u, f) && Grew(u, w, f)
    ensures Grew(v, w, f)
  {
    hide Holds, Own, IsUsed, At, AllLegal;
    SlotsGrewTwice(v, u, w, f);
    forall s | ValidSlot(v, s) && s.Data? && Holds(v, s) != 0 ensures At(w, Holds(v, s)) == At(v, Holds(v, s)) {
      assert Holds(u, s) == Holds(v, s);
    }
    forall g | 0 <= g < |v.inodes| ensures At(w, v.inodes[g].adr) == At(v, v.inodes[g].adr) {
      assert u.inodes[g].adr == v.inodes[g].adr;
    }
  }

  lemma NullIsUsed(v: Vol)
    requires Own(v)
    ensures IsUsed(v, 0)
  {
    assert 0 < FirstData(v);
  }

  lemma HeldIsOnDisk(v: Vol, s: Slot)
    requires Own(v) && ValidSlot(v, s)
    ensures Holds(v, s) < |v.disk| && (Holds(v, s) != 0 ==> IsUsed(v, Holds(v, s)))
  {
    if Holds(v, s) != 0 {
      assert Legal(v, s, Holds(v, s));
    }
  }

  lemma GrewShape(v: Vol, w: Vol, f: nat)
    requires Shape(v) && Grew(v, w, f)
    ensures SameFrame(v, w) && Own(w)
  {
  }

  /** What looking up logical block n of file f comes to. */
  ghost predicate LocateSpec(v: Vol, f: nat, n: nat, allow: bool, r: Lookup)
    requires Shape(v) && f < |v.inodes| && n < MAX_BLOCKS
  {
    var old0 := Holds(v, Data(f, n));
    && (old0 != 0 ==> r == Found(v, old0))
    && (r.Missing? <==> old0 == 0 && !allow)
    && (r.Found? ==>
          && Grew(v, r.v, f) && OnlyData(v, r.v, f, n)
          && r.block != 0 && Holds(r.v, Data(f, n)) == r.block
          && (old0 == 0 ==> At(r.v, r.block) == Zeros()))
  }

  lemma LastStep(v: Vol, u: Vol, w: Vol, f: nat, n: nat, b: nat)
    requires Own(v) && f < |v.inodes| && n < MAX_BLOCKS
    requires Grew(v, u, f) && (forall m :: OnlyData(v, u, f, m)) && Grown(u, w, Data(f, n), b)
    ensures Grew(v, w, f) && OnlyData(v, w, f, n) && b != 0 && Holds(w, Data(f, n)) == b
    ensures Holds(v, Data(f, n)) == 0 ==> At(w, b) == Zeros()
  {
    hide Holds, Own, Grew, At, IsUsed, DataKept, InodeBlocksKept;
    GrewShape(v, u, f);
    GrownGrew(u, w, Data(f, n), b);
    GrewTwice(v, u, w, f);
    assert OnlyData(v, u, f, n + 1) && OnlyData(v, u, f, n);
  }

  lemma LocateDirect(v: Vol, f: nat, n: nat, allow: bool)
    requires Own(v) && f < |v.inodes| && n < DIRECT
    ensures LocateSpec(v, f, n, allow, Locate(v, f, n, allow))
  {
    EnsurePtrGrows(v, f, DirectPtr(n), allow);
    hide Holds, Own, EnsurePtr;
    var r := EnsurePtr(v, f, DirectPtr(n), allow);
    if r.Found? {
      GrownGrew(v, r.v, Data(f, n), r.block);
    }
  }

  lemma LocateSingle(v: Vol, f: nat, n: nat, allow: bool)
    requires Own(v) && f < |v.inodes| && DIRECT <= n < DIRECT + ADDRS
    ensures LocateSpec(v, f, n, allow, Locate(v, f, n, allow))
  {
    hide Own, Grew, EnsurePtr, EnsureEntry, SameFrame, DataKept, InodeBlocksKept, IsUsed, SlotsGrew;
    var t := Data(f, n);
    assert Parent(t) == SingleOf(f) && Entry(t) == n - DIRECT;
    EnsurePtrGrows(v, f, SinglePtr, allow);
    var r1 := EnsurePtr(v, f, SinglePtr, allow);
    if r1.Found? {
      GrownGrew(v, r1.v, SingleOf(f), r1.block);
      assert OnlyData(v, r1.v, f, n + 1);
      EnsureEntryGrows(r1.v, SingleOf(f), t, r1.block, allow);
      var r2 := EnsureEntry(r1.v, r1.block, n - DIRECT, r1.block, allow);
      if r2.Found? {
        LastStep(v, r1.v, r2.v, f, n, r2.block);
      }
    }
  }

  lemma LocateDouble(v: Vol, f: nat, n: nat, allow: bool)
    requires Own(v) && f < |v.inodes| && DIRECT + ADDRS <= n < MAX_BLOCKS
    ensures LocateSpec(v, f, n, allow, Locate(v, f, n, allow))
  {
    hide Own, Grew, EnsurePtr, EnsureEntry, SameFrame, DataKept, InodeBlocksKept, IsUsed, SlotsGrew;
    var t, m := Data(f, n), n - DIRECT - ADDRS;
    var mid := MidOf(f, m / ADDRS);
    assert Parent(t) == mid && Entry(t) == m % ADDRS && Parent(mid) == DoubleOf(f) && Entry(mid) == m / ADDRS;
    assert Holds(v, t) != 0 ==> Holds(v, mid) != 0;
    assert Holds(v, mid) != 0 ==> Holds(v, DoubleOf(f)) != 0;
    EnsurePtrGrows(v, f, DoublePtr, allow);
    var r1 := EnsurePtr(v, f, DoublePtr, allow);
    if r1.Found? {
      GrownGrew(v, r1.v, DoubleOf(f), r1.block);
      assert OnlyData(v, r1.v, f, n + 1);
      EnsureEntryGrows(r1.v, DoubleOf(f), mid, r1.block, allow);
      var r2 := EnsureEntry(r1.v, r1.block, m / ADDRS, r1.block, allow);
      if r2.Found? {
        GrownGrew(r1.v, r2.v, mid, r2.block);
        GrewTwice(v, r1.v, r2.v, f);
        forall k ensures OnlyData(v, r2.v, f, k) {
          assert OnlyData(v, r1.v, f, k) && OnlyData(r1.v, r2.v, f, k);
        }
        assert OnlyData(v, r2.v, f, n + 1);
        EnsureEntryGrows(r2.v, mid, t, r1.block, allow);
        var r3 := EnsureEntry(r2.v, r2.block, m % ADDRS, r1.block, allow);
        if r3.Found? {
          LastStep(v, r2.v, r3.v, f, n, r3.block);
        }
      }
    }
  }

  lemma LocateIsRight(v: Vol, f: nat, n: nat, allow: bool)
    requires Own(v) && f < |v.inodes| && n < MAX_BLOCKS
    ensures LocateSpec(v, f, n, allow, Locate(v, f, n, allow))
  {
    if n < DIRECT {
      LocateDirect(v, f, n, allow);
    } else if n < DIRECT + ADDRS {
      LocateSingle(v, f, n, allow);
    } else {
      LocateDouble(v, f, n, allow);
    }
  }

  // ---- writing the inode back, and the contents of files ----

  /** The inode blocks on the disk are the inodes in memory. */
  ghost predicate Synced(v: Vol)
    requires Shape(v)
  {
    forall g :: 0 <= g < |v.inodes| ==> At(v, v.inodes[g].adr) == InodeBlock(v.inodes[g])
  }

  /** What holds between any two operations. */
  ghost predicate Stable(v: Vol): (r: bool)
    ensures r ==> Shape(v)
  {
    Own(v) && Synced(v)
  }

  /** Writing a data block or an inode block moves no pointer and changes no other block. */
  lemma PutKeepsSlots(v: Vol, t: Slot, content: Block)
    requires Own(v) && ValidSlot(v, t) && (t.Data? || t.InodeOf?) && Holds(v, t) != 0
    ensures var w := Put(v, Holds(v, t), content);
            && Own(w) && w.inodes == v.inodes && w.bmap == v.bmap && w.mapBlocks == v.mapBlocks && |w.disk| == |v.disk|
            && At(w, Holds(v, t)) == content
            && (forall c: nat :: c != Holds(v, t) ==> At(w, c) == At(v, c))
            && (forall s :: ValidSlot(v, s) ==> Holds(w, s) == Holds(v, s))
  {
    var b := Holds(v, t);
    var w := Put(v, b, content);
    assert Legal(v, t, b);
    forall s | ValidSlot(v, s) ensures Holds(w, s) == Holds(v, s) {
      HoldsFrame(v, w, s);
    }
    hide Holds;
    forall s | ValidSlot(w, s) && Holds(w, s) != 0 ensures Legal(w, s, Holds(w, s)) {
      assert Legal(v, s, Holds(v, s));
    }
    forall c | 0 <= c < FirstData(w) ensures IsUsed(w, c) {
      assert IsUsed(v, c);
    }
  }

  lemma AdrIsHeld(v: Vol, g: nat)
    requires Own(v) && g < |v.inodes|
    ensures Holds(v, InodeOf(g)) == v.inodes[g].adr != 0
  {
  }

  /** Logical block n of file g; None where there is none yet. */
  function FileBlock(v: Vol, g: nat, n: nat): Option<Block>
    requires Shape(v) && g < |v.inodes| && n < MAX_BLOCKS
  {
    var b := Holds(v, Data(g, n));
    if b == 0 then None else Some(At(v, b))
  }

  /** w is v with logical block n of file f there, empty if it was not there before. */
  ghost predicate Opened(v: Vol, w: Vol, f: nat, n: nat)
    requires Shape(v) && Shape(w) && |w.inodes| == |v.inodes| && n < MAX_BLOCKS
  {
    forall g, m :: 0 <= g < |v.inodes| && 0 <= m < MAX_BLOCKS ==>
      FileBlock(w, g, m) == if g == f && m == n && FileBlock(v, g, m) == None then Some(Zeros()) else FileBlock(v, g, m)
  }

  lemma SaveKeepsAll(v: Vol, f: nat)
    requires Own(v) && f < |v.inodes|
    ensures var w := SaveInode(v, f);
            && Own(w) && w.inodes == v.inodes && w.bmap == v.bmap && w.mapBlocks == v.mapBlocks && |w.disk| == |v.disk|
            && At(w, v.inodes[f].adr) == InodeBlock(v.inodes[f])
            && (forall c: nat :: c != v.inodes[f].adr ==> At(w, c) == At(v, c))
            && (forall s :: ValidSlot(v, s) ==> Holds(w, s) == Holds(v, s))
  {
    AdrIsHeld(v, f);
    PutKeepsSlots(v, InodeOf(f), InodeBlock(v.inodes[f]));
  }

  lemma SaveSyncs(v: Vol, f: nat)
    requires Own(v) && f < |v.inodes|
    requires forall g :: 0 <= g < |v.inodes| && g != f ==> At(v, v.inodes[g].adr) == InodeBlock(v.inodes[g])
    ensures Stable(SaveInode(v, f))
    ensures forall g, m :: 0 <= g < |v.inodes| && 0 <= m < MAX_BLOCKS ==>
        FileBlock(SaveInode(v, f), g, m) == FileBlock(v, g, m)
  {
    SaveKeepsAll(v, f);
    AdrIsHeld(v, f);
    hide Own, Holds;
    var w := SaveInode(v, f);
    forall g | 0 <= g < |v.inodes| ensures At(w, w.inodes[g].adr) == InodeBlock(w.inodes[g]) {
      if g != f {
        DistinctSlots(v, InodeOf(g), InodeOf(f));
        AdrIsHeld(v, g);
      }
    }
    forall g, m | 0 <= g < |v.inodes| && 0 <= m < MAX_BLOCKS ensures FileBlock(w, g, m) == FileBlock(v, g, m) {
      if Holds(v, Data(g, m)) != 0 {
        DistinctSlots(v, Data(g, m), InodeOf(f));
      }
    }
  }

  lemma DistinctSlots(v: Vol, s: Slot, t: Slot)
    requires Own(v) && ValidSlot(v, s) && ValidSlot(v, t) && s != t && Holds(v, s) != 0
    ensures Holds(v, s) != Holds(v, t)
  {
  }

  lemma SlotsGrewSame(v: Vol, u: Vol, w: Vol, f: nat)
    requires Own(v) && SlotsGrew(v, u, f) && Own(w) && w.bmap == u.bmap && w.mapBlocks == u.mapBlocks
        && |w.disk| == |u.disk|
    requires |w.inodes| == |u.inodes| && forall g :: 0 <= g < |u.inodes| && g != f ==> w.inodes[g] == u.inodes[g]
    requires forall s :: ValidSlot(u, s) ==> Holds(w, s) == Holds(u, s)
    ensures SlotsGrew(v, w, f)
  {
    hide Own, Holds, At;
    forall c: nat | c < |v.disk| ensures IsUsed(w, c) == IsUsed(u, c) {
    }
    forall c: nat | c < |v.disk| && IsUsed(w, c) && !IsUsed(v, c) ensures OwnedBy(w, f, c) {
      assert OwnedBy(u, f, c);
    }
  }

  /** What get_data_block comes to, for a position inside the range of an inode. */
  ghost predicate DataBlockSpec(v: Vol, f: nat, n: nat, allow: bool, r: Lookup)
    requires Shape(v) && f < |v.inodes| && n < MAX_BLOCKS
  {
    var old0 := Holds(v, Data(f, n));
    && (old0 != 0 ==> r == Found(v, old0))
    && (r.Missing? <==> old0 == 0 && !allow)
    && (r.Found? ==>
          && Stable(r.v) && SameFrame(v, r.v) && SlotsGrew(v, r.v, f) && Opened(v, r.v, f, n)
          && r.block != 0 && Holds(r.v, Data(f, n)) == r.block)
  }

  lemma LocateOpens(v: Vol, u: Vol, f: nat, n: nat, b: nat)
    requires Own(v) && f < |v.inodes| && n < MAX_BLOCKS && Grew(v, u, f) && OnlyData(v, u, f, n)
    requires b != 0 && Holds(u, Data(f, n)) == b && (Holds(v, Data(f, n)) == 0 ==> At(u, b) == Zeros())
    ensures Opened(v, u, f, n)
  {
    hide Own, Holds, InodeBlocksKept;
    forall g, m | 0 <= g < |v.inodes| && 0 <= m < MAX_BLOCKS
      ensures FileBlock(u, g, m) ==
              if g == f && m == n && FileBlock(v, g, m) == None then Some(Zeros()) else FileBlock(v, g, m)
    {
      assert ValidSlot(v, Data(g, m));
    }
  }

  lemma GetDataBlockIsRight(v: Vol, f: nat, pos: nat, allow: bool)
    requires Stable(v) && f < |v.inodes|
    ensures var r := GetDataBlock(v, f, pos, allow);
            if pos < MAX_BYTES then DataBlockSpec(v, f, pos / BLOCK_SIZE, allow, r) else r == Missing
  {
    var n := pos / BLOCK_SIZE;
    if pos < MAX_BYTES {
      LocateIsRight(v, f, n, allow);
      var l := Locate(v, f, n, allow);
      if l.Found? {
        FoundIsSaved(v, l.v, f, n, l.block);
        if Holds(v, Data(f, n)) != 0 {
          AdrIsHeld(v, f);
          assert SaveInode(v, f).disk == v.disk;
        }
      }
    }
  }

  lemma FoundIsSaved(v: Vol, u: Vol, f: nat, n: nat, b: nat)
    requires Stable(v) && f < |v.inodes| && n < MAX_BLOCKS && Grew(v, u, f) && OnlyData(v, u, f, n)
    requires b != 0 && Holds(u, Data(f, n)) == b && (Holds(v, Data(f, n)) == 0 ==> At(u, b) == Zeros())
    ensures var w := SaveInode(u, f);
            && Stable(w) && SameFrame(v, w) && SlotsGrew(v, w, f) && Opened(v, w, f, n) && Holds(w, Data(f, n)) == b
  {
    hide Own, Holds, DataKept, FileBlock;
    LocateOpens(v, u, f, n, b);
    forall g | 0 <= g < |u.inodes| && g != f ensures At(u, u.inodes[g].adr) == InodeBlock(u.inodes[g]) {
      assert u.inodes[g] == v.inodes[g];
    }
    SaveSyncs(u, f);
    SaveKeepsAll(u, f);
    SlotsGrewSame(v, u, SaveInode(u, f), f);
  }
}
