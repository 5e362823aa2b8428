/** When a file can grow: every search for a free block starts at the inode or at an address block of the file, so
    what counts is how many blocks are free above these. */
module FsRoom {
  import opened Bytes
  import opened Options
  import opened FsLayout
  import opened FsVolume
  import opened FsOwnership
  import opened FsGrowth
  import opened FsLookup
  import opened FsFiles

  function FreeFrom(v: Vol, s: nat): set<nat> {
    set b: nat | s <= b < |v.disk| && !IsUsed(v, b)
  }

  /** The allocator finds a block exactly if one is free from `start` on. */
  lemma EnlargesIff(v: Vol, start: nat)
    requires Shape(v)
    ensures Enlarge(v, start).Some? <==> FreeFrom(v, start) != {}
    ensures Enlarge(v, start).Some? ==>
              var b := Enlarge(v, start).value.1;
              b in FreeFrom(v, start) && forall c :: c in FreeFrom(v, start) ==> b <= c
  {
    var r := FirstFree(v, start);
    if r.Some? {
      assert r.value in FreeFrom(v, start);
    }
  }

  /** At least n blocks are free at or above s, and s is not below the inode or an address block of file f. */
  ghost predicate RoomAbove(v: Vol, f: nat, s: nat, n: nat)
    requires Shape(v) && f < |v.inodes|
  {
    && v.inodes[f].adr <= s
    && (forall t :: ValidSlot(v, t) && t.f == f && !t.Data? && !t.InodeOf? ==> Holds(v, t) <= s)
    && |FreeFrom(v, s)| >= n
  }

  lemma TakesOne(v: Vol, w: Vol, s: nat, b: nat, n: nat) returns (r: nat)
    requires Shape(v) && Shape(w) && |w.disk| == |v.disk| && |FreeFrom(v, s)| >= n + 1
    requires forall c: nat :: c < |v.disk| ==> IsUsed(w, c) == (IsUsed(v, c) || c == b)
    requires forall c :: c in FreeFrom(v, s) ==> b <= c
    ensures s <= r && b <= r && |FreeFrom(w, r)| >= n
  {
    hide IsUsed;
    r := if b < s then s else b;
    assert FreeFrom(w, r) == FreeFrom(v, s) - {b};
  }

  /** A step that fills slot t of file f takes at most one of the free blocks. */
  lemma GrownRoom(v: Vol, w: Vol, t: Slot, b: nat, s: nat, n: nat, start: nat) returns (r: nat)
    requires Own(v) && Grown(v, w, t, b) && RoomAbove(v, t.f, s, n + 1) && start <= s && !t.InodeOf?
    requires Holds(v, t) == 0 ==> Enlarge(v, start).Some? && Enlarge(v, start).value.1 == b
    ensures Shape(w) && t.f < |w.inodes| && RoomAbove(w, t.f, r, n) && s <= r
    ensures b <= r || (t.Data? && Holds(v, t) != 0)
  {
    hide IsUsed, Enlarge, Holds;
    if Holds(v, t) != 0 {
      HeldIsOnDisk(v, t);
      r := s;
      forall c: nat | c < |v.disk| ensures IsUsed(w, c) == IsUsed(v, c) {
        assert IsUsed(w, c) == (IsUsed(v, c) || c == b);
      }
      assert FreeFrom(w, s) == FreeFrom(v, s);
    } else {
      EnlargesIff(v, start);
      forall c | c in FreeFrom(v, s) ensures b <= c {
        assert c in FreeFrom(v, start);
      }
      r := TakesOne(v, w, s, b, n);
    }
    forall p | ValidSlot(w, p) && p.f == t.f && !p.Data? && !p.InodeOf? ensures Holds(w, p) <= r {
      assert ValidSlot(v, p);
      if p != t {
        assert Holds(w, p) == Holds(v, p);
      }
    }
  }

  lemma SomeRoom(v: Vol, f: nat, s: nat, n: nat, start: nat)
    requires Shape(v) && f < |v.inodes| && RoomAbove(v, f, s, n + 1) && start <= s
    ensures Enlarge(v, start).Some?
  {
    EnlargesIff(v, start);
    assert |FreeFrom(v, s)| > 0;
    assert FreeFrom(v, s) <= FreeFrom(v, start);
  }

  lemma PtrRoom(v: Vol, f: nat, p: Ptr, s: nat, n: nat) returns (r: nat)
    requires Own(v) && f < |v.inodes| && IsPtr(p) && RoomAbove(v, f, s, n + 1)
    ensures var l := EnsurePtr(v, f, p, true);
            && l.Found? && Own(l.v) && |l.v.inodes| == |v.inodes| && RoomAbove(l.v, f, r, n) && s <= r
            && (l.block <= r || (p.DirectPtr? && Holds(v, PtrSlot(f, p)) != 0))
  {
    hide Enlarge, Own;
    SomeRoom(v, f, s, n, v.inodes[f].adr);
    EnsurePtrGrows(v, f, p, true);
    var l, t := EnsurePtr(v, f, p, true), PtrSlot(f, p);
    assert Holds(v, t) == GetPtr(v.inodes[f], p);
    r := GrownRoom(v, l.v, t, l.block, s, n, v.inodes[f].adr);
  }

  lemma EntryRoom(v: Vol, parent: Slot, t: Slot, start: nat, s: nat, n: nat) returns (r: nat)
    requires Own(v) && ValidSlot(v, t) && IsEntry(t) && Parent(t) == parent && Holds(v, parent) != 0
    requires RoomAbove(v, t.f, s, n + 1) && start <= s
    ensures var l := EnsureEntry(v, Holds(v, parent), Entry(t), start, true);
            && l.Found? && Own(l.v) && |l.v.inodes| == |v.inodes| && RoomAbove(l.v, t.f, r, n) && s <= r
            && (l.block <= r || (t.Data? && Holds(v, t) != 0))
  {
    hide Enlarge, Own;
    SomeRoom(v, t.f, s, n, start);
    EnsureEntryGrows(v, parent, t, start, true);
    var l := EnsureEntry(v, Holds(v, parent), Entry(t), start, true);
    assert Holds(v, t) == Addrs(At(v, Holds(v, parent)))[Entry(t)];
    r := GrownRoom(v, l.v, t, l.block, s, n, start);
  }

  /** Three blocks are enough to make any logical block: two address blocks and the block itself. */
  lemma LocateRoom(v: Vol, f: nat, m: nat, s: nat, n: nat) returns (r: nat)
    requires Own(v) && f < |v.inodes| && m < MAX_BLOCKS && RoomAbove(v, f, s, n + 3)
    ensures var l := Locate(v, f, m, true);
            && l.Found? && |l.v.inodes| == |v.inodes| && RoomAbove(l.v, f, r, n) && s <= r
            && (l.block <= r || Holds(v, Data(f, m)) != 0)
  {
    hide Own, EnsurePtr, EnsureEntry;
    var t := Data(f, m);
    if m < DIRECT {
      r := PtrRoom(v, f, DirectPtr(m), s, n + 2);
      FewerRoom(EnsurePtr(v, f, DirectPtr(m), true).v, f, r, n + 2, n);
    } else if m < DIRECT + ADDRS {
      EnsurePtrGrows(v, f, SinglePtr, true);
      var r1 := PtrRoom(v, f, SinglePtr, s, n + 2);
      var l1 := EnsurePtr(v, f, SinglePtr, true);
      GrownHolds(v, l1.v, SingleOf(f), l1.block);
      r := EntryRoom(l1.v, SingleOf(f), t, l1.block, r1, n + 1);
      FewerRoom(EnsureEntry(l1.v, l1.block, m - DIRECT, l1.block, true).v, f, r, n + 1, n);
    } else {
      r := LocateDoubleRoom(v, f, m, s, n);
    }
  }

  lemma LocateDoubleRoom(v: Vol, f: nat, m: nat, s: nat, n: nat) returns (r: nat)
    requires Own(v) && f < |v.inodes| && DIRECT + ADDRS <= m < MAX_BLOCKS && RoomAbove(v, f, s, n + 3)
    ensures var l := Locate(v, f, m, true);
            && l.Found? && |l.v.inodes| == |v.inodes| && RoomAbove(l.v, f, r, n) && s <= r
            && (l.block <= r || Holds(v, Data(f, m)) != 0)
  {
    hide Own, EnsurePtr, EnsureEntry, RoomAbove, Holds;
    var t, k := Data(f, m), m - DIRECT - ADDRS;
    var mid := MidOf(f, k / ADDRS);
    assert Parent(t) == mid && Entry(t) == k % ADDRS && Parent(mid) == DoubleOf(f) && Entry(mid) == k / ADDRS;
    EnsurePtrGrows(v, f, DoublePtr, true);
    var r1 := PtrRoom(v, f, DoublePtr, s, n + 2);
    var l1 := EnsurePtr(v, f, DoublePtr, true);
    GrownHolds(v, l1.v, DoubleOf(f), l1.block);
    EnsureEntryGrows(l1.v, DoubleOf(f), mid, l1.block, true);
    var r2 := EntryRoom(l1.v, DoubleOf(f), mid, l1.block, r1, n + 1);
    var l2 := EnsureEntry(l1.v, l1.block, k / ADDRS, l1.block, true);
    GrownHolds(l1.v, l2.v, mid, l2.block);
    GrownHoldsOther(l1.v, l2.v, mid, l2.block, DoubleOf(f));
    HeldIsLow(l2.v, f, r2, n + 1, DoubleOf(f));
    r := EntryRoom(l2.v, mid, t, l1.block, r2, n);
  }

  lemma GrownHolds(v: Vol, w: Vol, t: Slot, b: nat)
    requires Shape(v) && Grown(v, w, t, b)
    ensures Own(w) && ValidSlot(w, t) && Holds(w, t) == b != 0
  {
  }

  lemma GrownHoldsOther(v: Vol, w: Vol, t: Slot, b: nat, s: Slot)
    requires Shape(v) && Grown(v, w, t, b) && ValidSlot(v, s) && s != t
    ensures Own(w) && ValidSlot(w, s) && Holds(w, s) == Holds(v, s)
  {
  }

  lemma HeldIsLow(v: Vol, f: nat, s: nat, n: nat, t: Slot)
    requires Shape(v) && f < |v.inodes| && RoomAbove(v, f, s, n) && ValidSlot(v, t) && t.f == f && !t.Data?
        && !t.InodeOf?
    ensures Holds(v, t) <= s
  {
  }

  lemma FewerRoom(v: Vol, f: nat, s: nat, n: nat, m: nat)
    requires Shape(v) && f < |v.inodes| && RoomAbove(v, f, s, n) && m <= n
    ensures RoomAbove(v, f, s, m)
  {
  }

  lemma SameRoom(v: Vol, w: Vol, f: nat, s: nat, n: nat)
    requires Shape(v) && Shape(w) && f < |v.inodes| && RoomAbove(v, f, s, n) && |w.inodes| == |v.inodes|
    requires w.inodes[f].adr == v.inodes[f].adr && w.bmap == v.bmap && |w.disk| == |v.disk|
    requires forall t :: ValidSlot(v, t) ==> Holds(w, t) == Holds(v, t)
    ensures RoomAbove(w, f, s, n)
  {
    hide Holds;
    assert FreeFrom(w, s) == FreeFrom(v, s);
  }

  /** get_data_block never fails where three blocks are free above the file's address blocks. */
  lemma GetDataBlockRoom(v: Vol, f: nat, pos: nat, s: nat, n: nat) returns (r: nat)
    requires Stable(v) && f < |v.inodes| && pos < MAX_BYTES && RoomAbove(v, f, s, n + 3)
    ensures var l := GetDataBlock(v, f, pos, true);
            && l.Found? && |l.v.inodes| == |v.inodes| && RoomAbove(l.v, f, r, n) && s <= r
            && (l.block <= r || Holds(v, Data(f, pos / BLOCK_SIZE)) != 0)
  {
    hide Own, Locate, RoomAbove, Holds;
    var m := pos / BLOCK_SIZE;
    r := LocateRoom(v, f, m, s, n);
    LocateIsRight(v, f, m, true);
    var l := Locate(v, f, m, true);
    GrewShape(v, l.v, f);
    SaveKeepsAll(l.v, f);
    SameRoom(l.v, SaveInode(l.v, f), f, r, n);
  }

  /** How many blocks n bytes at pos reach into. */
  function BlocksTouched(pos: nat, n: nat): nat {
    if n == 0 then 0 else (pos % BLOCK_SIZE + n + BLOCK_SIZE - 1) / BLOCK_SIZE
  }

  lemma TouchedOn(pos: nat, n: nat)
    requires pos % BLOCK_SIZE + n > BLOCK_SIZE
    ensures var here := BLOCK_SIZE - pos % BLOCK_SIZE; BlocksTouched(pos, n) == 1 + BlocksTouched(pos + here, n - here)
  {
    var here := BLOCK_SIZE - pos % BLOCK_SIZE;
    assert (pos + here) % BLOCK_SIZE == 0;
  }

  /** A write succeeds if for each block it reaches into three blocks are free above the file's address blocks. */
  lemma {:induction false} WriteSucceeds(v: Vol, f: nat, bytes: seq<byte>, pos: nat, s: nat)
    requires Stable(v) && f < |v.inodes| && pos + |bytes| < WORD && RoomAbove(v, f, s, 3 * BlocksTouched(pos, |bytes|))
    ensures Write(v, f, bytes, pos, true).Some?
    decreases |bytes|
  {
    hide GetDataBlock, Stable, RoomAbove, Holds, Own, Splice, Touched, DataBlockSpec;
    GetDataBlockIsRight(v, f, pos, true);
    if bytes != [] && pos < MAX_BYTES {
      var k: nat := BlocksTouched(pos, |bytes|) - 1 by { TouchedSome(pos, |bytes|); }
      var r := GetDataBlockRoom(v, f, pos, s, 3 * k);
      var l := GetDataBlock(v, f, pos, true);
      if pos % BLOCK_SIZE + |bytes| > BLOCK_SIZE {
        var here := BLOCK_SIZE - pos % BLOCK_SIZE;
        TouchedOn(pos, |bytes|);
        DataBlockFound(v, f, pos, l);
        var content := Splice(At(l.v, l.block), pos % BLOCK_SIZE, bytes[..here]);
        BlockWrites(v, l.v, f, pos, l.block, bytes[..here]);
        var w := Put(l.v, l.block, content);
        PutRoom(l.v, f, pos / BLOCK_SIZE, l.block, content, r, 3 * k);
        WriteSucceeds(w, f, bytes[here..], pos + here, r);
      }
    }
  }

  lemma TouchedSome(pos: nat, n: nat)
    requires n > 0
    ensures BlocksTouched(pos, n) >= 1
  {
  }

  lemma DataBlockFound(v: Vol, f: nat, pos: nat, l: Lookup)
    requires Shape(v) && f < |v.inodes| && pos < MAX_BYTES && l.Found? && DataBlockSpec(v, f, pos / BLOCK_SIZE, true, l)
    ensures Stable(l.v) && SameFrame(v, l.v) && SlotsGrew(v, l.v, f) && Opened(v, l.v, f, pos / BLOCK_SIZE)
    ensures l.block != 0 && Holds(l.v, Data(f, pos / BLOCK_SIZE)) == l.block
  {
  }

  lemma PutRoom(v: Vol, f: nat, m: nat, b: nat, content: Block, s: nat, n: nat)
    requires Stable(v) && f < |v.inodes| && m < MAX_BLOCKS && b != 0 && Holds(v, Data(f, m)) == b
        && RoomAbove(v, f, s, n)
    ensures Shape(Put(v, b, content)) && RoomAbove(Put(v, b, content), f, s, n)
  {
    hide Own, Holds, RoomAbove;
    PutKeepsSlots(v, Data(f, m), content);
    SameRoom(v, Put(v, b, content), f, s, n);
  }
}
