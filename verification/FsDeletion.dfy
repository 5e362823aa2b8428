/** Deleting a file: its blocks are freed, its inode block is, and its name goes from the directory. */
module FsDeletion {
  import opened Bytes
  import opened Options
  import opened FsLayout
  import opened FsVolume
  import opened FsOwnership
  import opened FsGrowth
  import opened FsLookup
  import opened FsFiles
  import opened FsTruncate
  import opened FsTruncateExact
  import opened FsFormat
  import opened FsLifetime

  // ---- one file less ----

  /** The other files close up: file g of the result was file Past(f, g). */
  function Forget(v: Vol, f: nat): (w: Vol)
    requires Shape(v) && f < |v.inodes|
    ensures Shape(w) && |w.inodes| == |v.inodes| - 1
    ensures w.disk == v.disk && w.bmap == v.bmap && w.mapBlocks == v.mapBlocks
    ensures forall g :: 0 <= g < |w.inodes| ==> w.inodes[g] == v.inodes[Past(f, g)]
  {
    v.(inodes := v.inodes[..f] + v.inodes[f + 1..])
  }

  function Past(f: nat, g: nat): nat { if g < f then g else g + 1 }

  function Closed(f: nat, g: nat): nat
    requires g != f
  {
    if g < f then g else g - 1
  }

  function SlotPast(f: nat, s: Slot): Slot {
    s.(f := Past(f, s.f))
  }

  lemma ForgetHolds(v: Vol, f: nat, s: Slot)
    requires Shape(v) && f < |v.inodes| && ValidSlot(Forget(v, f), s)
    ensures ValidSlot(v, SlotPast(f, s)) && Holds(Forget(v, f), s) == Holds(v, SlotPast(f, s))
    decreases Rank(s)
  {
    hide Forget, Addr, Shape, IsInode;
    var p := SlotPast(f, s);
    if IsEntry(s) {
      ForgetHolds(v, f, Parent(s));
      assert Parent(p) == SlotPast(f, Parent(s)) && Entry(p) == Entry(s);
      SameEntry(v, Forget(v, f), Holds(v, Parent(p)), Entry(p));
    } else {
      assert Forget(v, f).inodes[s.f] == v.inodes[p.f];
    }
  }

  lemma SameEntry(v: Vol, w: Vol, b: nat, k: nat)
    requires w.disk == v.disk && k < ADDRS
    ensures Addr(At(w, b), k) == Addr(At(v, b), k)
  {
  }

  lemma ForgetOwns(v: Vol, f: nat)
    requires Own(v) && f < |v.inodes|
    ensures Own(Forget(v, f))
  {
    hide Holds, IsUsed, BitmapBlock;
    var w := Forget(v, f);
    forall s | ValidSlot(w, s) ensures ValidSlot(v, SlotPast(f, s)) && Holds(w, s) == Holds(v, SlotPast(f, s)) {
      ForgetHolds(v, f, s);
    }
    forall c: nat | c < |v.disk| ensures IsUsed(w, c) == IsUsed(v, c) {
      SameBits(v, w, c);
    }
    forall s | ValidSlot(w, s) && Holds(w, s) != 0 ensures Legal(w, s, Holds(w, s)) {
      assert Legal(v, SlotPast(f, s), Holds(v, SlotPast(f, s)));
    }
    forall s, t | ValidSlot(w, s) && ValidSlot(w, t) && s != t && Holds(w, s) != 0 ensures Holds(w, s) != Holds(w, t) {
      assert SlotPast(f, s) != SlotPast(f, t);
    }
  }

  lemma ForgetIsStable(v: Vol, f: nat)
    requires Stable(v) && f < |v.inodes|
    ensures Stable(Forget(v, f))
    ensures forall g, m :: 0 <= g < |v.inodes| - 1 && 0 <= m < MAX_BLOCKS ==>
              FileBlock(Forget(v, f), g, m) == FileBlock(v, Past(f, g), m)
  {
    ForgetOwns(v, f);
    hide Own, Holds, InodeBlock;
    var w := Forget(v, f);
    forall g | 0 <= g < |w.inodes| ensures At(w, w.inodes[g].adr) == InodeBlock(w.inodes[g]) {
      assert At(v, v.inodes[Past(f, g)].adr) == InodeBlock(v.inodes[Past(f, g)]);
    }
    forall g, m | 0 <= g < |w.inodes| && 0 <= m < MAX_BLOCKS ensures FileBlock(w, g, m) == FileBlock(v, Past(f, g), m) {
      ForgetHolds(v, f, Data(g, m));
    }
  }

  /** What marking a block free does to blocks and bitmap. */
  lemma UnmarkBlocks(v: Vol, b: nat)
    requires Shape(v) && BitmapSaved(v) && b < |v.disk|
    ensures var w := Unmark(v, b);
            && Shape(w) && BitmapSaved(w) && w.inodes == v.inodes && |w.disk| == |v.disk| && w.mapBlocks == v.mapBlocks
            && (forall c: nat :: c < |v.disk| ==> IsUsed(w, c) == (c != b && IsUsed(v, c)))
            && (forall c: nat :: c < FIRST_BMAP_BLOCK || c >= FirstData(v) ==> At(w, c) == At(v, c))
  {
    hide Mark, IsUsed, At, BitmapSaved;
    MarkFrame(v, b, false, 0);
    MarkSavesBitmap(v, b, false);
    var w := Mark(v, b, false);
    forall c: nat | c < |v.disk| ensures IsUsed(w, c) == (c != b && IsUsed(v, c)) {
      OnTheMap(v, c);
      MarkSetsOneBit(v, b, false, c);
    }
    forall c: nat | c < FIRST_BMAP_BLOCK || c >= FirstData(v) ensures At(w, c) == At(v, c) {
      MarkFrame(v, b, false, c);
    }
  }

  lemma OnTheMap(v: Vol, c: nat)
    requires Shape(v) && c < |v.disk|
    ensures c / 8 < |v.bmap|
  {
  }

  /** Freeing a block that no slot holds. */
  lemma UnmarkIsStable(v: Vol, b: nat)
    requires Stable(v) && FirstData(v) <= b < |v.disk| && forall s :: ValidSlot(v, s) ==> Holds(v, s) != b
    ensures var w := Unmark(v, b);
            && Stable(w) && w.inodes == v.inodes && |w.disk| == |v.disk| && w.mapBlocks == v.mapBlocks
            && (forall s :: ValidSlot(v, s) ==> Holds(w, s) == Holds(v, s))
            && (forall g, m :: 0 <= g < |v.inodes| && 0 <= m < MAX_BLOCKS ==> FileBlock(w, g, m) == FileBlock(v, g, m))
            && (forall c: nat :: c < |v.disk| ==> IsUsed(w, c) == (c != b && IsUsed(v, c)))
  {
    UnmarkBlocks(v, b);
    hide Unmark, IsUsed, Holds, At, BitmapSaved, AllLegal, Distinct;
    var w := Unmark(v, b);
    forall s | ValidSlot(v, s) ensures Holds(w, s) == Holds(v, s) {
      OutsideBitmap(v, w, s);
    }
    UnmarkOwns(v, w, b);
    forall g | 0 <= g < |w.inodes| ensures At(w, w.inodes[g].adr) == InodeBlock(w.inodes[g]) {
      AdrIsHeld(v, g);
      HeldOutside(v, InodeOf(g));
    }
    forall g, m | 0 <= g < |v.inodes| && 0 <= m < MAX_BLOCKS ensures FileBlock(w, g, m) == FileBlock(v, g, m) {
      if Holds(v, Data(g, m)) != 0 {
        HeldOutside(v, Data(g, m));
      }
    }
  }

  lemma HeldOutside(v: Vol, s: Slot)
    requires Own(v) && ValidSlot(v, s) && Holds(v, s) != 0
    ensures Holds(v, s) < FIRST_BMAP_BLOCK || Holds(v, s) >= FirstData(v)
  {
    assert Legal(v, s, Holds(v, s));
  }

  lemma OutsideBitmap(v: Vol, w: Vol, s: Slot)
    requires Own(v) && Shape(w) && w.inodes == v.inodes && ValidSlot(v, s)
    requires forall c: nat :: c < FIRST_BMAP_BLOCK || c >= FirstData(v) ==> At(w, c) == At(v, c)
    ensures Holds(w, s) == Holds(v, s)
  {
    hide Own;
    forall p | ValidSlot(v, p) && Holds(v, p) != 0 ensures At(w, Holds(v, p)) == At(v, Holds(v, p)) {
      HeldOutside(v, p);
    }
    HoldsFrame(v, w, s);
  }

  lemma UnmarkOwns(v: Vol, w: Vol, b: nat)
    requires Own(v) && Shape(w) && BitmapSaved(w) && w.inodes == v.inodes && |w.disk| == |v.disk|
    requires w.mapBlocks == v.mapBlocks && FirstData(v) <= b < |v.disk|
    requires forall s :: ValidSlot(v, s) ==> Holds(w, s) == Holds(v, s) && Holds(v, s) != b
    requires forall c: nat :: c < |v.disk| ==> IsUsed(w, c) == (c != b && IsUsed(v, c))
    ensures Own(w)
  {
    hide Holds, IsUsed, BitmapSaved;
    forall s | ValidSlot(w, s) && Holds(w, s) != 0 ensures Legal(w, s, Holds(w, s)) {
      assert Legal(v, s, Holds(v, s));
    }
  }

  // ---- deletion ----

  /** What fs_create_delete and delete_file_from_dir do to the volume when file f is deleted, whose name is in the
      entry block at `pos` of directory d; `entries` is that block without the name. None: there is no such block. */
  function DeleteFile(v: Vol, d: nat, pos: nat, entries: Block, stamps: seq<byte>, f: nat): (r: Option<Vol>)
    requires Shape(v) && f < |v.inodes| && d < |v.inodes| && d != f && |stamps| == 16
    ensures r.Some? ==> Shape(r.value) && |r.value.inodes| == |v.inodes| - 1
  {
    Unname(Forget(TruncateTo(v, f, 0), f), Closed(f, d), pos, v.inodes[f].adr, entries, stamps)
  }

  /** delete_file_from_dir: the inode's block marked free, the entry block and the directory's inode written back. */
  function Unname(v: Vol, d: nat, pos: nat, adr: nat, entries: Block, stamps: seq<byte>): (r: Option<Vol>)
    requires Shape(v) && d < |v.inodes| && |stamps| == 16
    ensures r.Some? ==> Shape(r.value) && |r.value.inodes| == |v.inodes|
  {
    match GetDataBlock(v, d, pos, false)
    case Missing => None
    case Full => None
    case Found(u, eb) => Some(Rewritten(Put(Unmark(u, adr), eb, entries), d, stamps))
  }

  function Rewritten(v: Vol, d: nat, stamps: seq<byte>): (r: Vol)
    requires Shape(v) && d < |v.inodes| && |stamps| == 16
    ensures Shape(r) && |r.inodes| == |v.inodes|
  {
    EditInode(v, d, v.inodes[d].size, stamps)
  }

  lemma UnnameIsRight(v: Vol, d: nat, pos: nat, adr: nat, entries: Block, stamps: seq<byte>)
    requires Stable(v) && d < |v.inodes| && |stamps| == 16 && Unname(v, d, pos, adr, entries, stamps).Some?
    requires FirstData(v) <= adr < |v.disk| && forall s :: ValidSlot(v, s) ==> Holds(v, s) != adr
    ensures var w := Unname(v, d, pos, adr, entries, stamps).value;
            && Stable(w) && |w.disk| == |v.disk| && w.mapBlocks == v.mapBlocks
            && (forall s :: ValidSlot(v, s) ==> Holds(w, s) == Holds(v, s))
            && (forall g, m :: 0 <= g < |v.inodes| && 0 <= m < MAX_BLOCKS ==>
                  FileBlock(w, g, m) == if g == d && m == pos / BLOCK_SIZE then Some(entries) else FileBlock(v, g, m))
            && (forall c: nat :: c < |v.disk| ==> IsUsed(w, c) == (c != adr && IsUsed(v, c)))
  {
    hide Own, Holds, IsUsed, Synced, FileBlock, GetDataBlock, Unmark, EditInode;
    LookupWithoutGrowth(v, d, pos);
    GetDataBlockIsRight(v, d, pos, false);
    var eb := GetDataBlock(v, d, pos, false).block;
    var m := pos / BLOCK_SIZE;
    UnmarkIsStable(v, adr);
    var u := Unmark(v, adr);
    PutIsRight(u, d, m, eb, entries);
    var x := Put(u, eb, entries);
    EditIsRight(x, d, x.inodes[d].size, stamps);
    var w := Rewritten(x, d, stamps);
    forall c: nat | c < |v.disk| ensures IsUsed(w, c) == (c != adr && IsUsed(v, c)) {
      SameBits(u, w, c);
    }
  }

  /** What deleting file f does not give back: what shrinking it to nothing leaves behind, or, as fs_truncate frees
      nothing of a file of size 0, all the blocks of such a file. */
  ghost predicate GivesBackAll(v: Vol, f: nat)
    requires Shape(v) && f < |v.inodes|
  {
    if v.inodes[f].size > 0 then forall k :: StopAt(v, f, 0) <= k < ADDRS ==> Holds(v, MidOf(f, k)) == 0
    else forall t :: ValidSlot(v, t) && t.f == f && !t.InodeOf? ==> Holds(v, t) == 0
  }

  /** What fs_truncate to size 0 comes to, whatever the size was. */
  ghost predicate Emptied(v: Vol, w: Vol, f: nat)
    requires Shape(v) && f < |v.inodes|
  {
    && Stable(w) && |w.inodes| == |v.inodes| && |w.disk| == |v.disk| && w.mapBlocks == v.mapBlocks
    && w.inodes[f].adr == v.inodes[f].adr
    && (forall s :: ValidSlot(v, s) && s.f != f ==> Holds(w, s) == Holds(v, s))
    && (forall g, m :: 0 <= g < |v.inodes| && g != f && 0 <= m < MAX_BLOCKS ==>
        FileBlock(w, g, m) == FileBlock(v, g, m))
    && (forall c: nat :: c < |v.disk| && !OwnedBy(v, f, c) ==> IsUsed(w, c) == IsUsed(v, c))
    && (forall c: nat :: c < |v.disk| && IsUsed(w, c) ==> IsUsed(v, c))
  }

  /** No block of file f is still in use, apart from the inode's. */
  ghost predicate AllFree(v: Vol, w: Vol, f: nat)
    requires Shape(v) && f < |v.inodes|
  {
    forall t :: ValidSlot(v, t) && t.f == f && !t.InodeOf? && Holds(v, t) != 0 ==> !IsUsed(w, Holds(v, t))
  }

  lemma EmptiesIdle(v: Vol, f: nat)
    requires Stable(v) && f < |v.inodes| && v.inodes[f].size == 0
    ensures TruncateTo(v, f, 0) == v && Emptied(v, v, f)
    ensures AllFree(v, v, f) <==> GivesBackAll(v, f)
  {
    AdrIsHeld(v, f);
    HeldIsOnDisk(v, InodeOf(f));
    assert v.inodes[f].(size := 0) == v.inodes[f];
    assert SaveInode(v, f).disk == v.disk;
    hide Own, Holds;
    forall t | ValidSlot(v, t) && t.f == f && Holds(v, t) != 0 ensures IsUsed(v, Holds(v, t)) {
      HeldIsOnDisk(v, t);
    }
  }

  lemma Empties(v: Vol, f: nat)
    requires Stable(v) && f < |v.inodes| && v.inodes[f].size > 0
    ensures Emptied(v, TruncateTo(v, f, 0), f)
    ensures AllFree(v, TruncateTo(v, f, 0), f) <==> GivesBackAll(v, f)
  {
    hide TruncateTo, Holds, Own, Lost, Freed, IsUsed, FileBlock, OwnedBy, StopAt;
    TruncateIsRight(v, f, 0);
    var w := TruncateTo(v, f, 0);
    assert w.inodes[f].adr == v.inodes[f].adr by {
      LostAtZero(v, f, InodeOf(f));
      AdrIsHeld(v, f);
      AdrIsHeld(w, f);
    }
    forall s | ValidSlot(v, s) && s.f != f ensures !Lost(v, f, 0, s) {
      LostAtZero(v, f, s);
    }
    forall c: nat | c < |v.disk| && !OwnedBy(v, f, c) ensures !Freed(v, f, 0, c) {
      if Freed(v, f, 0, c) {
        FreedIsOwn(v, f, c);
      }
    }
    EmptiesAll(v, w, f);
  }

  lemma LostAtZero(v: Vol, f: nat, s: Slot)
    requires Shape(v) && f < |v.inodes|
    ensures Lost(v, f, 0, s) <==> s.f == f && !s.InodeOf?
  {
  }

  lemma FreedIsOwn(v: Vol, f: nat, c: nat)
    requires Shape(v) && f < |v.inodes| && Freed(v, f, 0, c)
    ensures OwnedBy(v, f, c)
  {
    hide Holds;
    var t :| ValidSlot(v, t) && Holds(v, t) == c && Lost(v, f, 0, t) && !Stray(v, f, 0, t);
    LostAtZero(v, f, t);
  }

  lemma EmptiesAll(v: Vol, w: Vol, f: nat)
    requires Own(v) && f < |v.inodes| && v.inodes[f].size > 0
    requires forall c: nat :: c < |v.disk| ==> (IsUsed(w, c) <==> IsUsed(v, c) && (c == 0 || !Freed(v, f, 0, c)))
    ensures AllFree(v, w, f) <==> GivesBackAll(v, f)
  {
    hide Holds, Own, Lost, Freed, IsUsed, StopAt;
    if GivesBackAll(v, f) {
      forall t | ValidSlot(v, t) && t.f == f && !t.InodeOf? && Holds(v, t) != 0 ensures !IsUsed(w, Holds(v, t)) {
        LostAtZero(v, f, t);
        HeldIsOnDisk(v, t);
        LostAndUsed(v, f, 0, t);
      }
    } else {
      var k :| StopAt(v, f, 0) <= k < ADDRS && Holds(v, MidOf(f, k)) != 0;
      var c := Holds(v, MidOf(f, k));
      HeldIsOnDisk(v, MidOf(f, k));
      if Freed(v, f, 0, c) {
        StrayIsNotFreed(v, f, k);
      }
      assert IsUsed(w, c);
    }
  }

  lemma StrayIsNotFreed(v: Vol, f: nat, k: nat)
    requires Own(v) && f < |v.inodes| && StopAt(v, f, 0) <= k < ADDRS && Holds(v, MidOf(f, k)) != 0
    ensures !Freed(v, f, 0, Holds(v, MidOf(f, k)))
  {
    hide Holds, Own, StopAt, Lost;
    forall t | ValidSlot(v, t) && Holds(v, t) == Holds(v, MidOf(f, k)) ensures Stray(v, f, 0, t) {
      if t != MidOf(f, k) {
        DistinctSlots(v, MidOf(f, k), t);
      }
    }
  }

  /** From v to w file f has gone: of the others only the directory's entry block changed, and no block came into use;
      what was in use and not the file's still is. */
  ghost predicate Deleted(v: Vol, w: Vol, d: nat, m: nat, entries: Block, f: nat)
    requires Shape(v) && Shape(w) && f < |v.inodes| && d < |v.inodes| && d != f && |w.inodes| == |v.inodes| - 1
  {
    && (forall g, k :: 0 <= g < |w.inodes| && 0 <= k < MAX_BLOCKS ==>
          FileBlock(w, g, k) == if g == Closed(f, d) && k == m then Some(entries) else FileBlock(v, Past(f, g), k))
    && (forall c: nat :: c < |v.disk| && !OwnedBy(v, f, c) ==> IsUsed(w, c) == IsUsed(v, c))
    && (forall c: nat :: c < |v.disk| && IsUsed(w, c) ==> IsUsed(v, c))
    && !IsUsed(w, v.inodes[f].adr)
  }

  /** Deleting a file keeps all invariants; it gives back all blocks of the file exactly if none were left behind,
      and only then does the account of used blocks stay exact. */
  lemma DeleteIsRight(v: Vol, d: nat, pos: nat, entries: Block, stamps: seq<byte>, f: nat)
    requires Stable(v) && f < |v.inodes| && d < |v.inodes| && d != f && |stamps| == 16
    requires v.inodes[f].adr != ROOT_INODE_BLOCK && DeleteFile(v, d, pos, entries, stamps, f).Some?
    ensures var w := DeleteFile(v, d, pos, entries, stamps, f).value;
            && Stable(w) && Deleted(v, w, d, pos / BLOCK_SIZE, entries, f)
            && (AllFree(v, w, f) <==> GivesBackAll(v, f))
            && (Exact(v) ==> (Exact(w) <==> GivesBackAll(v, f)))
  {
    hide TruncateTo, Own, Holds, IsUsed, Synced, FileBlock, Unname, Forget, GivesBackAll, Exact, OwnedBy;
    if v.inodes[f].size > 0 {
      Empties(v, f);
    } else {
      EmptiesIdle(v, f);
    }
    var u := TruncateTo(v, f, 0);
    var x, adr := Forget(u, f), v.inodes[f].adr;
    ForgetIsStable(u, f);
    InodeIsLoose(u, f);
    UnnameIsRight(x, Closed(f, d), pos, adr, entries, stamps);
    var w := DeleteFile(v, d, pos, entries, stamps, f).value;
    forall c: nat | c < |v.disk| ensures IsUsed(w, c) == (c != adr && IsUsed(u, c)) {
      SameBits(u, x, c);
    }
    AdrIsOwned(v, f);
    FreeAfter(v, u, w, f);
    if Exact(v) {
      DeleteKeepsExactIff(v, u, x, w, f);
    }
  }

  lemma AdrIsOwned(v: Vol, f: nat)
    requires Own(v) && f < |v.inodes|
    ensures OwnedBy(v, f, v.inodes[f].adr) && v.inodes[f].adr < |v.disk|
  {
    HeldIsOnDisk(v, InodeOf(f));
    assert Holds(v, InodeOf(f)) == v.inodes[f].adr;
  }

  /** Once it is forgotten, nothing leads to the inode's block. */
  lemma InodeIsLoose(u: Vol, f: nat)
    requires Stable(u) && f < |u.inodes| && u.inodes[f].adr != ROOT_INODE_BLOCK
    ensures FirstData(u) <= u.inodes[f].adr < |u.disk|
    ensures forall s :: ValidSlot(Forget(u, f), s) ==> Holds(Forget(u, f), s) != u.inodes[f].adr
  {
    AdrIsHeld(u, f);
    assert Legal(u, InodeOf(f), u.inodes[f].adr);
    hide Own, Holds, Forget;
    forall s | ValidSlot(Forget(u, f), s) ensures Holds(Forget(u, f), s) != u.inodes[f].adr {
      ForgetHolds(u, f, s);
      DistinctSlots(u, InodeOf(f), SlotPast(f, s));
    }
  }

  lemma FreeAfter(v: Vol, u: Vol, w: Vol, f: nat)
    requires Own(v) && f < |v.inodes|
    requires forall c: nat :: c < |v.disk| ==> IsUsed(w, c) == (c != v.inodes[f].adr && IsUsed(u, c))
    ensures AllFree(v, w, f) <==> AllFree(v, u, f)
  {
    AdrIsHeld(v, f);
    hide Own, Holds, IsUsed;
    forall t | ValidSlot(v, t) && t.f == f && !t.InodeOf? && Holds(v, t) != 0
      ensures Holds(v, t) < |v.disk| && Holds(v, t) != v.inodes[f].adr
    {
      HeldIsOnDisk(v, t);
      DistinctSlots(v, t, InodeOf(f));
    }
  }

  lemma DeleteKeepsExactIff(v: Vol, u: Vol, x: Vol, w: Vol, f: nat)
    requires Own(v) && Exact(v) && f < |v.inodes| && Emptied(v, u, f) && x == Forget(u, f)
    requires Shape(w) && |w.inodes| == |x.inodes| && |w.disk| == |v.disk| && w.mapBlocks == v.mapBlocks
    requires forall s :: ValidSlot(x, s) ==> Holds(w, s) == Holds(x, s)
    requires forall c: nat :: c < |v.disk| ==> IsUsed(w, c) == (c != v.inodes[f].adr && IsUsed(u, c))
    ensures Exact(w) <==> AllFree(v, w, f)
  {
    hide Own, Holds, IsUsed, Forget;
    if AllFree(v, w, f) {
      forall c: nat | FirstData(w) <= c < |w.disk| && IsUsed(w, c)
        ensures exists g :: 0 <= g < |w.inodes| && OwnedBy(w, g, c)
      {
        OthersStayOwned(v, u, x, w, f, c);
      }
    } else {
      var t :| ValidSlot(v, t) && t.f == f && !t.InodeOf? && Holds(v, t) != 0 && IsUsed(w, Holds(v, t));
      DataIsData(v, t);
      forall g | 0 <= g < |w.inodes| ensures !OwnedBy(w, g, Holds(v, t)) {
        NobodyOwns(v, u, x, w, f, t, g);
      }
    }
  }

  lemma OwnerIsOther(v: Vol, w: Vol, f: nat, c: nat) returns (s: Slot)
    requires Own(v) && Exact(v) && f < |v.inodes| && FirstData(v) <= c < |v.disk| && IsUsed(v, c) && IsUsed(w, c)
    requires c != v.inodes[f].adr && AllFree(v, w, f)
    ensures ValidSlot(v, s) && s.f != f && Holds(v, s) == c
  {
    AdrIsHeld(v, f);
    hide Own, Holds, IsUsed;
    var h :| 0 <= h < |v.inodes| && OwnedBy(v, h, c);
    s :| ValidSlot(v, s) && s.f == h && Holds(v, s) == c;
  }

  lemma OthersStayOwned(v: Vol, u: Vol, x: Vol, w: Vol, f: nat, c: nat)
    requires Own(v) && Exact(v) && f < |v.inodes| && Emptied(v, u, f) && x == Forget(u, f)
    requires Shape(w) && |w.inodes| == |x.inodes| && FirstData(v) <= c < |v.disk| && IsUsed(v, c) && IsUsed(w, c)
    requires forall s :: ValidSlot(x, s) ==> Holds(w, s) == Holds(x, s)
    requires c != v.inodes[f].adr && AllFree(v, w, f)
    ensures exists g :: 0 <= g < |w.inodes| && OwnedBy(w, g, c)
  {
    hide Own, Holds, IsUsed, Forget, Exact, AllFree;
    var s := OwnerIsOther(v, w, f, c);
    var g := Closed(f, s.f);
    var t := s.(f := g);
    assert SlotPast(f, t) == s;
    ForgetHolds(u, f, t);
    assert ValidSlot(w, t) && Holds(w, t) == c;
    assert OwnedBy(w, g, c);
  }

  lemma NobodyOwns(v: Vol, u: Vol, x: Vol, w: Vol, f: nat, t: Slot, g: nat)
    requires Own(v) && f < |v.inodes| && Emptied(v, u, f) && x == Forget(u, f)
    requires Shape(w) && |w.inodes| == |x.inodes| && g < |w.inodes|
    requires forall s :: ValidSlot(x, s) ==> Holds(w, s) == Holds(x, s)
    requires ValidSlot(v, t) && t.f == f && Holds(v, t) != 0
    ensures !OwnedBy(w, g, Holds(v, t))
  {
    hide Own, Holds, IsUsed, Forget;
    forall s | ValidSlot(w, s) && s.f == g ensures Holds(w, s) != Holds(v, t) {
      ForgetHolds(u, f, s);
      DistinctSlots(v, t, SlotPast(f, s));
    }
  }
}
