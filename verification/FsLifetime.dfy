/** Files coming and going on a volume: the blocks of a new inode, of the directory that names it, and what is given
    back when the file is deleted. */
module FsLifetime {
  import opened Bytes
  import opened Options
  import opened FsLayout
  import opened FsVolume
  import opened FsOwnership
  import opened FsGrowth
  import opened FsLookup
  import opened FsFiles
  import opened FsTruncate
  import opened FsTruncateExact
  import opened FsFormat

  // ---- truncation and the account of used blocks ----

  /** Address blocks that shrinking to `start` blocks gives up without freeing them. */
  ghost predicate NoneLeftBehind(v: Vol, f: nat, start: nat)
    requires Shape(v) && f < |v.inodes|
  {
    start >= FIRST_DOUBLE || forall k :: StopAt(v, f, start) <= k < ADDRS ==> Holds(v, MidOf(f, k)) == 0
  }

  lemma LostAndUsed(v: Vol, f: nat, start: nat, s: Slot)
    requires Own(v) && f < |v.inodes| && ValidSlot(v, s) && Holds(v, s) != 0 && Lost(v, f, start, s)
    requires NoneLeftBehind(v, f, start)
    ensures Freed(v, f, start, Holds(v, s))
  {
    hide Holds, StopAt, Own;
    if s.Data? && s.n >= FIRST_DOUBLE {
      MidOfData(v, f, s.n);
    }
    assert !Stray(v, f, start, s);
  }

  /** Shrinking a file keeps the account of used blocks exact just if no address block is left behind. */
  lemma TruncateKeepsExactIff(v: Vol, f: nat, size: nat)
    requires Stable(v) && Exact(v) && f < |v.inodes| && size < v.inodes[f].size
    ensures Shape(TruncateTo(v, f, size))
    ensures Exact(TruncateTo(v, f, size)) <==> NoneLeftBehind(v, f, BlocksFor(size))
  {
    hide TruncateTo, Holds, Own, Lost, Freed, NoneLeftBehind, BlocksFor, IsUsed, FileBlock, Stray;
    TruncateIsRight(v, f, size);
    var w, start := TruncateTo(v, f, size), BlocksFor(size);
    if NoneLeftBehind(v, f, start) {
      forall c: nat | FirstData(w) <= c < |w.disk| && IsUsed(w, c)
        ensures exists g :: 0 <= g < |w.inodes| && OwnedBy(w, g, c)
      {
        StaysOwned(v, w, f, start, c);
      }
    } else {
      LeftBehind(v, w, f, start);
    }
  }

  lemma StaysOwned(v: Vol, w: Vol, f: nat, start: nat, c: nat)
    requires Own(v) && Exact(v) && Shape(w) && f < |v.inodes| && |w.inodes| == |v.inodes| && NoneLeftBehind(v, f, start)
    requires forall s :: ValidSlot(v, s) ==> Holds(w, s) == if Lost(v, f, start, s) then 0 else Holds(v, s)
    requires FirstData(v) <= c < |v.disk| && IsUsed(v, c) && !Freed(v, f, start, c)
    ensures exists g :: 0 <= g < |w.inodes| && OwnedBy(w, g, c)
  {
    hide Holds, Own, Lost, Freed, NoneLeftBehind, IsUsed;
    var g :| 0 <= g < |v.inodes| && OwnedBy(v, g, c);
    var s :| ValidSlot(v, s) && s.f == g && Holds(v, s) == c;
    if Lost(v, f, start, s) {
      LostAndUsed(v, f, start, s);
    }
    assert ValidSlot(w, s) && Holds(w, s) == c;
    assert OwnedBy(w, g, c);
  }

  lemma LeftBehind(v: Vol, w: Vol, f: nat, start: nat)
    requires Own(v) && Shape(w) && f < |v.inodes| && |w.inodes| == |v.inodes| && !NoneLeftBehind(v, f, start)
    requires |w.disk| == |v.disk| && w.mapBlocks == v.mapBlocks
    requires forall s :: ValidSlot(v, s) ==> Holds(w, s) == if Lost(v, f, start, s) then 0 else Holds(v, s)
    requires forall c: nat :: c < |v.disk| ==> (IsUsed(w, c) <==> IsUsed(v, c) && (c == 0 || !Freed(v, f, start, c)))
    ensures !Exact(w)
  {
    hide Holds, Own, IsUsed, StopAt, Lost, Freed;
    var k :| StopAt(v, f, start) <= k < ADDRS && Holds(v, MidOf(f, k)) != 0;
    LeakedMid(v, w, f, start, k);
    var c := Holds(v, MidOf(f, k));
    DataIsData(v, MidOf(f, k));
    forall g | 0 <= g < |w.inodes| ensures !OwnedBy(w, g, c) {
      if g != f {
        OthersHoldOther(v, w, f, start, g, k);
      }
    }
  }

  lemma DataIsData(v: Vol, t: Slot)
    requires Own(v) && ValidSlot(v, t) && !t.InodeOf? && Holds(v, t) != 0
    ensures FirstData(v) <= Holds(v, t) < |v.disk| && IsUsed(v, Holds(v, t))
  {
    assert Legal(v, t, Holds(v, t));
  }

  lemma OthersHoldOther(v: Vol, w: Vol, f: nat, start: nat, g: nat, k: nat)
    requires Own(v) && Shape(w) && f < |v.inodes| && |w.inodes| == |v.inodes| && g < |v.inodes| && g != f && k < ADDRS
    requires Holds(v, MidOf(f, k)) != 0
    requires forall s :: ValidSlot(v, s) ==> Holds(w, s) == if Lost(v, f, start, s) then 0 else Holds(v, s)
    ensures !OwnedBy(w, g, Holds(v, MidOf(f, k)))
  {
    hide Holds, Own, Lost;
    forall s | ValidSlot(w, s) && s.f == g ensures Holds(w, s) != Holds(v, MidOf(f, k)) {
      if Holds(w, s) != 0 {
        DistinctSlots(v, MidOf(f, k), s);
      }
    }
  }

  // ---- editing an inode's size and time ----

  /** The inode with a new size and time of modification. */
  function Edited(n: Inode, size: nat, stamps: seq<byte>): (r: Inode)
    requires IsInode(n) && size < WORD && |stamps| == 16
    ensures IsInode(r)
  {
    n.(size := size, stamps := stamps)
  }

  function EditInode(v: Vol, f: nat, size: nat, stamps: seq<byte>): (r: Vol)
    requires Shape(v) && f < |v.inodes| && size < WORD && |stamps| == 16
    ensures Shape(r) && |r.inodes| == |v.inodes|
  {
    SaveInode(SetInode(v, f, Edited(v.inodes[f], size, stamps)), f)
  }

  /** w has v's blocks, pointers and contents. */
  ghost predicate SameFiles(v: Vol, w: Vol): (r: bool)
    requires Shape(v)
    ensures r ==> Shape(w) && |w.inodes| == |v.inodes| && |w.disk| == |v.disk|
  {
    && Shape(w) && |w.inodes| == |v.inodes| && w.bmap == v.bmap && w.mapBlocks == v.mapBlocks && |w.disk| == |v.disk|
    && (forall s :: ValidSlot(v, s) ==> Holds(w, s) == Holds(v, s))
    && (forall g, m :: 0 <= g < |v.inodes| && 0 <= m < MAX_BLOCKS ==> FileBlock(w, g, m) == FileBlock(v, g, m))
  }

  lemma EditIsRight(v: Vol, f: nat, size: nat, stamps: seq<byte>)
    requires Stable(v) && f < |v.inodes| && size < WORD && |stamps| == 16
    ensures var w := EditInode(v, f, size, stamps);
            Stable(w) && SameFiles(v, w) && w.inodes == v.inodes[f := Edited(v.inodes[f], size, stamps)]
  {
    var x := SetInode(v, f, Edited(v.inodes[f], size, stamps));
    forall s | ValidSlot(v, s) ensures Holds(x, s) == Holds(v, s) {
      HoldsFrame(v, x, s);
    }
    EditOwns(v, x);
    hide Own, Holds;
    SaveKeepsAll(x, f);
    SaveSyncs(x, f);
  }

  lemma EditOwns(v: Vol, x: Vol)
    requires Own(v) && Shape(x) && x == v.(inodes := x.inodes) && |x.inodes| == |v.inodes|
    requires forall g :: 0 <= g < |v.inodes| ==> x.inodes[g].adr == v.inodes[g].adr
    requires forall s :: ValidSlot(v, s) ==> Holds(x, s) == Holds(v, s)
    ensures Own(x)
  {
    hide Holds;
    forall s | ValidSlot(x, s) && Holds(x, s) != 0 ensures Legal(x, s, Holds(x, s)) {
      assert Legal(v, s, Holds(v, s));
    }
    forall c | 0 <= c < FirstData(x) ensures IsUsed(x, c) {
      assert IsUsed(v, c);
    }
  }

  // ---- a new file ----

  /** The files of w are those of v, and a new one without blocks. */
  function WithFile(v: Vol, n: Inode): (w: Vol)
    requires Shape(v) && IsInode(n)
    ensures Shape(w)
  {
    v.(inodes := v.inodes + [n])
  }

  lemma OldHold(v: Vol, n: Inode, s: Slot)
    requires Shape(v) && IsInode(n) && ValidSlot(v, s)
    ensures ValidSlot(WithFile(v, n), s) && Holds(WithFile(v, n), s) == Holds(v, s)
    decreases Rank(s)
  {
    if IsEntry(s) {
      OldHold(v, n, Parent(s));
    }
  }

  lemma NewHolds(v: Vol, adr: nat, mode: nat, stamps: seq<byte>, s: Slot)
    requires Shape(v) && mode < 0x1_0000 && |stamps| == 16
    requires ValidSlot(WithFile(v, NewInode(adr, mode, stamps)), s) && s.f == |v.inodes|
    ensures Holds(WithFile(v, NewInode(adr, mode, stamps)), s) == if s.InodeOf? then adr else 0
  {
    NewInodeHoldsNothing(WithFile(v, NewInode(adr, mode, stamps)), s);
  }

  lemma WithFileOwns(v: Vol, b: nat, mode: nat, stamps: seq<byte>)
    requires Own(v) && Loose(v, b) && mode < 0x1_0000 && |stamps| == 16
    ensures Own(WithFile(v, NewInode(b, mode, stamps)))
  {
    hide Holds, IsUsed, BitmapBlock;
    var w := WithFile(v, NewInode(b, mode, stamps));
    forall s | ValidSlot(w, s)
      ensures Holds(w, s) == if s.f < |v.inodes| then Holds(v, s) else if s.InodeOf? then b else 0
    {
      if s.f < |v.inodes| {
        OldHold(v, NewInode(b, mode, stamps), s);
      } else {
        NewHolds(v, b, mode, stamps, s);
      }
    }
    forall c: nat | c < |v.disk| ensures IsUsed(w, c) == IsUsed(v, c) {
      SameBits(v, w, c);
    }
    forall s | ValidSlot(w, s) && Holds(w, s) != 0 ensures Legal(w, s, Holds(w, s)) {
      if s.f < |v.inodes| {
        assert Legal(v, s, Holds(v, s));
      }
    }
  }

  /** The block of a new inode, cleared and then written. */
  function AddFile(v: Vol, b: nat, mode: nat, stamps: seq<byte>): (w: Vol)
    requires Shape(v) && mode < 0x1_0000 && |stamps| == 16
    ensures Shape(w) && |w.inodes| == |v.inodes| + 1
  {
    SaveInode(WithFile(v, NewInode(b, mode, stamps)), |v.inodes|)
  }

  /** What inserting a file into directory d leaves of everything else. */
  ghost predicate Added(v: Vol, w: Vol, b: nat)
    requires Shape(v)
  {
    && Shape(w) && |w.inodes| == |v.inodes| + 1 && w.bmap == v.bmap && w.mapBlocks == v.mapBlocks
        && |w.disk| == |v.disk|
    && (forall s :: ValidSlot(w, s) ==>
          Holds(w, s) == if s.f < |v.inodes| then Holds(v, s) else if s.InodeOf? then b else 0)
    && (forall g, m :: 0 <= g < |v.inodes| && 0 <= m < MAX_BLOCKS ==> FileBlock(w, g, m) == FileBlock(v, g, m))
  }

  lemma AddIsRight(v: Vol, b: nat, mode: nat, stamps: seq<byte>)
    requires Stable(v) && Loose(v, b) && mode < 0x1_0000 && |stamps| == 16
    ensures var w := AddFile(v, b, mode, stamps);
            Stable(w) && Added(v, w, b) && w.inodes == v.inodes + [NewInode(b, mode, stamps)]
  {
    hide Own, Holds, Loose, NewInode, InodeBlock;
    var n := NewInode(b, mode, stamps);
    var x := WithFile(v, n);
    WithFileOwns(v, b, mode, stamps);
    SaveKeepsAll(x, |v.inodes|);
    SaveSyncs(x, |v.inodes|);
    var w := AddFile(v, b, mode, stamps);
    forall s | ValidSlot(w, s)
      ensures Holds(w, s) == if s.f < |v.inodes| then Holds(v, s) else if s.InodeOf? then b else 0
    {
      if s.f < |v.inodes| {
        OldHold(v, n, s);
      } else {
        NewHolds(v, b, mode, stamps, s);
      }
    }
    forall g, m | 0 <= g < |v.inodes| && 0 <= m < MAX_BLOCKS ensures FileBlock(w, g, m) == FileBlock(v, g, m) {
      assert FileBlock(w, g, m) == FileBlock(x, g, m);
      OldHold(v, n, Data(g, m));
    }
  }

  // ---- creating a file ----

  /** What insert_file_into_dir and fs_create_delete do to the volume, once the scan of directory d has come to the
      entry block at `pos`, whose content with the new name is `entries`. None: a failed allocation, or the range of
      the directory's inode is used up. */
  function CreateFile(v: Vol, d: nat, pos: nat, entries: Block, mode: nat, stamps: seq<byte>): (r: Option<Vol>)
    requires Shape(v) && d < |v.inodes| && pos + BLOCK_SIZE < WORD && mode < 0x1_0000 && |stamps| == 16
    ensures r.Some? ==> Shape(r.value) && |r.value.inodes| == |v.inodes| + 1
  {
    match GetDataBlock(v, d, pos, true)
    case Missing => None
    case Full => None
    case Found(v1, eb) =>
      match FirstFree(v1, eb)
      case None => None
      case Some(nb) => Some(AddFile(Named(v1, d, pos, eb, nb, entries, stamps), nb, mode, stamps))
  }

  /** The new inode's block marked, the directory's inode and entry block written back, the new block cleared. */
  function Named(v: Vol, d: nat, pos: nat, eb: nat, nb: nat, entries: Block, stamps: seq<byte>): (r: Vol)
    requires Shape(v) && d < |v.inodes| && pos + BLOCK_SIZE < WORD && |stamps| == 16 && nb < |v.disk|
    ensures Shape(r) && |r.inodes| == |v.inodes|
  {
    MarkFrame(v, nb, true, 0);
    var v2 := Mark(v, nb, true);
    var v3 := EditInode(v2, d, Max(v2.inodes[d].size, pos + BLOCK_SIZE), stamps);
    Put(Put(v3, eb, entries), nb, Zeros())
  }

  lemma PutsCommute(v: Vol, a: nat, x: Block, b: nat, y: Block)
    requires a != b
    ensures Put(Put(v, a, x), b, y) == Put(Put(v, b, y), a, x)
  {
    if a < |v.disk| && b < |v.disk| {
      assert v.disk[a := x][b := y] == v.disk[b := y][a := x];
    }
  }

  lemma EditCommutes(v: Vol, f: nat, size: nat, stamps: seq<byte>, b: nat, y: Block)
    requires Shape(v) && f < |v.inodes| && size < WORD && |stamps| == 16 && b != v.inodes[f].adr
    ensures Shape(Put(v, b, y))
    ensures Put(EditInode(v, f, size, stamps), b, y) == EditInode(Put(v, b, y), f, size, stamps)
  {
    hide InodeBlock;
    var n := Edited(v.inodes[f], size, stamps);
    PutsCommute(SetInode(v, f, n), n.adr, InodeBlock(n), b, y);
  }

  /** It makes no difference when the new block is cleared. */
  lemma ClearedEarly(v: Vol, d: nat, pos: nat, eb: nat, nb: nat, entries: Block, stamps: seq<byte>)
    requires Shape(v) && d < |v.inodes| && pos + BLOCK_SIZE < WORD && |stamps| == 16
    requires FirstFree(v, eb) == Some(nb) && nb != eb && nb != v.inodes[d].adr
    ensures var u := Put(Mark(v, nb, true), nb, Zeros());
            && Shape(u) && u.inodes == v.inodes && Enlarge(v, eb) == Some((u, nb))
            && Named(v, d, pos, eb, nb, entries, stamps) ==
               Put(EditInode(u, d, Max(u.inodes[d].size, pos + BLOCK_SIZE), stamps), eb, entries)
  {
    hide EditInode, Zeros, Mark;
    MarkFrame(v, nb, true, 0);
    var v2 := Mark(v, nb, true);
    var size := Max(v2.inodes[d].size, pos + BLOCK_SIZE);
    EditCommutes(v2, d, size, stamps, nb, Zeros());
    PutsCommute(EditInode(v2, d, size, stamps), eb, entries, nb, Zeros());
  }

  /** What enlarge_file and the creation of a file have in common: a free block is marked and cleared. */
  lemma EnlargeIsStable(v: Vol, start: nat)
    requires Stable(v) && Enlarge(v, start).Some?
    ensures var (u, b) := Enlarge(v, start).value;
            && Stable(u) && Loose(u, b) && u.inodes == v.inodes && |u.disk| == |v.disk| && u.mapBlocks == v.mapBlocks
            && !IsUsed(v, b) && start <= b
            && (forall s :: ValidSlot(v, s) ==> Holds(u, s) == Holds(v, s))
            && (forall g, m :: 0 <= g < |v.inodes| && 0 <= m < MAX_BLOCKS ==> FileBlock(u, g, m) == FileBlock(v, g, m))
            && (forall c: nat :: c < |v.disk| ==> IsUsed(u, c) == (c == b || IsUsed(v, c)))
  {
    EnlargeTakesFreeBlock(v, start);
    EnlargeBlocks(v, start);
    hide Own, Holds, Enlarge, IsUsed, Loose;
    var (u, b) := Enlarge(v, start).value;
    forall g | 0 <= g < |v.inodes| ensures At(u, u.inodes[g].adr) == InodeBlock(u.inodes[g]) {
      HeldApart(v, InodeOf(g), b);
      AdrIsHeld(v, g);
    }
    forall g, m | 0 <= g < |v.inodes| && 0 <= m < MAX_BLOCKS ensures FileBlock(u, g, m) == FileBlock(v, g, m) {
      if Holds(v, Data(g, m)) != 0 {
        HeldApart(v, Data(g, m), b);
      }
    }
  }

  lemma HeldApart(v: Vol, s: Slot, b: nat)
    requires Own(v) && ValidSlot(v, s) && Holds(v, s) != 0 && !IsUsed(v, b)
    ensures var c := Holds(v, s); c != b && (c < FIRST_BMAP_BLOCK || c >= FirstData(v))
  {
    assert Legal(v, s, Holds(v, s));
  }

  /** Editing an inode leaves loose blocks loose. */
  lemma EditKeepsLoose(v: Vol, f: nat, size: nat, stamps: seq<byte>, b: nat)
    requires Stable(v) && f < |v.inodes| && size < WORD && |stamps| == 16 && Loose(v, b)
    ensures Shape(EditInode(v, f, size, stamps)) && Loose(EditInode(v, f, size, stamps), b)
  {
    EditIsRight(v, f, size, stamps);
    hide Own, Holds;
    var w := EditInode(v, f, size, stamps);
    AdrIsHeld(v, f);
    SameBits(v, w, b);
  }

  /** Writing a data block of a file: all else stays. */
  lemma PutIsRight(v: Vol, g: nat, m: nat, b: nat, content: Block)
    requires Stable(v) && g < |v.inodes| && m < MAX_BLOCKS && b != 0 && Holds(v, Data(g, m)) == b
    ensures var w := Put(v, b, content);
            && Stable(w) && w.inodes == v.inodes && w.bmap == v.bmap && w.mapBlocks == v.mapBlocks
            && |w.disk| == |v.disk|
            && (forall s :: ValidSlot(v, s) ==> Holds(w, s) == Holds(v, s))
            && (forall h, k :: 0 <= h < |v.inodes| && 0 <= k < MAX_BLOCKS ==>
                  FileBlock(w, h, k) == if h == g && k == m then Some(content) else FileBlock(v, h, k))
            && (forall c: nat :: c != b ==> At(w, c) == At(v, c))
  {
    PutKeepsSlots(v, Data(g, m), content);
    hide Own, Holds;
    var w := Put(v, b, content);
    forall h | 0 <= h < |v.inodes| ensures At(w, w.inodes[h].adr) == InodeBlock(w.inodes[h]) {
      AdrIsHeld(v, h);
      DistinctSlots(v, InodeOf(h), Data(g, m));
    }
    forall h, k | 0 <= h < |v.inodes| && 0 <= k < MAX_BLOCKS
      ensures FileBlock(w, h, k) == if h == g && k == m then Some(content) else FileBlock(v, h, k)
    {
      if Holds(v, Data(h, k)) != 0 && !(h == g && k == m) {
        DistinctSlots(v, Data(h, k), Data(g, m));
      }
    }
  }

  /** From v to w, w having a new file: the other files are as they were but for the directory's entry block. */
  ghost predicate Created(v: Vol, w: Vol, d: nat, m: nat, entries: Block)
    requires Shape(v) && Shape(w) && |w.inodes| == |v.inodes| + 1
  {
    && (forall g, k :: 0 <= g < |v.inodes| && 0 <= k < MAX_BLOCKS ==>
          FileBlock(w, g, k) == if g == d && k == m then Some(entries) else FileBlock(v, g, k))
    && (forall k :: 0 <= k < MAX_BLOCKS ==> FileBlock(w, |v.inodes|, k) == None)
    && w.inodes[|v.inodes|].size == 0 && !IsUsed(v, w.inodes[|v.inodes|].adr) && IsUsed(w, w.inodes[|v.inodes|].adr)
  }

  /** Naming the new file, from the volume in which its block has been taken. */
  lemma NamedIsRight(v: Vol, d: nat, pos: nat, eb: nat, nb: nat, entries: Block, stamps: seq<byte>)
    requires Stable(v) && d < |v.inodes| && pos + BLOCK_SIZE < WORD && pos < MAX_BYTES && |stamps| == 16
    requires eb != 0 && Holds(v, Data(d, pos / BLOCK_SIZE)) == eb && FirstFree(v, eb) == Some(nb)
    ensures var w := Named(v, d, pos, eb, nb, entries, stamps);
            && Stable(w) && Loose(w, nb) && |w.disk| == |v.disk| && w.mapBlocks == v.mapBlocks && !IsUsed(v, nb)
            && (forall s :: ValidSlot(v, s) ==> Holds(w, s) == Holds(v, s))
            && (forall g, k :: 0 <= g < |v.inodes| && 0 <= k < MAX_BLOCKS ==>
                  FileBlock(w, g, k) == if g == d && k == pos / BLOCK_SIZE then Some(entries) else FileBlock(v, g, k))
            && (forall c: nat :: c < |v.disk| ==> IsUsed(w, c) == (c == nb || IsUsed(v, c)))
  {
    hide Own, Holds, IsUsed, EditInode, Named, FirstFree, Enlarge, FileBlock, Synced, Loose, At;
    HeldIsOnDisk(v, Data(d, pos / BLOCK_SIZE));
    HeldIsOnDisk(v, InodeOf(d));
    AdrIsHeld(v, d);
    ClearedEarly(v, d, pos, eb, nb, entries, stamps);
    EnlargeIsStable(v, eb);
    var u := Enlarge(v, eb).value.0;
    EntryIsWritten(u, d, pos / BLOCK_SIZE, Max(u.inodes[d].size, pos + BLOCK_SIZE), eb, nb, entries, stamps);
  }

  /** Writing back the directory's inode and its entry block. */
  lemma EntryIsWritten(u: Vol, d: nat, m: nat, size: nat, eb: nat, nb: nat, entries: Block, stamps: seq<byte>)
    requires Stable(u) && d < |u.inodes| && m < MAX_BLOCKS && size < WORD && |stamps| == 16
    requires eb != 0 && Holds(u, Data(d, m)) == eb && nb != eb && Loose(u, nb)
    ensures var w := Put(EditInode(u, d, size, stamps), eb, entries);
            && Stable(w) && Loose(w, nb) && |w.inodes| == |u.inodes| && |w.disk| == |u.disk|
            && w.mapBlocks == u.mapBlocks
            && (forall s :: ValidSlot(u, s) ==> Holds(w, s) == Holds(u, s))
            && (forall g, k :: 0 <= g < |u.inodes| && 0 <= k < MAX_BLOCKS ==>
                  FileBlock(w, g, k) == if g == d && k == m then Some(entries) else FileBlock(u, g, k))
            && (forall c: nat :: c < |u.disk| ==> IsUsed(w, c) == IsUsed(u, c))
  {
    hide Own, Holds, EditInode, FileBlock, Synced, IsUsed;
    EditIsRight(u, d, size, stamps);
    EditKeepsLoose(u, d, size, stamps, nb);
    var x := EditInode(u, d, size, stamps);
    PutIsRight(x, d, m, eb, entries);
    var w := Put(x, eb, entries);
    forall c: nat | c < |u.disk| ensures IsUsed(w, c) == IsUsed(u, c) {
      SameBits(u, w, c);
    }
  }

  /** Creating a file keeps all invariants and the account of used blocks; the new file has no blocks, and of the
      others only the directory's entry block changes. */
  lemma CreateIsRight(v: Vol, d: nat, pos: nat, entries: Block, mode: nat, stamps: seq<byte>)
    requires Stable(v) && d < |v.inodes| && pos + BLOCK_SIZE < WORD && mode < 0x1_0000 && |stamps| == 16
    requires CreateFile(v, d, pos, entries, mode, stamps).Some?
    ensures var w := CreateFile(v, d, pos, entries, mode, stamps).value;
            && Stable(w) && Created(v, w, d, pos / BLOCK_SIZE, entries) && (Exact(v) ==> Exact(w))
  {
    hide Own, Holds, IsUsed, GetDataBlock, Named, FirstFree, FileBlock, Synced, SlotsGrew, AddFile, NewInode, Loose,
         Exact;
    GetDataBlockIsRight(v, d, pos, true);
    var l := GetDataBlock(v, d, pos, true);
    var nb := FirstFree(l.v, l.block).value;
    NamedIsRight(l.v, d, pos, l.block, nb, entries, stamps);
    var u := Named(l.v, d, pos, l.block, nb, entries, stamps);
    AddIsRight(u, nb, mode, stamps);
    var w := AddFile(u, nb, mode, stamps);
    NewFileIsEmpty(u, w, nb, mode, stamps);
    WasFree(v, l.v, d, nb);
    if Exact(v) {
      CreateKeepsExact(v, l.v, u, w, d, nb);
    }
  }

  lemma NewFileIsEmpty(u: Vol, w: Vol, nb: nat, mode: nat, stamps: seq<byte>)
    requires Shape(u) && Added(u, w, nb) && mode < 0x1_0000 && |stamps| == 16 && Loose(u, nb)
    requires w.inodes == u.inodes + [NewInode(nb, mode, stamps)]
    ensures w.inodes[|u.inodes|].size == 0 && w.inodes[|u.inodes|].adr == nb && IsUsed(w, nb)
    ensures forall k :: 0 <= k < MAX_BLOCKS ==> FileBlock(w, |u.inodes|, k) == None
  {
    hide Holds;
    SameBits(u, w, nb);
  }

  lemma WasFree(v: Vol, u: Vol, f: nat, b: nat)
    requires Shape(v) && SlotsGrew(v, u, f) && b < |v.disk| && !IsUsed(u, b)
    ensures !IsUsed(v, b)
  {
  }

  lemma CreateKeepsExact(v: Vol, v1: Vol, u: Vol, w: Vol, d: nat, nb: nat)
    requires Own(v) && Exact(v) && SlotsGrew(v, v1, d) && Stable(u) && Added(u, w, nb) && d < |v.inodes|
    requires |u.inodes| == |v1.inodes| && |u.disk| == |v1.disk| && u.mapBlocks == v1.mapBlocks
    requires forall s :: ValidSlot(v1, s) ==> Holds(u, s) == Holds(v1, s)
    requires forall c: nat :: c < |v1.disk| ==> IsUsed(u, c) == (c == nb || IsUsed(v1, c))
    ensures Exact(w)
  {
    hide Own, Holds, IsUsed;
    forall c: nat | FirstData(w) <= c < |w.disk| && IsUsed(w, c)
      ensures exists g :: 0 <= g < |w.inodes| && OwnedBy(w, g, c)
    {
      SameBits(u, w, c);
      if c == nb {
        assert ValidSlot(w, InodeOf(|u.inodes|)) && Holds(w, InodeOf(|u.inodes|)) == c;
        assert OwnedBy(w, |u.inodes|, c);
      } else if IsUsed(v, c) {
        var g :| 0 <= g < |v.inodes| && OwnedBy(v, g, c);
        var s :| ValidSlot(v, s) && s.f == g && Holds(v, s) == c;
        assert Holds(v1, s) == c;
        assert ValidSlot(w, s) && Holds(w, s) == c;
        assert OwnedBy(w, g, c);
      } else {
        assert OwnedBy(v1, d, c);
        var s :| ValidSlot(v1, s) && s.f == d && Holds(v1, s) == c;
        assert ValidSlot(w, s) && Holds(w, s) == c;
        assert OwnedBy(w, d, c);
      }
    }
  }
}
