/** From a blank disk to a sparse file: the invariants hold from the first operation on, and truncating the file loses
    blocks. */
module FsNewDisk {
  import opened Bytes
  import opened Options
  import opened FsLayout
  import opened FsVolume
  import opened FsOwnership
  import opened FsGrowth
  import opened FsLookup
  import opened FsFiles
  import opened FsFormat
  import opened FsRoom
  import opened FsTruncate
  import opened FsTruncateExact
  import opened FsLifetime
  import opened FsDeletion

  // ---- creating a file where there is room ----

  /** Four blocks are enough to create a file: up to three for the directory's entry block, and the inode's. */
  lemma CreateSucceeds(v: Vol, d: nat, pos: nat, entries: Block, mode: nat, stamps: seq<byte>, s: nat, n: nat)
    returns (r: nat)
    requires Stable(v) && d < |v.inodes| && pos < MAX_BYTES && pos + BLOCK_SIZE < WORD && mode < 0x1_0000
    requires |stamps| == 16 && RoomAbove(v, d, s, n + 4) && Holds(v, Data(d, pos / BLOCK_SIZE)) <= s
    ensures CreateFile(v, d, pos, entries, mode, stamps).Some?
    ensures RoomAbove(CreateFile(v, d, pos, entries, mode, stamps).value, |v.inodes|, r, n)
  {
    hide Own, Holds, IsUsed, GetDataBlock, Named, FirstFree, FileBlock, Synced, AddFile, NewInode, Loose, RoomAbove;
    GetDataBlockIsRight(v, d, pos, true);
    var r1 := GetDataBlockRoom(v, d, pos, s, n + 1);
    var l := GetDataBlock(v, d, pos, true);
    assert l.block <= r1;
    var nb := NextFree(l.v, d, l.block, r1, n);
    NamedIsRight(l.v, d, pos, l.block, nb, entries, stamps);
    var u := Named(l.v, d, pos, l.block, nb, entries, stamps);
    AddIsRight(u, nb, mode, stamps);
    var w := AddFile(u, nb, mode, stamps);
    forall c: nat | c < |l.v.disk| ensures IsUsed(w, c) == (IsUsed(l.v, c) || c == nb) {
      SameBits(u, w, c);
    }
    r := NewFileRoom(l.v, w, d, nb, r1, n);
  }

  lemma NextFree(v: Vol, d: nat, start: nat, s: nat, n: nat) returns (nb: nat)
    requires Shape(v) && d < |v.inodes| && RoomAbove(v, d, s, n + 1) && start <= s
    ensures FirstFree(v, start) == Some(nb) && forall c :: c in FreeFrom(v, s) ==> nb <= c
  {
    SomeRoom(v, d, s, n, start);
    nb := FirstFree(v, start).value;
  }

  lemma NewFileRoom(v: Vol, w: Vol, d: nat, nb: nat, s: nat, n: nat) returns (r: nat)
    requires Shape(v) && Shape(w) && d < |v.inodes| && |w.inodes| == |v.inodes| + 1 && |w.disk| == |v.disk|
    requires RoomAbove(v, d, s, n + 1) && forall c :: c in FreeFrom(v, s) ==> nb <= c
    requires forall c: nat :: c < |v.disk| ==> IsUsed(w, c) == (IsUsed(v, c) || c == nb)
    requires forall t :: ValidSlot(w, t) && t.f == |v.inodes| ==> Holds(w, t) == if t.InodeOf? then nb else 0
    ensures RoomAbove(w, |v.inodes|, r, n)
  {
    hide Holds, IsUsed;
    r := TakesOne(v, w, s, nb, n);
    assert w.inodes[|v.inodes|].adr == nb by { AdrOf(w, |v.inodes|); }
  }

  lemma AdrOf(v: Vol, f: nat)
    requires Shape(v) && f < |v.inodes|
    ensures ValidSlot(v, InodeOf(f)) && Holds(v, InodeOf(f)) == v.inodes[f].adr
  {
  }

  // ---- the first use of a new file system ----

  /** All data blocks of a new file system are free. */
  lemma FormatRoom(disk: seq<Block>, super: Block, stamps: seq<byte>, n: nat)
    requires Formattable(disk) && |stamps| == 16 && FIRST_BMAP_BLOCK + MapBlocksFor(|disk|) + n <= |disk|
    ensures var v := SaveInode(Format(disk, super, stamps), 0);
            Shape(v) && |v.inodes| == 1 && RoomAbove(v, 0, FirstData(v), n)
  {
    hide Format, Holds, IsUsed, NewInode, InodeBlock;
    var v := Format(disk, super, stamps);
    FormatFrame(disk, super, stamps);
    RootAdr(stamps);
    var w := SaveInode(v, 0);
    var s := FirstData(v);
    forall b: nat | s <= b < |w.disk| ensures !IsUsed(w, b) {
      FormatMarksMetadata(disk, super, stamps, b);
      SameBits(v, w, b);
    }
    ManyFree(w, s, |w.disk|);
    forall t | ValidSlot(w, t) && !t.Data? && !t.InodeOf? ensures Holds(w, t) <= s {
      RootIsNew(w, stamps, t);
    }
  }

  lemma {:induction false} ManyFree(v: Vol, s: nat, e: nat)
    requires s <= e <= |v.disk| && forall b: nat :: s <= b < |v.disk| ==> !IsUsed(v, b)
    ensures |set b: nat | s <= b < e && !IsUsed(v, b)| == e - s
    ensures e == |v.disk| ==> |FreeFrom(v, s)| == e - s
    decreases e
  {
    hide IsUsed;
    var all := set b: nat | s <= b < e && !IsUsed(v, b);
    if s < e {
      ManyFree(v, s, e - 1);
      assert all == (set b: nat | s <= b < e - 1 && !IsUsed(v, b)) + {e - 1};
    } else {
      assert all == {};
    }
    assert e == |v.disk| ==> FreeFrom(v, s) == all;
  }

  lemma {:induction false} SameFirstFree(v: Vol, w: Vol, start: nat)
    requires w.bmap == v.bmap && |w.disk| == |v.disk|
    ensures FirstFree(w, start) == FirstFree(v, start)
    decreases |v.disk| - start
  {
    SameBits(v, w, start);
    if start < |v.disk| && IsUsed(v, start) {
      SameFirstFree(v, w, start + 1);
    }
  }

  lemma PutTwice(v: Vol, a: nat, x: Block, y: Block)
    ensures Put(Put(v, a, x), a, y) == Put(v, a, y)
  {
    if a < |v.disk| {
      assert v.disk[a := x][a := y] == v.disk[a := y];
    }
  }

  lemma MarkThenPut(v: Vol, b: nat, a: nat, x: Block)
    requires Shape(v) && b < |v.disk| && a < FIRST_BMAP_BLOCK
    ensures Shape(Put(v, a, x)) && Mark(Put(v, a, x), b, true) == Put(Mark(v, b, true), a, x)
  {
    var k := b / 8 / BLOCK_SIZE;
    var u := v.(bmap := SetBit(v.bmap, b, true));
    PutsCommute(u, a, x, FIRST_BMAP_BLOCK + k, BitmapBlock(u.bmap, k));
  }

  lemma EnlargeThenPut(v: Vol, start: nat, a: nat, x: Block)
    requires Shape(v) && a < FIRST_BMAP_BLOCK && a < start
    requires forall c :: 0 <= c < FIRST_BMAP_BLOCK ==> IsUsed(v, c)
    ensures Shape(Put(v, a, x))
    ensures Enlarge(Put(v, a, x), start) ==
            match Enlarge(v, start) case None => None case Some(p) => Some((Put(p.0, a, x), p.1))
  {
    hide Mark, Zeros, IsUsed;
    var w := Put(v, a, x);
    SameFirstFree(v, w, start);
    var r := FirstFree(v, start);
    if r.Some? {
      MarkThenPut(v, r.value, a, x);
      PutsCommute(Mark(v, r.value, true), a, x, r.value, Zeros());
    }
  }

  /** get_data_block writes the root inode, so it makes no difference that create_root does not. */
  lemma FirstUseSavesRoot(v: Vol)
    requires Shape(v) && |v.inodes| > 0 && v.inodes[0].adr == ROOT_INODE_BLOCK && v.inodes[0].direct[0] == 0
    requires forall c :: 0 <= c < FIRST_BMAP_BLOCK ==> IsUsed(v, c)
    ensures GetDataBlock(SaveInode(v, 0), 0, 0, true) == GetDataBlock(v, 0, 0, true)
  {
    hide Enlarge, InodeBlock;
    var i := InodeBlock(v.inodes[0]);
    EnlargeFromRoot(v, i);
    var e := Enlarge(v, ROOT_INODE_BLOCK);
    if e.Some? {
      var (u, b) := e.value;
      EnlargeShape(v, ROOT_INODE_BLOCK);
      var n := SetPtr(u.inodes[0], DirectPtr(0), b);
      var x := SetInode(u, 0, n);
      PutTwice(x, ROOT_INODE_BLOCK, i, InodeBlock(n));
    }
  }

  lemma EnlargeShape(v: Vol, start: nat)
    requires Shape(v) && Enlarge(v, start).Some?
    ensures var (u, b) := Enlarge(v, start).value; Shape(u) && u.inodes == v.inodes && b < WORD
  {
    MarkFrame(v, FirstFree(v, start).value, true, 0);
  }

  lemma EnlargeFromRoot(v: Vol, i: Block)
    requires Shape(v) && forall c :: 0 <= c < FIRST_BMAP_BLOCK ==> IsUsed(v, c)
    ensures Shape(Put(v, ROOT_INODE_BLOCK, i))
    ensures Enlarge(Put(v, ROOT_INODE_BLOCK, i), ROOT_INODE_BLOCK) ==
            match Enlarge(v, ROOT_INODE_BLOCK)
            case None => None
            case Some(p) => Some((Put(p.0, ROOT_INODE_BLOCK, i), p.1))
  {
    hide Enlarge;
    SkipsRoot(v);
    SkipsRoot(Put(v, ROOT_INODE_BLOCK, i));
    EnlargeThenPut(v, ROOT_INODE_BLOCK + 1, ROOT_INODE_BLOCK, i);
  }

  /** The root inode's own block is not free. */
  lemma SkipsRoot(v: Vol)
    requires Shape(v) && IsUsed(v, ROOT_INODE_BLOCK)
    ensures Enlarge(v, ROOT_INODE_BLOCK) == Enlarge(v, ROOT_INODE_BLOCK + 1)
  {
    assert FirstFree(v, ROOT_INODE_BLOCK) == FirstFree(v, ROOT_INODE_BLOCK + 1);
  }

  /** The first file of a new file system: from here on all invariants hold. */
  lemma FirstFileIsStable(disk: seq<Block>, super: Block, stamps: seq<byte>, entries: Block, n: nat) returns (r: nat)
    requires Formattable(disk) && |stamps| == 16 && OldMapIsBlank(disk)
    requires FIRST_BMAP_BLOCK + MapBlocksFor(|disk|) + n + 4 <= |disk|
    ensures var c := CreateFile(Format(disk, super, stamps), 0, 0, entries, DATA_FILE, stamps);
            && c.Some? && Stable(c.value) && Exact(c.value) && |c.value.inodes| == 2
            && c.value.inodes[1].size == 0 && c.value.inodes[1].double == 0 && RoomAbove(c.value, 1, r, n)
  {
    hide Format, Own, Holds, IsUsed, GetDataBlock, Exact, RoomAbove, NewInode, AddFile;
    var v := Format(disk, super, stamps);
    FormatFrame(disk, super, stamps);
    RootFields(stamps);
    forall c | 0 <= c < FIRST_BMAP_BLOCK ensures IsUsed(v, c) {
      FormatMarksMetadata(disk, super, stamps, c);
    }
    FirstUseSavesRoot(v);
    SavedRootIsStable(disk, super, stamps);
    FormatRoom(disk, super, stamps, n + 4);
    var u := SaveInode(v, 0);
    RootIsNew(u, stamps, Data(0, 0));
    r := CreateSucceeds(u, 0, 0, entries, DATA_FILE, stamps, FirstData(u), n);
    CreateIsRight(u, 0, 0, entries, DATA_FILE, stamps);
    LastIsNew(u, 0, 0, entries, DATA_FILE, stamps);
  }

  lemma RootFields(stamps: seq<byte>)
    requires |stamps| == 16
    ensures var n := NewInode(ROOT_INODE_BLOCK, DIRECTORY, stamps); n.adr == ROOT_INODE_BLOCK && n.direct[0] == 0
  {
  }

  lemma LastIsNew(v: Vol, d: nat, pos: nat, entries: Block, mode: nat, stamps: seq<byte>)
    requires Shape(v) && d < |v.inodes| && pos + BLOCK_SIZE < WORD && mode < 0x1_0000 && |stamps| == 16
    requires CreateFile(v, d, pos, entries, mode, stamps).Some?
    ensures CreateFile(v, d, pos, entries, mode, stamps).value.inodes[|v.inodes|].double == 0
  {
    hide GetDataBlock, Named, FirstFree;
  }

  // ---- the sparse file ----

  /** On any new disk with eight data blocks: create a file, write one byte far behind its end, and truncate it to
      nothing. The account of used blocks was exact up to there, and is not any more: the address block stays marked,
      and nothing leads to it. */
  lemma SparseFileLosesBlocks(disk: seq<Block>, super: Block, stamps: seq<byte>, entries: Block, x: byte)
    requires Formattable(disk) && |stamps| == 16 && OldMapIsBlank(disk)
    requires FIRST_BMAP_BLOCK + MapBlocksFor(|disk|) + 8 <= |disk|
    ensures var c := CreateFile(Format(disk, super, stamps), 0, 0, entries, DATA_FILE, stamps);
            && c.Some? && |c.value.inodes| == 2
            && var o := Write(c.value, 1, [x], SPARSE, true);
               o.Some? && Stable(o.value.0) && Exact(o.value.0) && LosesBlock(o.value.0, 1)
  {
    hide Format, CreateFile, Write, Own, Holds, IsUsed, Exact, RoomAbove, TruncateTo, SlotsGrew, Wrote;
    var r := FirstFileIsStable(disk, super, stamps, entries, 4);
    var v := CreateFile(Format(disk, super, stamps), 0, 0, entries, DATA_FILE, stamps).value;
    assert BlocksTouched(SPARSE, 1) == 1;
    FewerRoom(v, 1, r, 4, 3);
    WriteSucceeds(v, 1, [x], SPARSE, r);
    WriteIsRight(v, 1, [x], SPARSE, true);
    WriteKeepsExact(v, 1, [x], SPARSE, true);
    SparseWriteLeavesGap(v, 1, x);
    var w := Write(v, 1, [x], SPARSE, true).value.0;
    SlotsGrewShape(v, w, 1);
    GapLosesBlocks(w, 1);
    GapIsLeftBehind(w, 1);
  }

  /** Truncating file f to nothing leaves an address block marked that no file leads to. */
  ghost predicate LosesBlock(w: Vol, f: nat)
    requires Stable(w)
  {
    && f < |w.inodes| && w.inodes[f].size > 0
    && var z := TruncateTo(w, f, 0);
       && Shape(z) && |z.inodes| == |w.inodes| && !Precise(w, z, f, 0) && !Exact(z)
       && var c := Holds(w, MidOf(f, 1)); c != 0 && IsUsed(z, c) && !OwnedBy(z, f, c)
  }

  lemma GapIsLeftBehind(w: Vol, f: nat)
    requires Stable(w) && Exact(w) && f < |w.inodes| && w.inodes[f].size > 0
    requires Holds(w, MidOf(f, 0)) == 0 && Holds(w, MidOf(f, 1)) != 0
    ensures Shape(TruncateTo(w, f, 0)) && !Exact(TruncateTo(w, f, 0))
  {
    hide TruncateTo, Holds, Own, Exact;
    TruncateKeepsExactIff(w, f, 0);
    assert StopAt(w, f, 0) == 0;
  }
}
