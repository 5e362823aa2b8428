/** A new file system on a disk: the bitmap with the metadata blocks marked, and the root inode in memory. */
module FsFormat {
  import opened Bytes
  import opened FsLayout
  import opened FsVolume
  import opened FsOwnership
  import opened FsGrowth
  import opened FsLookup
  import opened FsFiles

  const SUPER_BLOCK := 1
  const DATA_FILE := 1
  const DIRECTORY := 2
  const BITS := 8 * BLOCK_SIZE    // blocks that one block of the bitmap tells about

  /** malloc_bmap */
  function MapBlocksFor(hdsize: nat): nat { hdsize / 8 / BLOCK_SIZE + 1 }

  /** The metadata have room on the disk, and its blocks can be numbered. */
  predicate Formattable(disk: seq<Block>) {
    |disk| < WORD && FIRST_BMAP_BLOCK + MapBlocksFor(|disk|) <= |disk|
  }

  function BlankMap(n: nat): seq<bv8> { seq(n, _ => 0) }

  function Blank(disk: seq<Block>): (v: Vol)
    requires Formattable(disk)
    ensures Shape(v)
  {
    Vol(disk, BlankMap(BLOCK_SIZE * MapBlocksFor(|disk|)), MapBlocksFor(|disk|), [])
  }

  /** The loop of init_bmap, up to block n. */
  function MarkFirst(v: Vol, n: nat): (w: Vol)
    requires Shape(v) && n <= |v.disk|
    ensures Shape(w) && w.inodes == v.inodes && |w.disk| == |v.disk| && w.mapBlocks == v.mapBlocks
    ensures |w.bmap| == |v.bmap|
  {
    if n == 0 then v
    else
      var u := MarkFirst(v, n - 1);
      MarkFrame(u, n - 1, true, 0);
      Mark(u, n - 1, true)
  }

  lemma MarksOneMore(v: Vol, n: nat)
    requires Shape(v) && n < |v.disk|
    ensures MarkFirst(v, n + 1) == Mark(MarkFirst(v, n), n, true)
  {
    hide Mark, Shape;
  }

  lemma MarksNone(v: Vol)
    requires Shape(v)
    ensures MarkFirst(v, 0) == v
  {
  }

  /** new_minode */
  function NewInode(adr: nat, mode: nat, stamps: seq<byte>): (n: Inode)
    requires mode < 0x1_0000 && |stamps| == 16
    ensures IsInode(n)
  {
    Inode(adr, mode, 0, stamps, seq(DIRECT, _ => 0), 0, 0)
  }

  /** create_fs. `super` is what the super block will hold, and `stamps` is the time. */
  function Format(disk: seq<Block>, super: Block, stamps: seq<byte>): (v: Vol)
    requires Formattable(disk) && |stamps| == 16
    ensures Shape(v)
  {
    var v := MarkFirst(Blank(disk), FirstData(Blank(disk)));
    Put(v.(inodes := [NewInode(ROOT_INODE_BLOCK, DIRECTORY, stamps)]), SUPER_BLOCK, super)
  }

  // ---- the bitmap ----

  predicate SameMapBlock(v: Vol, w: Vol, k: nat) {
    At(w, FIRST_BMAP_BLOCK + k) == At(v, FIRST_BMAP_BLOCK + k) && BitmapBlock(w.bmap, k) == BitmapBlock(v.bmap, k)
  }

  predicate MapBlockSaved(v: Vol, k: nat) { At(v, FIRST_BMAP_BLOCK + k) == BitmapBlock(v.bmap, k) }

  /** One mark touches one block of the bitmap, and saves it. */
  lemma MarkTouchesOne(v: Vol, b: nat, k: nat)
    requires Shape(v) && b < |v.disk| && k < v.mapBlocks
    ensures var w := Mark(v, b, true);
            if k == b / BITS then MapBlockSaved(w, k) else SameMapBlock(v, w, k)
  {
    var w := Mark(v, b, true);
    assert b / BITS == b / 8 / BLOCK_SIZE;
    if k != b / BITS {
      forall i | 0 <= i < BLOCK_SIZE ensures MapByte(w.bmap, k, i) == MapByte(v.bmap, k, i) {
        assert (BLOCK_SIZE * k + i) / BLOCK_SIZE == k;
      }
    }
  }

  lemma {:induction false} FirstAreMarked(v: Vol, n: nat, c: nat)
    requires Shape(v) && n <= |v.disk| && c / 8 < |v.bmap|
    ensures IsUsed(MarkFirst(v, n), c) <==> c < n || IsUsed(v, c)
  {
    hide IsUsed, Mark, MarkFirst, Shape;
    if n == 0 {
      MarksNone(v);
    } else {
      MarksOneMore(v, n - 1);
      FirstAreMarked(v, n - 1, c);
      MarkSetsOneBit(MarkFirst(v, n - 1), n - 1, true, c);
    }
  }

  /** Only the bitmap blocks that tell about a marked block are written. */
  lemma {:induction false} FirstAreSaved(v: Vol, n: nat, k: nat)
    requires Shape(v) && n <= |v.disk| && k < v.mapBlocks
    ensures var w := MarkFirst(v, n); if BITS * k < n then MapBlockSaved(w, k) else SameMapBlock(v, w, k)
  {
    hide Mark, BitmapBlock, At, MarkFirst, Shape;
    if n == 0 {
      MarksNone(v);
    } else {
      MarksOneMore(v, n - 1);
      FirstAreSaved(v, n - 1, k);
      MarkTouchesOne(MarkFirst(v, n - 1), n - 1, k);
    }
  }

  lemma {:induction false} OthersAreKept(v: Vol, n: nat, c: nat)
    requires Shape(v) && n <= |v.disk| && (c < FIRST_BMAP_BLOCK || c >= FirstData(v))
    ensures At(MarkFirst(v, n), c) == At(v, c)
  {
    hide Mark, At, MarkFirst, Shape;
    if n == 0 {
      MarksNone(v);
    } else {
      MarksOneMore(v, n - 1);
      OthersAreKept(v, n - 1, c);
      MarkFrame(MarkFirst(v, n - 1), n - 1, true, c);
    }
  }

  lemma BlankHasNoBit(n: nat, k: nat, bit: nat)
    requires k < n && bit < 8
    ensures !BitSet(BlankMap(n)[k], bit)
  {
    ZeroByte(BlankMap(n)[k], bit);
  }

  lemma ZeroByte(b: bv8, bit: nat)
    requires b == 0 && bit < 8
    ensures !BitSet(b, bit)
  {
  }

  lemma BlankMapIsZeros(n: nat, k: nat)
    ensures BitmapBlock(BlankMap(n), k) == Zeros()
  {
    forall i | 0 <= i < BLOCK_SIZE ensures MapByte(BlankMap(n), k, i) == 0 {
      if BLOCK_SIZE * k + i < n {
        assert BlankMap(n)[BLOCK_SIZE * k + i] == 0;
      }
    }
  }

  /** Just the blocks before the first data block are in use. */
  lemma FormatMarksMetadata(disk: seq<Block>, super: Block, stamps: seq<byte>, c: nat)
    requires Formattable(disk) && |stamps| == 16 && c < |disk|
    ensures var v := Format(disk, super, stamps); IsUsed(v, c) <==> c < FirstData(v)
  {
    hide MarkFirst, BitSet;
    var b := Blank(disk);
    FirstAreMarked(b, FirstData(b), c);
    BlankHasNoBit(|b.bmap|, c / 8, c % 8);
    SameBits(MarkFirst(b, FirstData(b)), Format(disk, super, stamps), c);
  }

  lemma SameBits(v: Vol, w: Vol, c: nat)
    requires w.bmap == v.bmap
    ensures IsUsed(w, c) == IsUsed(v, c)
  {
  }

  /** The blocks of the bitmap that init_bmap does not write are blank already. */
  predicate OldMapIsBlank(disk: seq<Block>)
    requires Formattable(disk)
  {
    forall k :: 0 <= k < MapBlocksFor(|disk|) && BITS * k >= FIRST_BMAP_BLOCK + MapBlocksFor(|disk|) ==>
      disk[FIRST_BMAP_BLOCK + k] == Zeros()
  }

  lemma FormatSaves(disk: seq<Block>, super: Block, stamps: seq<byte>, k: nat)
    requires Formattable(disk) && |stamps| == 16 && k < MapBlocksFor(|disk|)
    ensures MapBlockSaved(Format(disk, super, stamps), k) <==>
            BITS * k < FIRST_BMAP_BLOCK + MapBlocksFor(|disk|) || disk[FIRST_BMAP_BLOCK + k] == Zeros()
  {
    hide MarkFirst, BitmapBlock, Zeros;
    var b := Blank(disk);
    FirstAreSaved(b, FirstData(b), k);
    BlankMapIsZeros(|b.bmap|, k);
    var m := MarkFirst(b, FirstData(b));
    assert At(Format(disk, super, stamps), FIRST_BMAP_BLOCK + k) == At(m, FIRST_BMAP_BLOCK + k);
  }

  lemma FormatSavesIff(disk: seq<Block>, super: Block, stamps: seq<byte>)
    requires Formattable(disk) && |stamps| == 16
    ensures BitmapSaved(Format(disk, super, stamps)) <==> OldMapIsBlank(disk)
  {
    hide Format, BitmapBlock, Zeros;
    var v := Format(disk, super, stamps);
    FormatFrame(disk, super, stamps);
    forall k: nat | k < MapBlocksFor(|disk|)
      ensures MapBlockSaved(v, k) <==>
              BITS * k < FIRST_BMAP_BLOCK + MapBlocksFor(|disk|) || disk[FIRST_BMAP_BLOCK + k] == Zeros()
    {
      FormatSaves(disk, super, stamps, k);
    }
    if OldMapIsBlank(disk) {
      forall k | 0 <= k < v.mapBlocks ensures At(v, FIRST_BMAP_BLOCK + k) == BitmapBlock(v.bmap, k) {
        assert MapBlockSaved(v, k);
      }
    }
    if BitmapSaved(v) {
      forall k | 0 <= k < MapBlocksFor(|disk|) && BITS * k >= FIRST_BMAP_BLOCK + MapBlocksFor(|disk|)
        ensures disk[FIRST_BMAP_BLOCK + k] == Zeros()
      {
        assert MapBlockSaved(v, k);
      }
    }
  }

  lemma FormatFrame(disk: seq<Block>, super: Block, stamps: seq<byte>)
    requires Formattable(disk) && |stamps| == 16
    ensures var v := Format(disk, super, stamps);
            && v.mapBlocks == MapBlocksFor(|disk|) && |v.disk| == |disk|
            && v.inodes == [NewInode(ROOT_INODE_BLOCK, DIRECTORY, stamps)]
            && forall c: nat :: c == ROOT_INODE_BLOCK || FirstData(v) <= c < |disk| ==> At(v, c) == disk[c]
  {
    hide MarkFirst;
    var b := Blank(disk);
    var v := Format(disk, super, stamps);
    forall c: nat | c == ROOT_INODE_BLOCK || FirstData(v) <= c < |disk| ensures At(v, c) == disk[c] {
      OthersAreKept(b, FirstData(b), c);
    }
  }

  // ---- what a new file system has, and what it has not ----

  lemma NewInodeHoldsNothing(v: Vol, s: Slot)
    requires Shape(v) && ValidSlot(v, s)
    requires v.inodes[s.f] == NewInode(v.inodes[s.f].adr, v.inodes[s.f].mode, v.inodes[s.f].stamps)
    ensures Holds(v, s) == if s.InodeOf? then v.inodes[s.f].adr else 0
    decreases Rank(s)
  {
    if IsEntry(s) {
      NewInodeHoldsNothing(v, Parent(s));
    }
  }

  /** On a new file system no two pointers share a block and all blocks in use are accounted for; the saved bitmap is
      the one in memory exactly if the rest of the old one was blank: init_bmap writes only the blocks it marks in. */
  lemma FormatOwnsIff(disk: seq<Block>, super: Block, stamps: seq<byte>)
    requires Formattable(disk) && |stamps| == 16
    ensures var v := Format(disk, super, stamps);
            && (Own(v) <==> OldMapIsBlank(disk)) && AllLegal(v) && Distinct(v) && Exact(v)
  {
    hide Format, Holds, IsUsed, NewInode;
    var v := Format(disk, super, stamps);
    FormatFrame(disk, super, stamps);
    FormatSavesIff(disk, super, stamps);
    assert v.inodes[0].adr == ROOT_INODE_BLOCK by { RootAdr(stamps); }
    forall s | ValidSlot(v, s) ensures Holds(v, s) == if s == InodeOf(0) then ROOT_INODE_BLOCK else 0 {
      RootIsNew(v, stamps, s);
    }
    forall c: nat | c < |disk| ensures IsUsed(v, c) <==> c < FirstData(v) {
      FormatMarksMetadata(disk, super, stamps, c);
    }
    assert Legal(v, InodeOf(0), ROOT_INODE_BLOCK);
  }

  lemma RootAdr(stamps: seq<byte>)
    requires |stamps| == 16
    ensures NewInode(ROOT_INODE_BLOCK, DIRECTORY, stamps).adr == ROOT_INODE_BLOCK
  {
  }

  lemma RootIsNew(v: Vol, stamps: seq<byte>, s: Slot)
    requires Shape(v) && |stamps| == 16 && v.inodes == [NewInode(ROOT_INODE_BLOCK, DIRECTORY, stamps)]
        && ValidSlot(v, s)
    ensures Holds(v, s) == if s == InodeOf(0) then ROOT_INODE_BLOCK else 0
  {
    NewInodeHoldsNothing(v, s);
  }

  /** create_root does not write the root inode; only if the disk happens to hold it already, it is there. */
  lemma FormatSyncsIff(disk: seq<Block>, super: Block, stamps: seq<byte>)
    requires Formattable(disk) && |stamps| == 16
    ensures Synced(Format(disk, super, stamps)) <==>
            disk[ROOT_INODE_BLOCK] == InodeBlock(NewInode(ROOT_INODE_BLOCK, DIRECTORY, stamps))
  {
    hide Format, InodeBlock, NewInode;
    FormatFrame(disk, super, stamps);
    RootAdr(stamps);
    var v := Format(disk, super, stamps);
    assert At(v, v.inodes[0].adr) == disk[ROOT_INODE_BLOCK];
  }

  /** The first time the root inode is written, by write_root, fs_close or get_data_block, all invariants hold. */
  lemma SavedRootIsStable(disk: seq<Block>, super: Block, stamps: seq<byte>)
    requires Formattable(disk) && |stamps| == 16 && OldMapIsBlank(disk)
    ensures var w := SaveInode(Format(disk, super, stamps), 0); Stable(w) && Exact(w)
  {
    hide Format, Own;
    FormatOwnsIff(disk, super, stamps);
    FormatFrame(disk, super, stamps);
    var v := Format(disk, super, stamps);
    SaveSyncs(v, 0);
    SaveKeepsAll(v, 0);
    ExactStays(v, SaveInode(v, 0));
  }

  lemma ExactStays(v: Vol, w: Vol)
    requires Shape(v) && Shape(w) && Exact(v) && |w.inodes| == |v.inodes| && |w.disk| == |v.disk|
    requires w.mapBlocks == v.mapBlocks && w.bmap == v.bmap
    requires forall s :: ValidSlot(v, s) ==> Holds(w, s) == Holds(v, s)
    ensures Exact(w)
  {
    hide Holds;
    forall c: nat | FirstData(w) <= c < |w.disk| && IsUsed(w, c)
      ensures exists f :: 0 <= f < |w.inodes| && OwnedBy(w, f, c)
    {
      SameBits(v, w, c);
      var f :| 0 <= f < |v.inodes| && OwnedBy(v, f, c);
      var s :| ValidSlot(v, s) && s.f == f && Holds(v, s) == c;
      assert ValidSlot(w, s) && Holds(w, s) == c;
      assert OwnedBy(w, f, c);
    }
  }

  // ---- loading ----

  /** load_bmap: the bitmap as the disk has it. */
  function LoadedMap(disk: seq<Block>): seq<bv8>
    requires Formattable(disk)
  {
    seq(BLOCK_SIZE * MapBlocksFor(|disk|), i requires 0 <= i < BLOCK_SIZE * MapBlocksFor(|disk|) => MapBitsAt(disk, i))
  }

  function MapBitsAt(disk: seq<Block>, i: nat): bv8
    requires Formattable(disk) && i < BLOCK_SIZE * MapBlocksFor(|disk|)
  {
    disk[FIRST_BMAP_BLOCK + i / BLOCK_SIZE][i % BLOCK_SIZE] as bv8
  }

  lemma ReadIsInode(adr: nat, b: Block)
    ensures IsInode(ReadInode(adr, b))
  {
  }

  /** load_fs on a disk with a file system: the bitmap and the root inode. */
  function Load(disk: seq<Block>): (v: Vol)
    requires Formattable(disk)
    ensures Shape(v)
  {
    ReadIsInode(ROOT_INODE_BLOCK, disk[ROOT_INODE_BLOCK]);
    Vol(disk, LoadedMap(disk), MapBlocksFor(|disk|), [ReadInode(ROOT_INODE_BLOCK, disk[ROOT_INODE_BLOCK])])
  }

  lemma ByteAndBack(b: bv8)
    ensures (b as int) as bv8 == b
  {
  }

  /** Between any two operations, what is loaded is what is in memory: bitmap and root inode are on the disk. */
  lemma LoadsWhatWasSaved(v: Vol)
    requires Stable(v) && Formattable(v.disk) && v.mapBlocks == MapBlocksFor(|v.disk|)
    requires |v.inodes| > 0 && v.inodes[0].adr == ROOT_INODE_BLOCK
    ensures Load(v.disk) == v.(inodes := [v.inodes[0]])
  {
    hide Own, InodeBlock, ReadInode;
    assert BitmapSaved(v) by { OwnParts(v); }
    InodeRoundTrip(v.inodes[0]);
    forall i | 0 <= i < |v.bmap| ensures MapBitsAt(v.disk, i) == v.bmap[i] {
      LoadsOneByte(v, i);
    }
    assert LoadedMap(v.disk) == v.bmap;
  }

  lemma LoadsOneByte(v: Vol, i: nat)
    requires Shape(v) && BitmapSaved(v) && Formattable(v.disk) && v.mapBlocks == MapBlocksFor(|v.disk|) && i < |v.bmap|
    ensures MapBitsAt(v.disk, i) == v.bmap[i]
  {
    var k := i / BLOCK_SIZE;
    assert At(v, FIRST_BMAP_BLOCK + k) == BitmapBlock(v.bmap, k);
    assert BLOCK_SIZE * k + i % BLOCK_SIZE == i;
    assert v.disk[FIRST_BMAP_BLOCK + k][i % BLOCK_SIZE] == MapByte(v.bmap, k, i % BLOCK_SIZE) == v.bmap[i] as int;
    ByteAndBack(v.bmap[i]);
  }
}
