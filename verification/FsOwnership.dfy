/** Who owns which block: every pointer of every inode and address block is a slot, and no two slots hold one block. */
module FsOwnership {
  import opened Bytes
  import opened FsLayout
  import opened FsVolume

  /** The places where a block number can stand: the inode's own block, logical block n of a file, its single and
      double indirect blocks, and address block i of the double indirect one. */
  datatype Slot = InodeOf(f: nat) | Data(f: nat, n: nat) | SingleOf(f: nat) | DoubleOf(f: nat) | MidOf(f: nat, i: nat)

  predicate ValidSlot(v: Vol, s: Slot) {
    s.f < |v.inodes| && (s.Data? ==> s.n < MAX_BLOCKS) && (s.MidOf? ==> s.i < ADDRS)
  }

  /** Slots that stand in an address block, with the slot holding that block and the entry. */
  predicate IsEntry(s: Slot) { s.MidOf? || (s.Data? && s.n >= DIRECT) }

  function Parent(s: Slot): Slot
    requires IsEntry(s)
  {
    if s.MidOf? then DoubleOf(s.f)
    else if s.n < DIRECT + ADDRS then SingleOf(s.f)
    else MidOf(s.f, (s.n - DIRECT - ADDRS) / ADDRS)
  }

  function Entry(s: Slot): nat
    requires IsEntry(s)
  {
    if s.MidOf? then s.i
    else if s.n < DIRECT + ADDRS then s.n - DIRECT
    else (s.n - DIRECT - ADDRS) % ADDRS
  }

  function Rank(s: Slot): nat { if s.Data? then 2 else if s.MidOf? then 1 else 0 }

  /** The block a slot holds; 0 is NULL. */
  function Holds(v: Vol, s: Slot): nat
    requires Shape(v) && ValidSlot(v, s)
    decreases Rank(s)
  {
    var n := v.inodes[s.f];
    if IsEntry(s) then
      var b := Holds(v, Parent(s));
      if b == 0 then 0 else Addr(At(v, b), Entry(s))
    else if s.Data? then n.direct[s.n]
    else if s.SingleOf? then n.single
    else if s.DoubleOf? then n.double
    else n.adr
  }

  predicate Legal(v: Vol, s: Slot, b: nat) {
    b < |v.disk| && IsUsed(v, b) && (b >= FirstData(v) || (s.InodeOf? && b == ROOT_INODE_BLOCK))
  }

  ghost predicate AllLegal(v: Vol)
    requires Shape(v)
  {
    && (forall s :: ValidSlot(v, s) && Holds(v, s) != 0 ==> Legal(v, s, Holds(v, s)))
    && (forall f :: 0 <= f < |v.inodes| ==> v.inodes[f].adr != 0)
    && (forall b :: 0 <= b < FirstData(v) ==> IsUsed(v, b))
  }

  ghost predicate Distinct(v: Vol)
    requires Shape(v)
  {
    forall s, t :: ValidSlot(v, s) && ValidSlot(v, t) && s != t && Holds(v, s) != 0 ==> Holds(v, s) != Holds(v, t)
  }

  /** The saved bitmap is the bitmap in memory. */
  ghost predicate BitmapSaved(v: Vol)
    requires Shape(v)
  {
    forall k :: 0 <= k < v.mapBlocks ==> At(v, FIRST_BMAP_BLOCK + k) == BitmapBlock(v.bmap, k)
  }

  ghost predicate Own(v: Vol): (r: bool)
    ensures r ==> Shape(v)
  {
    Shape(v) && AllLegal(v) && Distinct(v) && BitmapSaved(v)
  }

  // ---- marking and clearing ----

  lemma MarkSetsOneBit(v: Vol, b: nat, flag: bool, c: nat)
    requires Shape(v) && b < |v.disk| && c / 8 < |v.bmap|
    ensures IsUsed(Mark(v, b, flag), c) == if c == b then flag else IsUsed(v, c)
  {
    if c / 8 == b / 8 {
      MarkByteSetsOneBit(v.bmap[b / 8], b % 8, flag, c % 8);
    }
  }

  lemma MarkFrame(v: Vol, b: nat, flag: bool, c: nat)
    requires Shape(v) && b < |v.disk|
    ensures Shape(Mark(v, b, flag))
    ensures Mark(v, b, flag).inodes == v.inodes && |Mark(v, b, flag).disk| == |v.disk|
        && FirstData(Mark(v, b, flag)) == FirstData(v)
    ensures c < FIRST_BMAP_BLOCK || c >= FirstData(v) ==> At(Mark(v, b, flag), c) == At(v, c)
  {
  }

  lemma MarkSavesBitmap(v: Vol, b: nat, flag: bool)
    requires Shape(v) && BitmapSaved(v) && b < |v.disk|
    ensures BitmapSaved(Mark(v, b, flag))
  {
    var w := Mark(v, b, flag);
    forall k | 0 <= k < v.mapBlocks ensures At(w, FIRST_BMAP_BLOCK + k) == BitmapBlock(w.bmap, k) {
      if k != b / 8 / BLOCK_SIZE {
        forall i | 0 <= i < BLOCK_SIZE ensures MapByte(w.bmap, k, i) == MapByte(v.bmap, k, i) {
          assert (BLOCK_SIZE * k + i) / BLOCK_SIZE == k;
        }
        assert BitmapBlock(w.bmap, k) == BitmapBlock(v.bmap, k);
      }
    }
  }

  /** Slots only depend on the inode's pointers and on the address blocks they lead through. */
  lemma HoldsFrame(v: Vol, w: Vol, s: Slot)
    requires Shape(v) && Shape(w) && ValidSlot(v, s) && |w.inodes| == |v.inodes|
    requires w.inodes[s.f].(size := 0, stamps := []) == v.inodes[s.f].(size := 0, stamps := [])
    requires forall p :: ValidSlot(v, p) && p.f == s.f && !p.Data? && !p.InodeOf? && Holds(v, p) != 0 ==>
               At(w, Holds(v, p)) == At(v, Holds(v, p))
    ensures Holds(w, s) == Holds(v, s)
    decreases Rank(s)
  {
    if IsEntry(s) {
      HoldsFrame(v, w, Parent(s));
    }
  }

  /** A freshly allocated and cleared block that no slot holds yet. */
  ghost predicate Loose(v: Vol, b: nat)
    requires Shape(v)
  {
    && FirstData(v) <= b < |v.disk| && IsUsed(v, b) && At(v, b) == Zeros()
    && forall s :: ValidSlot(v, s) ==> Holds(v, s) != b
  }

  /** What enlarge_file does to blocks and to the bitmap. */
  lemma EnlargeBlocks(v: Vol, start: nat)
    requires Shape(v) && AllLegal(v) && BitmapSaved(v) && Enlarge(v, start).Some?
    ensures var (w, b) := Enlarge(v, start).value;
            && Shape(w) && BitmapSaved(w)
            && FirstData(v) <= b < |v.disk| && At(w, b) == Zeros()
            && w.inodes == v.inodes && |w.disk| == |v.disk| && FirstData(w) == FirstData(v)
            && start <= b && !IsUsed(v, b)
            && (forall c: nat :: c < |v.disk| ==> IsUsed(w, c) == (c == b || IsUsed(v, c)))
            && (forall c: nat :: (c < FIRST_BMAP_BLOCK || c >= FirstData(v)) && c != b ==> At(w, c) == At(v, c))
  {
    var (w, b) := Enlarge(v, start).value;
    MarkFrame(v, b, true, 0);
    forall c: nat | (c < FIRST_BMAP_BLOCK || c >= FirstData(v)) && c != b ensures At(w, c) == At(v, c) {
      MarkFrame(v, b, true, c);
    }
    forall c: nat | c < |v.disk| ensures IsUsed(w, c) == (c == b || IsUsed(v, c)) {
      MarkSetsOneBit(v, b, true, c);
    }
    MarkSavesBitmap(v, b, true);
  }

  /** enlarge_file takes a block that was free, marks and clears it, and disturbs no slot. */
  lemma EnlargeTakesFreeBlock(v: Vol, start: nat)
    requires Own(v) && Enlarge(v, start).Some?
    ensures var (w, b) := Enlarge(v, start).value;
            && Own(w) && Loose(w, b)
            && (forall s :: ValidSlot(v, s) ==> Holds(w, s) == Holds(v, s))
  {
    EnlargeBlocks(v, start);
    hide Enlarge;
    var (w, b) := Enlarge(v, start).value;
    forall s | ValidSlot(v, s) ensures Holds(w, s) == Holds(v, s) && Holds(w, s) != b {
      HoldsFrame(v, w, s);
    }
    forall s | ValidSlot(w, s) && Holds(w, s) != 0 ensures Legal(w, s, Holds(w, s)) {
      assert Legal(v, s, Holds(v, s));
    }
  }

  // ---- attaching a loose block to a slot ----

  /** w is v with block b put into the empty slot t. */
  ghost predicate Attached(v: Vol, w: Vol, t: Slot, b: nat)
    requires Shape(v) && Shape(w) && |w.inodes| == |v.inodes| && ValidSlot(v, t)
  {
    forall s :: ValidSlot(v, s) ==> Holds(w, s) == if s == t then b else Holds(v, s)
  }

  /** What every step of growing a file leaves alone: the bitmap and its saved copy, and all blocks but `parent`. */
  ghost predicate OnlyBlock(v: Vol, w: Vol, parent: nat)
    requires Shape(v) && Shape(w)
  {
    && w.bmap == v.bmap && w.mapBlocks == v.mapBlocks && |w.disk| == |v.disk|
    && forall c: nat :: c != parent ==> At(w, c) == At(v, c)
  }

  lemma AttachedIsOwned(v: Vol, w: Vol, t: Slot, b: nat, parent: nat)
    requires Own(v) && Loose(v, b) && Shape(w) && |w.inodes| == |v.inodes| && ValidSlot(v, t) && !t.InodeOf?
    requires Attached(v, w, t, b) && OnlyBlock(v, w, parent) && (parent == 0 || parent >= FirstData(v))
    requires forall f :: 0 <= f < |v.inodes| ==> w.inodes[f].adr == v.inodes[f].adr
    ensures Own(w)
  {
    hide Holds;
    forall s | ValidSlot(w, s) && Holds(w, s) != 0 ensures Legal(w, s, Holds(w, s)) {
      if s != t {
        assert Legal(v, s, Holds(v, s));
      }
    }
    forall c | 0 <= c < FirstData(w) ensures IsUsed(w, c) {
      assert IsUsed(v, c);
    }
    forall s, q | ValidSlot(w, s) && ValidSlot(w, q) && s != q && Holds(w, s) != 0 ensures Holds(w, s) != Holds(w, q) {
      assert Holds(v, s) != b && Holds(v, q) != b;
    }
  }

  function PtrSlot(f: nat, p: Ptr): Slot {
    match p case DirectPtr(i) => Data(f, i) case SinglePtr => SingleOf(f) case DoublePtr => DoubleOf(f)
  }

  /** Filling an empty pointer of an inode fills that slot and no other. */
  lemma PtrAttaches(v: Vol, f: nat, p: Ptr, b: nat, s: Slot)
    requires Own(v) && Loose(v, b) && f < |v.inodes| && IsPtr(p) && GetPtr(v.inodes[f], p) == 0 && ValidSlot(v, s)
    ensures b < WORD && Shape(SetInode(v, f, SetPtr(v.inodes[f], p, b)))
    ensures Holds(SetInode(v, f, SetPtr(v.inodes[f], p, b)), s) == if s == PtrSlot(f, p) then b else Holds(v, s)
    decreases Rank(s)
  {
    hide BitmapSaved, IsUsed, AddrBlock, InodeBlock, BitSet;
    var w := SetInode(v, f, SetPtr(v.inodes[f], p, b));
    if IsEntry(s) {
      PtrAttaches(v, f, p, b, Parent(s));
      ZerosHoldNoAddress(Entry(s));
    }
  }

  /** Filling an empty entry of an address block fills that slot and no other. */
  lemma EntryAttaches(v: Vol, parent: Slot, k: nat, t: Slot, b: nat, s: Slot)
    requires Own(v) && Loose(v, b) && ValidSlot(v, t) && IsEntry(t) && Parent(t) == parent && Entry(t) == k
    requires Holds(v, parent) != 0 && Holds(v, t) == 0 && ValidSlot(v, s)
    ensures ValidSlot(v, parent) && b < WORD
    ensures var pb := Holds(v, parent);
            var w := Put(v, pb, AddrBlock(Addrs(At(v, pb))[k := b]));
            Shape(w) && Holds(w, s) == if s == t then b else Holds(v, s)
    decreases Rank(s)
  {
    hide BitmapSaved, IsUsed, InodeBlock, BitSet, AddrBlock;
    var pb := Holds(v, parent);
    assert Legal(v, parent, pb);
    if IsEntry(s) {
      EntryAttaches(v, parent, k, t, b, Parent(s));
      if Parent(s) == t {
        ZerosHoldNoAddress(Entry(s));
      } else if Parent(s) == parent {
        AddrUpdated(At(v, pb), k, b, Entry(s));
        SameEntrySameSlot(s, t);
      }
    }
  }

  lemma SameEntrySameSlot(s: Slot, t: Slot)
    requires IsEntry(s) && IsEntry(t) && Parent(s) == Parent(t)
    requires (s.Data? ==> s.n < MAX_BLOCKS) && (t.Data? ==> t.n < MAX_BLOCKS)
    ensures s == t <==> Entry(s) == Entry(t)
  {
  }
}
