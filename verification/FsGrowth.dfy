/** Growing a file block by block: only free blocks are taken, and every other pointer and every data block stays. */
module FsGrowth {
  import opened Bytes
  import opened Options
  import opened FsLayout
  import opened FsVolume
  import opened FsOwnership

  /** The same volume up to block contents, bitmap and the pointers of inodes. */
  predicate SameFrame(v: Vol, w: Vol) {
    && |w.inodes| == |v.inodes| && |w.disk| == |v.disk| && w.mapBlocks == v.mapBlocks
    && forall g :: 0 <= g < |v.inodes| ==>
         w.inodes[g] == v.inodes[g].(direct := w.inodes[g].direct, single := w.inodes[g].single,
             double := w.inodes[g].double)
  }

  ghost predicate DataKept(v: Vol, w: Vol)
    requires Shape(v)
  {
    forall s :: ValidSlot(v, s) && s.Data? && Holds(v, s) != 0 ==> At(w, Holds(v, s)) == At(v, Holds(v, s))
  }

  ghost predicate InodeBlocksKept(v: Vol, w: Vol) {
    forall g :: 0 <= g < |v.inodes| ==> At(w, v.inodes[g].adr) == At(v, v.inodes[g].adr)
  }

  /** Slot t holds b now; it held b before, or nothing and b was a free block. Nothing else has changed. */
  ghost predicate Grown(v: Vol, w: Vol, t: Slot, b: nat)
    requires Shape(v)
  {
    && SameFrame(v, w) && Own(w)
    && ValidSlot(v, t) && b != 0 && Holds(w, t) == b
    && (forall s :: ValidSlot(v, s) && s != t ==> Holds(w, s) == Holds(v, s))
    && (if Holds(v, t) != 0 then Holds(v, t) == b else !IsUsed(v, b) && At(w, b) == Zeros())
    && (forall c: nat :: c < |v.disk| ==> IsUsed(w, c) == (IsUsed(v, c) || c == b))
    && DataKept(v, w) && InodeBlocksKept(v, w)
    && (forall g :: 0 <= g < |v.inodes| && g != t.f ==> w.inodes[g] == v.inodes[g])
  }

  lemma GrownIdle(v: Vol, t: Slot)
    requires Own(v) && ValidSlot(v, t) && Holds(v, t) != 0
    ensures Grown(v, v, t, Holds(v, t))
  {
    assert Legal(v, t, Holds(v, t));
  }

  /** parent is no block, or an address block: never a data or inode block. */
  ghost predicate AddressBlock(v: Vol, parent: nat)
    requires Shape(v)
  {
    parent == 0 || exists p :: ValidSlot(v, p) && !p.Data? && !p.InodeOf? && Holds(v, p) == parent
  }

  lemma OtherBlocksStay(v: Vol, u: Vol, w: Vol, b: nat, parent: nat, start: nat)
    requires Own(v) && Enlarge(v, start) == Some((u, b)) && Shape(w) && Shape(u)
    requires OnlyBlock(u, w, parent) && AddressBlock(v, parent)
    ensures DataKept(v, w) && InodeBlocksKept(v, w)
  {
    EnlargeBlocks(v, start);
    hide Enlarge, Holds, FirstFree;
    forall s | ValidSlot(v, s) && s.Data? && Holds(v, s) != 0 ensures At(w, Holds(v, s)) == At(v, Holds(v, s)) {
      assert Legal(v, s, Holds(v, s));
    }
    forall g | 0 <= g < |v.inodes| ensures At(w, v.inodes[g].adr) == At(v, v.inodes[g].adr) {
      InodeBlockIsApart(v, g, parent, b);
    }
  }

  /** What EnlargeTakesFreeBlock and an attaching write add up to. */
  lemma AttachGrows(v: Vol, u: Vol, w: Vol, t: Slot, b: nat, parent: nat, start: nat)
    requires Own(v) && Enlarge(v, start) == Some((u, b)) && ValidSlot(v, t) && !t.InodeOf? && Holds(v, t) == 0
    requires Own(u) && Loose(u, b) && Shape(w) && SameFrame(u, w)
    requires forall s :: ValidSlot(v, s) ==> Holds(u, s) == Holds(v, s)
    requires Attached(u, w, t, b) && OnlyBlock(u, w, parent) && AddressBlock(v, parent)
    requires forall g :: 0 <= g < |v.inodes| && g != t.f ==> w.inodes[g] == u.inodes[g]
    ensures Grown(v, w, t, b)
  {
    hide Own, AllLegal, Distinct, BitmapSaved, Enlarge, FirstFree, Holds, DataKept, InodeBlocksKept, AddressBlock,
         IsUsed;
    assert BitmapSaved(v) && AllLegal(v) by { OwnParts(v); }
    EnlargeBlocks(v, start);
    OtherBlocksStay(v, u, w, b, parent, start);
    ParentIsOutside(v, parent);
    AttachedIsOwned(u, w, t, b, parent);
    forall c: nat | c < |v.disk| ensures IsUsed(w, c) == (IsUsed(v, c) || c == b) {
      SameBitmap(u, w, c);
    }
    assert At(w, b) == Zeros() by { assert parent != b; }
  }

  lemma OwnParts(v: Vol)
    requires Own(v)
    ensures Shape(v) && AllLegal(v) && Distinct(v) && BitmapSaved(v)
  {
  }

  lemma SameBitmap(u: Vol, w: Vol, c: nat)
    requires w.bmap == u.bmap
    ensures IsUsed(w, c) == IsUsed(u, c)
  {
  }

  lemma ParentIsOutside(v: Vol, parent: nat)
    requires Own(v) && AddressBlock(v, parent)
    ensures parent == 0 || (parent >= FirstData(v) && IsUsed(v, parent))
  {
    if parent != 0 {
      var p :| ValidSlot(v, p) && !p.Data? && !p.InodeOf? && Holds(v, p) == parent;
      assert Legal(v, p, parent);
    }
  }

  lemma InodeBlockIsApart(v: Vol, g: nat, parent: nat, b: nat)
    requires Own(v) && g < |v.inodes| && !IsUsed(v, b)
    requires AddressBlock(v, parent)
    ensures var a := v.inodes[g].adr;
            a != 0 && a != parent && a != b && (a < FIRST_BMAP_BLOCK || a >= FirstData(v))
  {
    assert Holds(v, InodeOf(g)) == v.inodes[g].adr;
    assert Legal(v, InodeOf(g), v.inodes[g].adr);
  }

  lemma EnsurePtrGrows(v: Vol, f: nat, p: Ptr, allow: bool)
    requires Own(v) && f < |v.inodes| && IsPtr(p)
    ensures var r, t := EnsurePtr(v, f, p, allow), PtrSlot(f, p);
            && (r.Found? ==> Grown(v, r.v, t, r.block) && (!allow ==> r.v == v))
            && (Holds(v, t) != 0 ==> r == Found(v, Holds(v, t)))
            && (r.Missing? <==> Holds(v, t) == 0 && !allow)
  {
    var r, t := EnsurePtr(v, f, p, allow), PtrSlot(f, p);
    assert Holds(v, t) == GetPtr(v.inodes[f], p);
    if Holds(v, t) != 0 {
      GrownIdle(v, t);
    } else if r.Found? {
      PtrGrows(v, f, p, v.inodes[f].adr);
    }
  }

  lemma PtrGrows(v: Vol, f: nat, p: Ptr, start: nat)
    requires Own(v) && f < |v.inodes| && IsPtr(p) && GetPtr(v.inodes[f], p) == 0 && Holds(v, PtrSlot(f, p)) == 0
    requires Enlarge(v, start).Some?
    ensures var (u, b) := Enlarge(v, start).value;
            && f < |u.inodes| && IsInode(u.inodes[f])
            && Grown(v, SetInode(u, f, SetPtr(u.inodes[f], p, b)), PtrSlot(f, p), b)
  {
    hide Enlarge, FirstFree, Own, AllLegal, Distinct, BitmapSaved, Grown, IsUsed, Holds;
    OwnParts(v);
    EnlargeTakesFreeBlock(v, start);
    EnlargeBlocks(v, start);
    var (u, b) := Enlarge(v, start).value;
    PtrAttached(u, f, p, b);
    AttachGrows(v, u, SetInode(u, f, SetPtr(u.inodes[f], p, b)), PtrSlot(f, p), b, 0, start);
  }

  lemma PtrAttached(u: Vol, f: nat, p: Ptr, b: nat)
    requires Own(u) && Loose(u, b) && f < |u.inodes| && IsPtr(p) && GetPtr(u.inodes[f], p) == 0
    ensures var w := SetInode(u, f, SetPtr(u.inodes[f], p, b));
            && Shape(w) && SameFrame(u, w) && Attached(u, w, PtrSlot(f, p), b) && OnlyBlock(u, w, 0)
  {
    PtrAttaches(u, f, p, b, InodeOf(f));
    hide Own, Holds;
    var w := SetInode(u, f, SetPtr(u.inodes[f], p, b));
    forall s | ValidSlot(u, s) ensures Holds(w, s) == if s == PtrSlot(f, p) then b else Holds(u, s) {
      PtrAttaches(u, f, p, b, s);
    }
  }

  lemma EnsureEntryGrows(v: Vol, parent: Slot, t: Slot, start: nat, allow: bool)
    requires Own(v) && ValidSlot(v, t) && IsEntry(t) && Parent(t) == parent && Holds(v, parent) != 0
    ensures var r := EnsureEntry(v, Holds(v, parent), Entry(t), start, allow);
            && (r.Found? ==> Grown(v, r.v, t, r.block) && (!allow ==> r.v == v))
            && (Holds(v, t) != 0 ==> r == Found(v, Holds(v, t)))
            && (r.Missing? <==> Holds(v, t) == 0 && !allow)
  {
    var pb, k := Holds(v, parent), Entry(t);
    var r := EnsureEntry(v, pb, k, start, allow);
    assert Legal(v, parent, pb);
    assert Holds(v, t) == Addrs(At(v, pb))[k];
    if Holds(v, t) != 0 {
      GrownIdle(v, t);
    } else if r.Found? {
      EntryGrows(v, parent, t, start);
    }
  }

  lemma EntryGrows(v: Vol, parent: Slot, t: Slot, start: nat)
    requires Own(v) && ValidSlot(v, t) && IsEntry(t) && Parent(t) == parent && Holds(v, parent) != 0
    requires Holds(v, t) == 0 && Enlarge(v, start).Some?
    ensures var ((u, b), pb) := (Enlarge(v, start).value, Holds(v, parent));
            && b < WORD && Grown(v, Put(u, pb, AddrBlock(Addrs(At(v, pb))[Entry(t) := b])), t, b)
  {
    hide Enlarge, FirstFree, Own, AllLegal, Distinct, BitmapSaved, Grown, Attached, SameFrame, IsUsed, AddrBlock,
         Addrs, Holds;
    OwnParts(v);
    EnlargeTakesFreeBlock(v, start);
    EnlargeBlocks(v, start);
    var (u, b) := Enlarge(v, start).value;
    var pb := Holds(v, parent);
    ParentIsOutside(v, pb);
    assert At(u, pb) == At(v, pb);
    EntryAttached(u, parent, t, b);
    AttachGrows(v, u, Put(u, pb, AddrBlock(Addrs(At(u, pb))[Entry(t) := b])), t, b, pb, start);
  }

  lemma EntryAttached(u: Vol, parent: Slot, t: Slot, b: nat)
    requires Own(u) && Loose(u, b) && ValidSlot(u, t) && IsEntry(t) && Parent(t) == parent
    requires Holds(u, parent) != 0 && Holds(u, t) == 0
    ensures b < WORD
    ensures var pb := Holds(u, parent);
            var w := Put(u, pb, AddrBlock(Addrs(At(u, pb))[Entry(t) := b]));
            Shape(w) && SameFrame(u, w) && w.inodes == u.inodes && Attached(u, w, t, b) && OnlyBlock(u, w, pb)
  {
    hide Own, Holds;
    EntryAttaches(u, parent, Entry(t), t, b, t);
    var pb := Holds(u, parent);
    var w := Put(u, pb, AddrBlock(Addrs(At(u, pb))[Entry(t) := b]));
    forall s | ValidSlot(u, s) ensures Holds(w, s) == if s == t then b else Holds(u, s) {
      EntryAttaches(u, parent, Entry(t), t, b, s);
    }
  }
}
