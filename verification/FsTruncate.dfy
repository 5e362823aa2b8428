/** Shrinking a file with fs_truncate: which blocks are freed and which stay, and exactly when none is lost. */
module FsTruncate {
  import opened Bytes
  import opened Options
  import opened FsLayout
  import opened FsVolume
  import opened FsOwnership
  import opened FsGrowth
  import opened FsLookup
  import opened FsFiles

  // ---- the operation ----

  function Unmark(v: Vol, b: nat): (r: Vol)
    requires Shape(v)
    ensures Shape(r) && r.inodes == v.inodes
  {
    if b < |v.disk| then Mark(v, b, false) else v
  }

  function WithPtr(v: Vol, f: nat, p: Ptr, b: nat): (r: Vol)
    requires Shape(v) && f < |v.inodes| && IsPtr(p) && b < WORD
    ensures Shape(r) && |r.inodes| == |v.inodes|
  {
    SetInode(v, f, SetPtr(v.inodes[f], p, b))
  }

  /** The loop over the direct pointers. */
  function FreeDirect(v: Vol, f: nat, i: nat): (r: Vol)
    requires Shape(v) && f < |v.inodes|
    ensures Shape(r) && |r.inodes| == |v.inodes|
    decreases DIRECT - i
  {
    if i >= DIRECT then v
    else
      var n := v.inodes[f];
      var v1 := if n.direct[i] != 0 then WithPtr(Unmark(v, n.direct[i]), f, DirectPtr(i), 0) else v;
      FreeDirect(v1, f, i + 1)
  }

  /** The loop of shrink_file over the entries of an address block. */
  function FreeEntries(v: Vol, addrs: seq<nat>, i: nat): (r: Vol)
    requires Shape(v) && IsAddrs(addrs)
    ensures Shape(r) && r.inodes == v.inodes
    decreases ADDRS - i
  {
    if i >= ADDRS then v
    else FreeEntries(if addrs[i] != 0 then Unmark(v, addrs[i]) else v, addrs, i + 1)
  }

  /** The first k addresses; the others NULL. */
  function Cut(addrs: seq<nat>, k: nat): (r: seq<nat>)
    requires IsAddrs(addrs) && k <= ADDRS
    ensures IsAddrs(r)
  {
    seq(ADDRS, i requires 0 <= i < ADDRS => if i < k then addrs[i] else 0)
  }

  /** shrink_file: the volume, and what the pointer to the address block becomes. */
  function Shrink(v: Vol, b: nat, start: nat): (r: (Vol, nat))
    requires Shape(v)
    ensures Shape(r.0) && r.0.inodes == v.inodes && (r.1 == b || r.1 == 0)
  {
    if start >= ADDRS then (v, b)
    else
      var addrs := Addrs(At(v, b));
      var v1 := FreeEntries(v, addrs, start);
      if start != 0 then (Put(v1, b, AddrBlock(Cut(addrs, start))), b) else (Unmark(v1, b), 0)
  }

  /** The first entry of address block k of the double indirect block that is to be freed. */
  function FirstEntry(start: nat, k: nat): nat {
    var e := start - DIRECT - (k + 1) * ADDRS;
    if e < 0 then 0 else e
  }

  /** The loop over the address blocks of the double indirect block; it ends at the first NULL. */
  function FreeMids(v: Vol, addrs: seq<nat>, k: nat, start: nat): (r: (Vol, seq<nat>))
    requires Shape(v) && IsAddrs(addrs)
    ensures Shape(r.0) && r.0.inodes == v.inodes && IsAddrs(r.1)
    decreases ADDRS - k
  {
    if k >= ADDRS || addrs[k] == 0 then (v, addrs)
    else
      var (v1, b) := Shrink(v, addrs[k], FirstEntry(start, k));
      FreeMids(v1, addrs[k := b], k + 1, start)
  }

  function FirstMid(start: nat): nat {
    if start < DIRECT + ADDRS then 0 else (start - DIRECT - ADDRS) / ADDRS
  }

  function FreeSingle(v: Vol, f: nat, start: nat): (r: Vol)
    requires Shape(v) && f < |v.inodes|
    ensures Shape(r) && |r.inodes| == |v.inodes|
  {
    var sip := v.inodes[f].single;
    if sip != 0 && start < DIRECT + ADDRS then
      var (v1, b) := Shrink(v, sip, if start < DIRECT then 0 else start - DIRECT);
      WithPtr(v1, f, SinglePtr, b)
    else v
  }

  function FreeDouble(v: Vol, f: nat, start: nat): (r: Vol)
    requires Shape(v) && f < |v.inodes|
    ensures Shape(r) && |r.inodes| == |v.inodes|
  {
    var dip := v.inodes[f].double;
    if dip == 0 then v
    else
      var (v1, addrs) := FreeMids(v, Addrs(At(v, dip)), FirstMid(start), start);
      if start < DIRECT + ADDRS then WithPtr(Unmark(v1, dip), f, DoublePtr, 0)
      else Put(v1, dip, AddrBlock(addrs))
  }

  /** The number of blocks that size bytes take. */
  function BlocksFor(size: nat): nat { (size + BLOCK_SIZE - 1) / BLOCK_SIZE }

  function FreeAll(v: Vol, f: nat, start: nat): (r: Vol)
    requires Shape(v) && f < |v.inodes|
    ensures Shape(r) && |r.inodes| == |v.inodes|
  {
    FreeDouble(FreeSingle(FreeDirect(v, f, start), f, start), f, start)
  }

  /** fs_truncate on the inode itself, to a size not beyond the present one. */
  function TruncateTo(v: Vol, f: nat, size: nat): (r: Vol)
    requires Shape(v) && f < |v.inodes| && size <= v.inodes[f].size
    ensures Shape(r) && |r.inodes| == |v.inodes|
  {
    var start := BlocksFor(size);
    var v1 := if size < v.inodes[f].size then FreeAll(v, f, start) else v;
    SaveInode(SetInode(v1, f, v1.inodes[f].(size := size)), f)
  }

  // ---- what each stage frees ----

  /** From v to u the blocks of the slots in `dropped` were marked free, and no other. */
  ghost predicate Stage(v: Vol, u: Vol, dropped: set<Slot>): (r: bool)
    requires Shape(v) && forall t :: t in dropped ==> ValidSlot(v, t)
    ensures r ==> Shape(u) && |u.inodes| == |v.inodes| && u.mapBlocks == v.mapBlocks && |u.disk| == |v.disk|
  {
    && Shape(u) && BitmapSaved(u) && u.mapBlocks == v.mapBlocks && |u.disk| == |v.disk| && |u.inodes| == |v.inodes|
    && (forall c: nat :: c < |v.disk| ==>
          (IsUsed(u, c) <==> IsUsed(v, c) && (c == 0 || forall t :: t in dropped ==> Holds(v, t) != c)))
  }

  /** Outside the bitmap no block but those in `written` was written. */
  ghost predicate OnlyWritten(u: Vol, w: Vol, written: set<nat>) {
    && w.mapBlocks == u.mapBlocks
    && forall c: nat :: (c < FIRST_BMAP_BLOCK || c >= FirstData(u)) && c !in written ==> At(w, c) == At(u, c)
  }

  lemma StageStarts(v: Vol)
    requires Own(v)
    ensures Stage(v, v, {})
  {
  }

  lemma SlotIsData(v: Vol, t: Slot)
    requires Own(v) && ValidSlot(v, t) && !t.InodeOf? && Holds(v, t) != 0
    ensures FirstData(v) <= Holds(v, t) < |v.disk|
  {
    assert Legal(v, t, Holds(v, t));
  }

  /** Freeing the block of one more slot. */
  lemma StageUnmark(v: Vol, u: Vol, dropped: set<Slot>, t: Slot)
    requires Own(v) && ValidSlot(v, t) && !t.InodeOf? && (forall s :: s in dropped ==> ValidSlot(v, s))
    requires Stage(v, u, dropped)
    ensures var w := if Holds(v, t) != 0 then Unmark(u, Holds(v, t)) else u;
            Stage(v, w, dropped + {t}) && OnlyWritten(u, w, {}) && w.inodes == u.inodes
  {
    hide Holds;
    var b := Holds(v, t);
    if b != 0 {
      SlotIsData(v, t);
      var w := Unmark(u, b);
      MarkSavesBitmap(u, b, false);
      forall c: nat | c < |v.disk| ensures IsUsed(w, c) == (c != b && IsUsed(u, c)) {
        MarkSetsOneBit(u, b, false, c);
      }
      forall c: nat | c < FIRST_BMAP_BLOCK || c >= FirstData(v) ensures At(w, c) == At(u, c) {
        MarkFrame(u, b, false, c);
      }
    }
  }

  /** Writing an address block. */
  lemma StagePut(v: Vol, u: Vol, dropped: set<Slot>, b: nat, content: Block)
    requires Shape(v) && (forall s :: s in dropped ==> ValidSlot(v, s)) && Stage(v, u, dropped)
    requires FirstData(v) <= b < |v.disk|
    ensures var w := Put(u, b, content);
            Stage(v, w, dropped) && OnlyWritten(u, w, {b}) && At(w, b) == content
  {
    hide Holds;
    var w := Put(u, b, content);
    forall c: nat ensures IsUsed(w, c) == IsUsed(u, c) {
    }
  }

  lemma StageSetsPtr(v: Vol, u: Vol, dropped: set<Slot>, f: nat, p: Ptr, b: nat)
    requires Shape(v) && (forall s :: s in dropped ==> ValidSlot(v, s)) && Stage(v, u, dropped)
    requires f < |v.inodes| && IsPtr(p) && b < WORD
    ensures Stage(v, WithPtr(u, f, p, b), dropped) && OnlyWritten(u, WithPtr(u, f, p, b), {})
  {
    hide Holds;
    var w := WithPtr(u, f, p, b);
    forall c: nat ensures IsUsed(w, c) == IsUsed(u, c) {
    }
  }

  lemma OnlyWrittenTwice(u: Vol, w: Vol, x: Vol, a: set<nat>, b: set<nat>)
    requires OnlyWritten(u, w, a) && OnlyWritten(w, x, b)
    ensures OnlyWritten(u, x, a + b)
  {
  }

  function Child(p: Slot, k: nat): Slot
    requires p.SingleOf? || p.DoubleOf? || p.MidOf?
  {
    match p
    case SingleOf(f) => Data(f, DIRECT + k)
    case DoubleOf(f) => MidOf(f, k)
    case MidOf(f, i) => Data(f, DIRECT + ADDRS + ADDRS * i + k)
  }

  predicate IsAddrSlot(v: Vol, p: Slot) { ValidSlot(v, p) && (p.SingleOf? || p.MidOf?) }

  lemma ChildHolds(v: Vol, p: Slot, k: nat)
    requires Shape(v) && ValidSlot(v, p) && (p.SingleOf? || p.MidOf? || p.DoubleOf?) && k < ADDRS
    ensures var c := Child(p, k); ValidSlot(v, c) && IsEntry(c) && Parent(c) == p && Entry(c) == k
    ensures Holds(v, Child(p, k)) == if Holds(v, p) == 0 then 0 else Addrs(At(v, Holds(v, p)))[k]
  {
  }

  function Children(p: Slot, from: nat): set<Slot>
    requires p.SingleOf? || p.DoubleOf? || p.MidOf?
  {
    set k | from <= k < ADDRS :: Child(p, k)
  }

  lemma {:induction false} EntriesFreed(v: Vol, u: Vol, dropped: set<Slot>, p: Slot, i: nat)
    requires Own(v) && IsAddrSlot(v, p) && Holds(v, p) != 0 && (forall s :: s in dropped ==> ValidSlot(v, s))
    requires Stage(v, u, dropped)
    ensures forall s :: s in Children(p, i) ==> ValidSlot(v, s)
    ensures var w := FreeEntries(u, Addrs(At(v, Holds(v, p))), i);
            Stage(v, w, dropped + Children(p, i)) && OnlyWritten(u, w, {})
    decreases ADDRS - i
  {
    hide Own, Stage, Holds, At;
    if i < ADDRS {
      ChildHolds(v, p, i);
      var t := Child(p, i);
      StageUnmark(v, u, dropped, t);
      var u1 := if Holds(v, t) != 0 then Unmark(u, Holds(v, t)) else u;
      EntriesFreed(v, u1, dropped + {t}, p, i + 1);
      OnlyWrittenTwice(u, u1, FreeEntries(u1, Addrs(At(v, Holds(v, p))), i + 1), {}, {});
      assert dropped + {t} + Children(p, i + 1) == dropped + Children(p, i);
    } else {
      assert dropped + Children(p, i) == dropped;
    }
  }

  /** What shrink_file frees of address block p, from entry `start` on: those entries, and with start 0 the block. */
  function ShrinkDrops(p: Slot, start: nat): set<Slot>
    requires p.SingleOf? || p.MidOf?
  {
    Children(p, start) + (if start == 0 then {p} else {})
  }

  lemma ShrinkFrees(v: Vol, u: Vol, dropped: set<Slot>, p: Slot, start: nat)
    requires Own(v) && IsAddrSlot(v, p) && Holds(v, p) != 0 && (forall s :: s in dropped ==> ValidSlot(v, s))
    requires Stage(v, u, dropped) && start < ADDRS && At(u, Holds(v, p)) == At(v, Holds(v, p))
    ensures forall s :: s in ShrinkDrops(p, start) ==> ValidSlot(v, s)
    ensures var b := Holds(v, p);
            var (w, nb) := Shrink(u, b, start);
            && Stage(v, w, dropped + ShrinkDrops(p, start)) && OnlyWritten(u, w, {b})
            && w.inodes == u.inodes && nb == (if start == 0 then 0 else b)
            && (start != 0 ==> At(w, b) == AddrBlock(Cut(Addrs(At(v, b)), start)))
  {
    hide Own, Stage, Holds, At, AddrBlock, Cut, Addrs;
    var b := Holds(v, p);
    SlotIsData(v, p);
    EntriesFreed(v, u, dropped, p, start);
    var addrs := Addrs(At(v, b));
    var u1 := FreeEntries(u, addrs, start);
    var d1 := dropped + Children(p, start);
    if start != 0 {
      StagePut(v, u1, d1, b, AddrBlock(Cut(addrs, start)));
      assert d1 == dropped + ShrinkDrops(p, start);
      OnlyWrittenTwice(u, u1, Put(u1, b, AddrBlock(Cut(addrs, start))), {}, {b});
    } else {
      StageUnmark(v, u1, d1, p);
      assert d1 + {p} == dropped + ShrinkDrops(p, start);
      OnlyWrittenTwice(u, u1, Unmark(u1, b), {}, {});
    }
  }

  // ---- the direct pointers ----

  function DirectDrops(f: nat, i: nat): set<Slot> {
    set k: nat | i <= k < DIRECT :: Data(f, k)
  }

  function CutDirect(n: Inode, i: nat): (r: Inode)
    requires IsInode(n)
    ensures IsInode(r)
  {
    n.(direct := seq(DIRECT, k requires 0 <= k < DIRECT => if k < i then n.direct[k] else 0))
  }

  lemma {:induction false} DirectFreed(v: Vol, u: Vol, dropped: set<Slot>, f: nat, i: nat)
    requires Own(v) && f < |v.inodes| && (forall s :: s in dropped ==> ValidSlot(v, s)) && Stage(v, u, dropped)
    requires forall k :: i <= k < DIRECT ==> u.inodes[f].direct[k] == Holds(v, Data(f, k))
    ensures forall s :: s in DirectDrops(f, i) ==> ValidSlot(v, s)
    ensures var w := FreeDirect(u, f, i);
            && Stage(v, w, dropped + DirectDrops(f, i)) && OnlyWritten(u, w, {})
            && w.inodes == u.inodes[f := CutDirect(u.inodes[f], i)]
    decreases DIRECT - i
  {
    hide Own, Stage, Holds, At, Unmark;
    if i < DIRECT {
      var t := Data(f, i);
      StageUnmark(v, u, dropped, t);
      var u1 := if Holds(v, t) != 0 then Unmark(u, Holds(v, t)) else u;
      StageSetsPtr(v, u1, dropped + {t}, f, DirectPtr(i), 0);
      var u2 := if Holds(v, t) != 0 then WithPtr(u1, f, DirectPtr(i), 0) else u1;
      DirectFreed(v, u2, dropped + {t}, f, i + 1);
      OnlyWrittenTwice(u, u1, u2, {}, {});
      OnlyWrittenTwice(u, u2, FreeDirect(u2, f, i + 1), {}, {});
      assert dropped + {t} + DirectDrops(f, i + 1) == dropped + DirectDrops(f, i);
      assert CutDirect(u2.inodes[f], i + 1) == CutDirect(u.inodes[f], i);
    } else {
      assert dropped + DirectDrops(f, i) == dropped;
      assert CutDirect(u.inodes[f], i) == u.inodes[f];
    }
  }

  // ---- the address blocks of the double indirect block ----

  /** Where the loop over them ends: at the first NULL from k on. */
  function Stop(v: Vol, f: nat, k: nat): (r: nat)
    requires Shape(v) && f < |v.inodes| && k <= ADDRS
    ensures k <= r <= ADDRS
    ensures r < ADDRS ==> Holds(v, MidOf(f, r)) == 0
    ensures forall j :: k <= j < r ==> Holds(v, MidOf(f, j)) != 0
    decreases ADDRS - k
  {
    if k == ADDRS || Holds(v, MidOf(f, k)) == 0 then k else Stop(v, f, k + 1)
  }

  function MidDrops(v: Vol, f: nat, k: nat, start: nat): set<Slot>
    requires Shape(v) && f < |v.inodes|
    decreases ADDRS - k
  {
    if k >= ADDRS || Holds(v, MidOf(f, k)) == 0 then {}
    else ShrinkDrops(MidOf(f, k), FirstEntry(start, k)) + MidDrops(v, f, k + 1, start)
  }

  function MidBlocks(v: Vol, f: nat, k: nat): set<nat>
    requires Shape(v) && f < |v.inodes|
    decreases ADDRS - k
  {
    if k >= ADDRS || Holds(v, MidOf(f, k)) == 0 then {} else {Holds(v, MidOf(f, k))} + MidBlocks(v, f, k + 1)
  }

  lemma {:induction false} MidBlocksAreMids(v: Vol, f: nat, k: nat, t: Slot)
    requires Own(v) && f < |v.inodes| && ValidSlot(v, t) && Holds(v, t) != 0
    ensures Holds(v, t) in MidBlocks(v, f, k) ==> t.MidOf? && t.f == f && t.i >= k
    decreases ADDRS - k
  {
    hide Own, Holds;
    if k < ADDRS && Holds(v, MidOf(f, k)) != 0 {
      MidBlocksAreMids(v, f, k + 1, t);
      if t != MidOf(f, k) {
        DistinctSlots(v, t, MidOf(f, k));
      }
    }
  }

  /** The addresses after the loop. */
  predicate MidsCut(v: Vol, f: nat, k: nat, start: nat, a: seq<nat>, r: seq<nat>)
    requires Shape(v) && f < |v.inodes| && k <= ADDRS && IsAddrs(a) && IsAddrs(r)
  {
    forall j :: 0 <= j < ADDRS ==> r[j] == if k <= j < Stop(v, f, k) && FirstEntry(start, j) == 0 then 0 else a[j]
  }

  /** An address block that keeps some entries is written back with just these. */
  ghost predicate MidsWritten(v: Vol, w: Vol, f: nat, k: nat, start: nat)
    requires Shape(v) && f < |v.inodes| && k <= ADDRS
  {
    forall j :: k <= j < Stop(v, f, k) && 0 < FirstEntry(start, j) < ADDRS ==>
      var b := Holds(v, MidOf(f, j)); At(w, b) == AddrBlock(Cut(Addrs(At(v, b)), FirstEntry(start, j)))
  }

  lemma {:induction false} MidsFreed(v: Vol, u: Vol, dropped: set<Slot>, f: nat, a: seq<nat>, k: nat, start: nat)
    requires Own(v) && f < |v.inodes| && (forall s :: s in dropped ==> ValidSlot(v, s)) && Stage(v, u, dropped)
    requires FirstMid(start) <= k <= ADDRS && IsAddrs(a)
    requires forall j :: k <= j < ADDRS ==> a[j] == Holds(v, MidOf(f, j)) && At(u, a[j]) == At(v, a[j])
    ensures forall s :: s in MidDrops(v, f, k, start) ==> ValidSlot(v, s)
    ensures var (w, r) := FreeMids(u, a, k, start);
            && Stage(v, w, dropped + MidDrops(v, f, k, start)) && OnlyWritten(u, w, MidBlocks(v, f, k))
            && w.inodes == u.inodes && MidsCut(v, f, k, start, a, r) && MidsWritten(v, w, f, k, start)
    decreases ADDRS - k
  {
    hide Own, Stage, Holds, At, OnlyWritten, Shrink, ShrinkDrops, AddrBlock, Addrs, Cut;
    if k == ADDRS || a[k] == 0 {
      assert dropped + MidDrops(v, f, k, start) == dropped;
      OnlyWrittenIdle(u);
    } else {
      var t, e := MidOf(f, k), FirstEntry(start, k);
      ShrinkFrees(v, u, dropped, t, e);
      var (u1, b) := Shrink(u, a[k], e);
      var d1, a1 := dropped + ShrinkDrops(t, e), a[k := b];
      forall j | k + 1 <= j < ADDRS ensures a1[j] == Holds(v, MidOf(f, j)) && At(u1, a1[j]) == At(v, a1[j]) {
        OtherMidStays(v, u, u1, f, k, j);
      }
      MidsFreed(v, u1, d1, f, a1, k + 1, start);
      var w := FreeMids(u1, a1, k + 1, start).0;
      OnlyWrittenTwice(u, u1, w, {a[k]}, MidBlocks(v, f, k + 1));
      assert d1 + MidDrops(v, f, k + 1, start) == dropped + MidDrops(v, f, k, start);
      MidBlocksAreMids(v, f, k + 1, t);
      ThisMidStays(v, u1, w, f, k);
    }
  }

  lemma OnlyWrittenIdle(u: Vol)
    ensures OnlyWritten(u, u, {})
  {
  }

  lemma OtherMidStays(v: Vol, u: Vol, w: Vol, f: nat, k: nat, j: nat)
    requires Own(v) && f < |v.inodes| && k < j < ADDRS && u.mapBlocks == v.mapBlocks
    requires Holds(v, MidOf(f, k)) != 0
    requires OnlyWritten(u, w, {Holds(v, MidOf(f, k))}) && At(u, Holds(v, MidOf(f, j))) == At(v, Holds(v, MidOf(f, j)))
    ensures At(w, Holds(v, MidOf(f, j))) == At(v, Holds(v, MidOf(f, j)))
  {
    hide Own, Holds, At;
    if Holds(v, MidOf(f, j)) != 0 {
      SlotIsData(v, MidOf(f, j));
      DistinctSlots(v, MidOf(f, j), MidOf(f, k));
    }
  }

  lemma ThisMidStays(v: Vol, u: Vol, w: Vol, f: nat, k: nat)
    requires Own(v) && f < |v.inodes| && k < ADDRS && u.mapBlocks == v.mapBlocks && Holds(v, MidOf(f, k)) != 0
    requires OnlyWritten(u, w, MidBlocks(v, f, k + 1)) && Holds(v, MidOf(f, k)) !in MidBlocks(v, f, k + 1)
    ensures At(w, Holds(v, MidOf(f, k))) == At(u, Holds(v, MidOf(f, k)))
  {
    SlotIsData(v, MidOf(f, k));
  }

  // ---- the whole of it ----

  const FIRST_DOUBLE := DIRECT + ADDRS    // the first logical block of the double indirect range

  function SingleEntry(start: nat): nat { if start < DIRECT then 0 else start - DIRECT }

  function StopAt(v: Vol, f: nat, start: nat): nat
    requires Shape(v) && f < |v.inodes|
  {
    if FirstMid(start) < ADDRS then Stop(v, f, FirstMid(start)) else ADDRS
  }

  /** The slot holds nothing after shrinking file f to its first `start` blocks. */
  predicate Lost(v: Vol, f: nat, start: nat, s: Slot)
    requires Shape(v) && f < |v.inodes|
  {
    s.f == f &&
    match s
    case InodeOf(_) => false
    case Data(_, n) => n >= start && (start < FIRST_DOUBLE || (n - FIRST_DOUBLE) / ADDRS < StopAt(v, f, start))
    case SingleOf(_) => start <= DIRECT
    case DoubleOf(_) => start < FIRST_DOUBLE
    case MidOf(_, k) => start < FIRST_DOUBLE || (FirstEntry(start, k) == 0 && k < StopAt(v, f, start))
  }

  /** The slot leads through an address block that the loop did not come to. */
  predicate Stray(v: Vol, f: nat, start: nat, s: Slot)
    requires Shape(v) && f < |v.inodes|
  {
    || (s.MidOf? && s.i >= StopAt(v, f, start))
    || (s.Data? && s.n >= FIRST_DOUBLE && (s.n - FIRST_DOUBLE) / ADDRS >= StopAt(v, f, start))
  }

  function SingleDrops(v: Vol, f: nat, start: nat): set<Slot>
    requires Shape(v) && f < |v.inodes|
  {
    if v.inodes[f].single != 0 && start < FIRST_DOUBLE then ShrinkDrops(SingleOf(f), SingleEntry(start)) else {}
  }

  function DoubleDrops(v: Vol, f: nat, start: nat): set<Slot>
    requires Shape(v) && f < |v.inodes|
  {
    if v.inodes[f].double == 0 then {}
    else MidDrops(v, f, FirstMid(start), start) + (if start < FIRST_DOUBLE then {DoubleOf(f)} else {})
  }

  function Dropped(v: Vol, f: nat, start: nat): set<Slot>
    requires Shape(v) && f < |v.inodes|
  {
    DirectDrops(f, start) + SingleDrops(v, f, start) + DoubleDrops(v, f, start)
  }

  lemma InDirectDrops(f: nat, i: nat, t: Slot)
    ensures t in DirectDrops(f, i) <==> t.Data? && t.f == f && i <= t.n < DIRECT
  {
    if t.Data? {
      assert t == Data(t.f, t.n);
    }
  }

  lemma InShrinkDrops(p: Slot, e: nat, t: Slot)
    requires (p.SingleOf? || p.MidOf?) && e <= ADDRS
    ensures var first := if p.SingleOf? then DIRECT else FIRST_DOUBLE + ADDRS * p.i;
            t in ShrinkDrops(p, e) <==>
                (t == p && e == 0) || (t.Data? && t.f == p.f && first + e <= t.n < first + ADDRS)
  {
    if t.Data? {
      var first := if p.SingleOf? then DIRECT else FIRST_DOUBLE + ADDRS * p.i;
      if first + e <= t.n < first + ADDRS && t.f == p.f {
        assert t == Child(p, t.n - first);
      }
    }
  }

  lemma {:induction false} InMidDrops(v: Vol, f: nat, k: nat, start: nat, t: Slot)
    requires Shape(v) && f < |v.inodes| && FirstMid(start) <= k <= ADDRS
    ensures t in MidDrops(v, f, k, start) <==>
            t.f == f && ((t.MidOf? && k <= t.i < Stop(v, f, k) && FirstEntry(start, t.i) == 0)
                         || (t.Data? && start <= t.n
                             && FIRST_DOUBLE + ADDRS * k <= t.n < FIRST_DOUBLE + ADDRS * Stop(v, f, k)))
    decreases ADDRS - k
  {
    hide Holds, ShrinkDrops;
    if k < ADDRS && Holds(v, MidOf(f, k)) != 0 {
      InMidDrops(v, f, k + 1, start, t);
      InShrinkDrops(MidOf(f, k), FirstEntry(start, k), t);
    }
  }

  /** A non-empty slot's block is freed exactly if the slot is lost and not stray. */
  lemma DroppedIffLost(v: Vol, f: nat, start: nat, t: Slot)
    requires Own(v) && f < |v.inodes| && ValidSlot(v, t) && Holds(v, t) != 0
    ensures t in Dropped(v, f, start) <==> Lost(v, f, start, t) && !Stray(v, f, start, t)
  {
    hide Own, DirectDrops, ShrinkDrops, MidDrops;
    if t.f == f {
      RootPointers(v, f, t);
    }
    InDirectDrops(f, start, t);
    if start < FIRST_DOUBLE {
      InShrinkDrops(SingleOf(f), SingleEntry(start), t);
    }
    if FirstMid(start) <= ADDRS {
      InMidDrops(v, f, FirstMid(start), start, t);
    } else {
      assert MidDrops(v, f, FirstMid(start), start) == {} by { NoMids(v, f, FirstMid(start), start); }
    }
  }

  lemma NoMids(v: Vol, f: nat, k: nat, start: nat)
    requires Shape(v) && f < |v.inodes| && k >= ADDRS
    ensures MidDrops(v, f, k, start) == {}
  {
  }

  /** A slot that leads through an indirect block holds nothing if that does not exist. */
  lemma RootPointers(v: Vol, f: nat, t: Slot)
    requires Shape(v) && f < |v.inodes| && ValidSlot(v, t) && Holds(v, t) != 0 && t.f == f
    ensures t.SingleOf? || (t.Data? && DIRECT <= t.n < FIRST_DOUBLE) ==> v.inodes[f].single != 0
    ensures t.DoubleOf? || t.MidOf? || (t.Data? && FIRST_DOUBLE <= t.n) ==> v.inodes[f].double != 0
  {
    if t.Data? && FIRST_DOUBLE <= t.n {
      assert Holds(v, Parent(t)) != 0;
    }
  }

  lemma SingleFreed(v: Vol, u: Vol, dropped: set<Slot>, f: nat, start: nat)
    requires Own(v) && f < |v.inodes| && (forall s :: s in dropped ==> ValidSlot(v, s)) && Stage(v, u, dropped)
    requires var sip := v.inodes[f].single; u.inodes[f].single == sip && At(u, sip) == At(v, sip)
    ensures forall s :: s in SingleDrops(v, f, start) ==> ValidSlot(v, s)
    ensures var (w, sip) := (FreeSingle(u, f, start), v.inodes[f].single);
            && Stage(v, w, dropped + SingleDrops(v, f, start)) && OnlyWritten(u, w, Just(sip))
            && w.inodes == u.inodes[f := u.inodes[f].(single := if start <= DIRECT then 0 else sip)]
            && (sip != 0 && DIRECT < start < FIRST_DOUBLE ==>
                  At(w, sip) == AddrBlock(Cut(Addrs(At(v, sip)), SingleEntry(start))))
  {
    hide Own, Stage, At, AddrBlock, Cut, Addrs, Shrink, ShrinkDrops;
    var sip := v.inodes[f].single;
    assert Holds(v, SingleOf(f)) == sip;
    hide Holds;
    if sip != 0 && start < FIRST_DOUBLE {
      SlotIsData(v, SingleOf(f));
      ShrinkFrees(v, u, dropped, SingleOf(f), SingleEntry(start));
      var (u1, b) := Shrink(u, sip, SingleEntry(start));
      StageSetsPtr(v, u1, dropped + SingleDrops(v, f, start), f, SinglePtr, b);
      OnlyWrittenTwice(u, u1, FreeSingle(u, f, start), {sip}, {});
    } else {
      assert dropped + SingleDrops(v, f, start) == dropped;
      OnlyWrittenIdle(u);
    }
  }

  function Just(b: nat): set<nat> { if b == 0 then {} else {b} }

  /** The addresses that the double indirect block has afterwards. */
  ghost predicate DoubleWritten(v: Vol, w: Vol, f: nat, start: nat, b: nat)
    requires Shape(v) && f < |v.inodes|
  {
    forall j :: 0 <= j < ADDRS ==>
      Addr(At(w, b), j) ==
      if FirstMid(start) <= j < StopAt(v, f, start) && FirstEntry(start, j) == 0 then 0 else Holds(v, MidOf(f, j))
  }

  lemma DoubleFreed(v: Vol, u: Vol, dropped: set<Slot>, f: nat, start: nat)
    requires Own(v) && f < |v.inodes| && (forall s :: s in dropped ==> ValidSlot(v, s)) && Stage(v, u, dropped)
    requires var dip := v.inodes[f].double; u.inodes[f].double == dip && At(u, dip) == At(v, dip)
    requires forall j :: 0 <= j < ADDRS ==> At(u, Holds(v, MidOf(f, j))) == At(v, Holds(v, MidOf(f, j)))
    ensures forall s :: s in DoubleDrops(v, f, start) ==> ValidSlot(v, s)
    ensures var (w, dip) := (FreeDouble(u, f, start), v.inodes[f].double);
            && Stage(v, w, dropped + DoubleDrops(v, f, start))
            && OnlyWritten(u, w, Just(dip) + MidBlocks(v, f, FirstMid(start)))
            && w.inodes == u.inodes[f := u.inodes[f].(double := if start < FIRST_DOUBLE then 0 else dip)]
            && (dip != 0 && start >= FIRST_DOUBLE ==> DoubleWritten(v, w, f, start, dip))
            && (dip != 0 && FIRST_DOUBLE <= start && FirstMid(start) < ADDRS ==>
                MidsWritten(v, w, f, FirstMid(start), start))
  {
    hide Own, Stage, At, AddrBlock, Cut, Addr, OnlyWritten, MidDrops, MidBlocks, DoubleWritten, MidsWritten, FreeMids,
         StopAt;
    hide FirstMid, FirstEntry, Stop;
    var dip, k := v.inodes[f].double, FirstMid(start);
    assert Holds(v, DoubleOf(f)) == dip;
    if dip == 0 {
      assert dropped + DoubleDrops(v, f, start) == dropped;
      OnlyWrittenMore(u, u, {}, Just(dip) + MidBlocks(v, f, k)) by { OnlyWrittenIdle(u); }
    } else {
      var a := Addrs(At(v, dip));
      MidsLoop(v, u, dropped, f, start);
      hide Holds;
      var (u1, r) := FreeMids(u, a, k, start);
      var d1 := dropped + MidDrops(v, f, k, start);
      SlotIsData(v, DoubleOf(f));
      if start < FIRST_DOUBLE {
        StageUnmark(v, u1, d1, DoubleOf(f));
        var u2 := Unmark(u1, dip);
        StageSetsPtr(v, u2, d1 + {DoubleOf(f)}, f, DoublePtr, 0);
        assert d1 + {DoubleOf(f)} == dropped + DoubleDrops(v, f, start);
        OnlyWrittenTwice(u, u1, u2, MidBlocks(v, f, k), {});
        OnlyWrittenTwice(u, u2, FreeDouble(u, f, start), MidBlocks(v, f, k) + {}, {});
        OnlyWrittenMore(u, FreeDouble(u, f, start), MidBlocks(v, f, k) + {} + {}, Just(dip) + MidBlocks(v, f, k));
      } else {
        assert d1 == dropped + DoubleDrops(v, f, start);
        DoublePut(v, u1, d1, f, start, r);
        OnlyWrittenTwice(u, u1, Put(u1, dip, AddrBlock(r)), MidBlocks(v, f, k), {dip});
        OnlyWrittenMore(u, Put(u1, dip, AddrBlock(r)), MidBlocks(v, f, k) + {dip}, Just(dip) + MidBlocks(v, f, k));
      }
    }
  }

  lemma OnlyWrittenMore(u: Vol, w: Vol, a: set<nat>, b: set<nat>)
    requires OnlyWritten(u, w, a) && a <= b
    ensures OnlyWritten(u, w, b)
  {
  }

  /** The loop over the address blocks, also when there is none to look at. */
  lemma MidsLoop(v: Vol, u: Vol, dropped: set<Slot>, f: nat, start: nat)
    requires Own(v) && f < |v.inodes| && (forall s :: s in dropped ==> ValidSlot(v, s)) && Stage(v, u, dropped)
    requires v.inodes[f].double != 0
    requires forall j :: 0 <= j < ADDRS ==> At(u, Holds(v, MidOf(f, j))) == At(v, Holds(v, MidOf(f, j)))
    ensures forall s :: s in MidDrops(v, f, FirstMid(start), start) ==> ValidSlot(v, s)
    ensures var k := FirstMid(start);
            var a := Addrs(At(v, v.inodes[f].double));
            var (w, r) := FreeMids(u, a, k, start);
            && Stage(v, w, dropped + MidDrops(v, f, k, start)) && OnlyWritten(u, w, MidBlocks(v, f, k))
            && w.inodes == u.inodes
            && (forall j :: 0 <= j < ADDRS ==>
                  r[j] == if k <= j < StopAt(v, f, start) && FirstEntry(start, j) == 0 then 0
                          else Holds(v, MidOf(f, j)))
            && (k < ADDRS ==> MidsWritten(v, w, f, k, start))
  {
    hide Own, Stage, At;
    var k := FirstMid(start);
    var a := Addrs(At(v, v.inodes[f].double));
    forall j | 0 <= j < ADDRS ensures a[j] == Holds(v, MidOf(f, j)) {
      ChildHolds(v, DoubleOf(f), j);
    }
    hide Holds;
    if k < ADDRS {
      MidsFreed(v, u, dropped, f, a, k, start);
    } else {
      NoMids(v, f, k, start);
      assert dropped + {} == dropped;
      OnlyWrittenIdle(u);
    }
  }

  lemma DoublePut(v: Vol, u: Vol, dropped: set<Slot>, f: nat, start: nat, r: seq<nat>)
    requires Own(v) && f < |v.inodes| && (forall s :: s in dropped ==> ValidSlot(v, s)) && Stage(v, u, dropped)
    requires v.inodes[f].double != 0 && IsAddrs(r)
    requires forall j :: 0 <= j < ADDRS ==>
               r[j] == if FirstMid(start) <= j < StopAt(v, f, start) && FirstEntry(start, j) == 0 then 0
                       else Holds(v, MidOf(f, j))
    requires FirstMid(start) < ADDRS ==> MidsWritten(v, u, f, FirstMid(start), start)
    ensures var dip := v.inodes[f].double;
            var w := Put(u, dip, AddrBlock(r));
            && Stage(v, w, dropped) && OnlyWritten(u, w, {dip}) && DoubleWritten(v, w, f, start, dip)
            && (FirstMid(start) < ADDRS ==> MidsWritten(v, w, f, FirstMid(start), start))
  {
    hide Own, Stage, OnlyWritten, AddrBlock, Cut, Addrs;
    var dip := v.inodes[f].double;
    assert Holds(v, DoubleOf(f)) == dip;
    hide Holds;
    SlotIsData(v, DoubleOf(f));
    StagePut(v, u, dropped, dip, AddrBlock(r));
    var w := Put(u, dip, AddrBlock(r));
    forall j | 0 <= j < ADDRS ensures Addr(At(w, dip), j) == r[j] {
      AddrOfBlock(r, j);
    }
    if FirstMid(start) < ADDRS {
      forall j | FirstMid(start) <= j < Stop(v, f, FirstMid(start))
        ensures At(w, Holds(v, MidOf(f, j))) == At(u, Holds(v, MidOf(f, j)))
      {
        DistinctSlots(v, MidOf(f, j), DoubleOf(f));
      }
    }
  }

  /** The inode afterwards. */
  function CutInode(n: Inode, start: nat): (r: Inode)
    requires IsInode(n)
    ensures IsInode(r)
  {
    CutDirect(n, start).(single := if start <= DIRECT then 0 else n.single,
                         double := if start < FIRST_DOUBLE then 0 else n.double)
  }

  /** The blocks shrinking writes, besides the bitmap. */
  function Written(v: Vol, f: nat, start: nat): set<nat>
    requires Shape(v) && f < |v.inodes|
  {
    Just(v.inodes[f].single) + (Just(v.inodes[f].double) + MidBlocks(v, f, FirstMid(start)))
  }

  /** The address blocks that stay in use hold what they held, up to what was cut off. */
  ghost predicate AddressesKept(v: Vol, w: Vol, f: nat, start: nat)
    requires Shape(v) && f < |v.inodes|
  {
    var (sip, dip) := (v.inodes[f].single, v.inodes[f].double);
    && (sip != 0 && DIRECT < start ==>
          if start < FIRST_DOUBLE then At(w, sip) == AddrBlock(Cut(Addrs(At(v, sip)), SingleEntry(start)))
          else At(w, sip) == At(v, sip))
    && (dip != 0 && FIRST_DOUBLE <= start ==> DoubleWritten(v, w, f, start, dip))
    && (dip != 0 && FIRST_DOUBLE <= start && FirstMid(start) < ADDRS ==> MidsWritten(v, w, f, FirstMid(start), start))
  }

  lemma AllFreed(v: Vol, f: nat, start: nat)
    requires Own(v) && f < |v.inodes|
    ensures forall s :: s in Dropped(v, f, start) ==> ValidSlot(v, s)
    ensures var w := FreeAll(v, f, start);
            && Stage(v, w, Dropped(v, f, start)) && OnlyWritten(v, w, Written(v, f, start))
            && w.inodes == v.inodes[f := CutInode(v.inodes[f], start)]
            && AddressesKept(v, w, f, start)
  {
    hide Stage, At, AddrBlock, Cut, Addrs, MidDrops, MidBlocks, MidsWritten, DoubleWritten, FreeDirect, FreeSingle,
         FreeDouble;
    hide DirectDrops, SingleDrops, DoubleDrops, Stop, StopAt, Own, Holds, OnlyWritten;
    var n := v.inodes[f];
    var mids := MidBlocks(v, f, FirstMid(start));
    RootsAreApart(v, f, FirstMid(start));
    StageStarts(v);
    DirectPointersAre(v, f);
    DirectFreed(v, v, {}, f, start);
    var u1 := FreeDirect(v, f, start);
    var d1 := {} + DirectDrops(f, start);
    Stays(v, v, u1, {}, n.single);
    SingleFreed(v, u1, d1, f, start);
    var u2 := FreeSingle(u1, f, start);
    var d2 := d1 + SingleDrops(v, f, start);
    OnlyWrittenTwice(v, u1, u2, {}, Just(n.single));
    Stays(v, v, u2, {} + Just(n.single), n.double);
    forall j | 0 <= j < ADDRS ensures At(u2, Holds(v, MidOf(f, j))) == At(v, Holds(v, MidOf(f, j))) {
      MidIsApart(v, f, j);
      Stays(v, v, u2, {} + Just(n.single), Holds(v, MidOf(f, j)));
    }
    DoubleFreed(v, u2, d2, f, start);
    var w := FreeDouble(u2, f, start);
    OnlyWrittenTwice(v, u2, w, {} + Just(n.single), Just(n.double) + mids);
    assert {} + Just(n.single) + (Just(n.double) + mids) == Written(v, f, start);
    assert d2 + DoubleDrops(v, f, start) == Dropped(v, f, start);
    assert w.inodes == v.inodes[f := CutInode(n, start)];
    Stays(v, u2, w, Just(n.double) + mids, n.single);
    if start >= FIRST_DOUBLE && n.single != 0 {
      SingleUntouched(v, u1, f, start);
    }
  }

  /** Beyond the single indirect range its block is not touched. */
  lemma SingleUntouched(v: Vol, u: Vol, f: nat, start: nat)
    requires Shape(u) && f < |u.inodes| && start >= FIRST_DOUBLE
    ensures FreeSingle(u, f, start) == u
  {
  }

  lemma Stays(v: Vol, u: Vol, w: Vol, written: set<nat>, c: nat)
    requires OnlyWritten(u, w, written) && u.mapBlocks == v.mapBlocks && c !in written && (c == 0 || c >= FirstData(v))
    ensures At(w, c) == At(u, c)
  {
  }

  lemma DirectPointersAre(v: Vol, f: nat)
    requires Shape(v) && f < |v.inodes|
    ensures forall k: nat :: k < DIRECT ==> v.inodes[f].direct[k] == Holds(v, Data(f, k))
  {
  }

  lemma {:induction false} NullIsNoMid(v: Vol, f: nat, k: nat)
    requires Shape(v) && f < |v.inodes|
    ensures 0 !in MidBlocks(v, f, k)
    decreases ADDRS - k
  {
    hide Holds;
    if k < ADDRS && Holds(v, MidOf(f, k)) != 0 {
      NullIsNoMid(v, f, k + 1);
    }
  }

  lemma RootsAreApart(v: Vol, f: nat, k: nat)
    requires Own(v) && f < |v.inodes|
    ensures var n, mids := v.inodes[f], MidBlocks(v, f, k);
            && (n.single == 0 || n.single >= FirstData(v)) && (n.double == 0 || n.double >= FirstData(v))
            && n.single !in Just(n.double) + mids && n.double !in Just(n.single) + mids
  {
    assert Holds(v, SingleOf(f)) == v.inodes[f].single && Holds(v, DoubleOf(f)) == v.inodes[f].double;
    hide Holds, MidBlocks;
    NullIsNoMid(v, f, k);
    if v.inodes[f].single != 0 {
      SlotIsData(v, SingleOf(f));
      DistinctSlots(v, SingleOf(f), DoubleOf(f));
      MidBlocksAreMids(v, f, k, SingleOf(f));
    }
    if v.inodes[f].double != 0 {
      SlotIsData(v, DoubleOf(f));
      DistinctSlots(v, DoubleOf(f), SingleOf(f));
      MidBlocksAreMids(v, f, k, DoubleOf(f));
    }
  }

  lemma MidIsApart(v: Vol, f: nat, j: nat)
    requires Own(v) && f < |v.inodes| && j < ADDRS
    ensures var b := Holds(v, MidOf(f, j));
            b == 0 || (b >= FirstData(v) && b != v.inodes[f].single && b != v.inodes[f].double)
  {
    assert Holds(v, SingleOf(f)) == v.inodes[f].single && Holds(v, DoubleOf(f)) == v.inodes[f].double;
    hide Holds;
    if Holds(v, MidOf(f, j)) != 0 {
      SlotIsData(v, MidOf(f, j));
      DistinctSlots(v, MidOf(f, j), SingleOf(f));
      DistinctSlots(v, MidOf(f, j), DoubleOf(f));
    }
  }

  // ---- what is held afterwards ----

  lemma BlocksApart(v: Vol, f: nat, start: nat, s: Slot)
    requires Own(v) && f < |v.inodes| && ValidSlot(v, s) && Holds(v, s) != 0 && (s.f != f || s.Data? || s.InodeOf?)
    ensures Holds(v, s) !in Written(v, f, start)
    ensures Holds(v, s) < FIRST_BMAP_BLOCK || Holds(v, s) >= FirstData(v)
  {
    assert Holds(v, SingleOf(f)) == v.inodes[f].single && Holds(v, DoubleOf(f)) == v.inodes[f].double;
    assert Legal(v, s, Holds(v, s));
    hide Holds, MidBlocks;
    DistinctSlots(v, s, SingleOf(f));
    DistinctSlots(v, s, DoubleOf(f));
    MidBlocksAreMids(v, f, FirstMid(start), s);
  }

  lemma HeldElsewhere(v: Vol, w: Vol, f: nat, start: nat, s: Slot)
    requires Own(v) && f < |v.inodes| && ValidSlot(v, s) && s.f != f && Shape(w) && |w.inodes| == |v.inodes|
    requires OnlyWritten(v, w, Written(v, f, start)) && w.inodes[s.f] == v.inodes[s.f]
    ensures Holds(w, s) == Holds(v, s)
  {
    forall p | ValidSlot(v, p) && p.f == s.f && !p.Data? && !p.InodeOf? && Holds(v, p) != 0
      ensures At(w, Holds(v, p)) == At(v, Holds(v, p))
    {
      BlocksApart(v, f, start, p);
    }
    HoldsFrame(v, w, s);
  }

  lemma AddrCut(b: Block, e: nat, k: nat)
    requires e <= ADDRS && k < ADDRS
    ensures Addr(AddrBlock(Cut(Addrs(b), e)), k) == if k < e then Addr(b, k) else 0
  {
    AddrOfBlock(Cut(Addrs(b), e), k);
  }

  /** The file's own slots that do not lead through the double indirect block. */
  lemma HeldLow(v: Vol, w: Vol, f: nat, start: nat, s: Slot)
    requires Own(v) && f < |v.inodes| && ValidSlot(v, s) && s.f == f && Shape(w)
    requires w.inodes == v.inodes[f := CutInode(v.inodes[f], start)] && AddressesKept(v, w, f, start)
    requires !s.MidOf? && (s.Data? ==> s.n < FIRST_DOUBLE)
    ensures Holds(w, s) == if Lost(v, f, start, s) then 0 else Holds(v, s)
  {
    hide Own, At, AddrBlock, Cut, Addr, Addrs, DoubleWritten, MidsWritten, StopAt, Stop;
    if s.Data? && s.n >= DIRECT {
      assert Parent(s) == SingleOf(f) && Entry(s) == s.n - DIRECT;
      assert Holds(v, SingleOf(f)) == v.inodes[f].single && Holds(w, SingleOf(f)) == w.inodes[f].single;
      if v.inodes[f].single != 0 && DIRECT < start < FIRST_DOUBLE {
        AddrCut(At(v, v.inodes[f].single), SingleEntry(start), s.n - DIRECT);
      }
    }
  }

  lemma HeldMid(v: Vol, w: Vol, f: nat, start: nat, k: nat)
    requires Own(v) && f < |v.inodes| && k < ADDRS && Shape(w)
    requires w.inodes == v.inodes[f := CutInode(v.inodes[f], start)] && AddressesKept(v, w, f, start)
    ensures Holds(w, MidOf(f, k)) == if Lost(v, f, start, MidOf(f, k)) then 0 else Holds(v, MidOf(f, k))
  {
    hide Own, At, AddrBlock, Cut, Addr, Addrs, MidsWritten, Stop;
    var s := MidOf(f, k);
    assert Holds(v, DoubleOf(f)) == v.inodes[f].double && Holds(w, DoubleOf(f)) == w.inodes[f].double;
    if FIRST_DOUBLE <= start && FirstEntry(start, k) == 0 {
      assert FirstMid(start) <= k;
    }
  }

  lemma HeldHigh(v: Vol, w: Vol, f: nat, start: nat, n: nat)
    requires Own(v) && f < |v.inodes| && FIRST_DOUBLE <= n < MAX_BLOCKS && Shape(w)
    requires w.inodes == v.inodes[f := CutInode(v.inodes[f], start)] && AddressesKept(v, w, f, start)
    requires OnlyWritten(v, w, Written(v, f, start))
    ensures Holds(w, Data(f, n)) == if Lost(v, f, start, Data(f, n)) then 0 else Holds(v, Data(f, n))
  {
    hide Own, At, AddrBlock, Cut, Addr, Addrs, DoubleWritten, OnlyWritten, Written;
    var s, k, e := Data(f, n), (n - FIRST_DOUBLE) / ADDRS, (n - FIRST_DOUBLE) % ADDRS;
    var t := MidOf(f, k);
    assert Parent(s) == t && Entry(s) == e;
    HeldMid(v, w, f, start, k);
    var b := Holds(v, t);
    assert Holds(v, s) == if b == 0 then 0 else Addr(At(v, b), e);
    if !Lost(v, f, start, t) && b != 0 {
      if FirstMid(start) <= k < StopAt(v, f, start) {
        assert 0 < FirstEntry(start, k) < ADDRS;
        RootOfMid(v, f, k);
        AddrCut(At(v, b), FirstEntry(start, k), e);
      } else {
        MidUntouched(v, w, f, start, k);
      }
    }
  }

  lemma RootOfMid(v: Vol, f: nat, k: nat)
    requires Shape(v) && f < |v.inodes| && k < ADDRS && Holds(v, MidOf(f, k)) != 0
    ensures v.inodes[f].double != 0
  {
  }

  lemma {:induction false} NotInMidBlocks(v: Vol, f: nat, from: nat, k: nat)
    requires Own(v) && f < |v.inodes| && from <= ADDRS && k < ADDRS && Holds(v, MidOf(f, k)) != 0
    requires k < from || Stop(v, f, from) <= k
    ensures Holds(v, MidOf(f, k)) !in MidBlocks(v, f, from)
    decreases ADDRS - from
  {
    hide Own, Holds;
    if from < ADDRS && Holds(v, MidOf(f, from)) != 0 {
      NotInMidBlocks(v, f, from + 1, k);
      DistinctSlots(v, MidOf(f, k), MidOf(f, from));
    }
  }

  lemma MidUntouched(v: Vol, w: Vol, f: nat, start: nat, k: nat)
    requires Own(v) && f < |v.inodes| && k < ADDRS && Holds(v, MidOf(f, k)) != 0
    requires OnlyWritten(v, w, Written(v, f, start)) && (k < FirstMid(start) || StopAt(v, f, start) <= k)
    ensures At(w, Holds(v, MidOf(f, k))) == At(v, Holds(v, MidOf(f, k)))
  {
    hide Own, Holds, At, MidBlocks, Stop;
    MidIsApart(v, f, k);
    if FirstMid(start) <= ADDRS {
      NotInMidBlocks(v, f, FirstMid(start), k);
    } else {
      assert MidBlocks(v, f, FirstMid(start)) == {} by { NoMidBlocks(v, f, FirstMid(start)); }
    }
  }

  lemma NoMidBlocks(v: Vol, f: nat, k: nat)
    requires Shape(v) && f < |v.inodes| && k >= ADDRS
    ensures MidBlocks(v, f, k) == {}
  {
  }

  lemma HeldAfter(v: Vol, f: nat, start: nat, s: Slot)
    requires Own(v) && f < |v.inodes| && ValidSlot(v, s)
    ensures Holds(FreeAll(v, f, start), s) == if Lost(v, f, start, s) then 0 else Holds(v, s)
  {
    hide Holds, Own, FreeAll, AddressesKept, OnlyWritten;
    AllFreed(v, f, start);
    var w := FreeAll(v, f, start);
    if s.f != f {
      HeldElsewhere(v, w, f, start, s);
    } else if s.MidOf? {
      HeldMid(v, w, f, start, s.i);
    } else if s.Data? && s.n >= FIRST_DOUBLE {
      HeldHigh(v, w, f, start, s.n);
    } else {
      HeldLow(v, w, f, start, s);
    }
  }

  // ---- the main theorems ----

  /** Block c was freed: a slot that is lost, and not stray, held it. */
  ghost predicate Freed(v: Vol, f: nat, start: nat, c: nat)
    requires Shape(v) && f < |v.inodes|
  {
    exists t :: ValidSlot(v, t) && Holds(v, t) == c && Lost(v, f, start, t) && !Stray(v, f, start, t)
  }

  /** What shrinking file f comes to. */
  ghost predicate TruncateSpec(v: Vol, f: nat, size: nat, w: Vol)
    requires Shape(v) && f < |v.inodes|
  {
    var start := BlocksFor(size);
    && Stable(w) && |w.inodes| == |v.inodes| && |w.disk| == |v.disk| && w.mapBlocks == v.mapBlocks
    && w.inodes[f].size == size
    && (forall g :: 0 <= g < |v.inodes| && g != f ==> w.inodes[g] == v.inodes[g])
    && (forall s :: ValidSlot(v, s) ==> Holds(w, s) == if Lost(v, f, start, s) then 0 else Holds(v, s))
    && (forall c: nat :: c < |v.disk| ==> (IsUsed(w, c) <==> IsUsed(v, c) && (c == 0 || !Freed(v, f, start, c))))
    && (forall g, m :: 0 <= g < |v.inodes| && 0 <= m < MAX_BLOCKS ==>
          FileBlock(w, g, m) == if Lost(v, f, start, Data(g, m)) then None else FileBlock(v, g, m))
  }

  lemma FreedIffDropped(v: Vol, f: nat, start: nat, c: nat)
    requires Own(v) && f < |v.inodes| && c != 0 && (forall s :: s in Dropped(v, f, start) ==> ValidSlot(v, s))
    ensures Freed(v, f, start, c) <==> exists t :: t in Dropped(v, f, start) && Holds(v, t) == c
  {
    hide Own, Holds, Dropped, Lost, Stray;
    if Freed(v, f, start, c) {
      var t :| ValidSlot(v, t) && Holds(v, t) == c && Lost(v, f, start, t) && !Stray(v, f, start, t);
      DroppedIffLost(v, f, start, t);
    }
    if exists t :: t in Dropped(v, f, start) && Holds(v, t) == c {
      var t :| t in Dropped(v, f, start) && Holds(v, t) == c;
      DroppedIffLost(v, f, start, t);
    }
  }

  lemma FreedUsed(v: Vol, f: nat, start: nat, u: Vol)
    requires Own(v) && f < |v.inodes| && (forall s :: s in Dropped(v, f, start) ==> ValidSlot(v, s))
    requires Stage(v, u, Dropped(v, f, start))
    ensures forall c: nat :: c < |v.disk| ==> (IsUsed(u, c) <==> IsUsed(v, c) && (c == 0 || !Freed(v, f, start, c)))
  {
    hide Own, Holds, Dropped, Freed, IsUsed;
    forall c: nat | c < |v.disk| ensures IsUsed(u, c) <==> IsUsed(v, c) && (c == 0 || !Freed(v, f, start, c)) {
      if c != 0 {
        FreedIffDropped(v, f, start, c);
      }
    }
  }

  lemma FreedLegal(v: Vol, f: nat, start: nat, u: Vol)
    requires Own(v) && f < |v.inodes| && Shape(u) && BitmapSaved(u)
    requires |u.inodes| == |v.inodes| && u.mapBlocks == v.mapBlocks && |u.disk| == |v.disk|
    requires forall g :: 0 <= g < |v.inodes| ==> u.inodes[g].adr == v.inodes[g].adr
    requires forall c: nat :: c < |v.disk| ==> (IsUsed(u, c) <==> IsUsed(v, c) && (c == 0 || !Freed(v, f, start, c)))
    requires forall s :: ValidSlot(v, s) ==> Holds(u, s) == if Lost(v, f, start, s) then 0 else Holds(v, s)
    ensures Own(u)
  {
    hide Holds, Lost, Freed, IsUsed, BitmapSaved;
    forall s | ValidSlot(u, s) && Holds(u, s) != 0 ensures Legal(u, s, Holds(u, s)) {
      assert Legal(v, s, Holds(v, s));
      KeptIsNotFreed(v, f, start, s);
    }
    forall c | 0 <= c < FirstData(u) ensures IsUsed(u, c) {
      MetadataIsNotFreed(v, f, start, c);
    }
    forall g | 0 <= g < |u.inodes| ensures u.inodes[g].adr != 0 {
      assert v.inodes[g].adr != 0;
    }
  }

  lemma StageSaved(v: Vol, u: Vol, dropped: set<Slot>)
    requires Shape(v) && (forall s :: s in dropped ==> ValidSlot(v, s)) && Stage(v, u, dropped)
    ensures Shape(u) && BitmapSaved(u) && u.mapBlocks == v.mapBlocks && |u.disk| == |v.disk| && |u.inodes| == |v.inodes|
  {
  }

  /** After freeing, every slot's block is still marked used, and the blocks left are still distinct. */
  lemma FreedIsOwned(v: Vol, f: nat, start: nat)
    requires Own(v) && f < |v.inodes|
    ensures var u := FreeAll(v, f, start);
            && Own(u)
            && (forall s :: ValidSlot(v, s) ==> Holds(u, s) == if Lost(v, f, start, s) then 0 else Holds(v, s))
            && (forall c: nat :: c < |v.disk| ==>
                (IsUsed(u, c) <==> IsUsed(v, c) && (c == 0 || !Freed(v, f, start, c))))
  {
    hide FreeAll, Dropped, Written, AddressesKept, Holds, OnlyWritten, Lost, Own, Stage, Freed, IsUsed, BitmapSaved;
    AllFreed(v, f, start);
    var u := FreeAll(v, f, start);
    StageSaved(v, u, Dropped(v, f, start));
    forall s | ValidSlot(v, s) ensures Holds(u, s) == if Lost(v, f, start, s) then 0 else Holds(v, s) {
      HeldAfter(v, f, start, s);
    }
    FreedUsed(v, f, start, u);
    FreedLegal(v, f, start, u);
  }

  lemma KeptIsNotFreed(v: Vol, f: nat, start: nat, s: Slot)
    requires Own(v) && f < |v.inodes| && ValidSlot(v, s) && Holds(v, s) != 0 && !Lost(v, f, start, s)
    ensures !Freed(v, f, start, Holds(v, s))
  {
    hide Holds, Lost, Stray;
  }

  lemma MetadataIsNotFreed(v: Vol, f: nat, start: nat, c: nat)
    requires Own(v) && f < |v.inodes| && c < FirstData(v)
    ensures IsUsed(v, c) && (c == 0 || !Freed(v, f, start, c))
  {
    hide Holds, Stray;
    forall t | ValidSlot(v, t) && !t.InodeOf? && Holds(v, t) != 0 ensures Holds(v, t) >= FirstData(v) {
      SlotIsData(v, t);
    }
  }

  lemma LostDataIsGone(v: Vol, f: nat, start: nat, u: Vol, g: nat, m: nat)
    requires Own(v) && f < |v.inodes| && g < |v.inodes| && m < MAX_BLOCKS && Shape(u) && |u.inodes| == |v.inodes|
    requires OnlyWritten(v, u, Written(v, f, start))
    requires Holds(u, Data(g, m)) == if Lost(v, f, start, Data(g, m)) then 0 else Holds(v, Data(g, m))
    ensures FileBlock(u, g, m) == if Lost(v, f, start, Data(g, m)) then None else FileBlock(v, g, m)
  {
    hide Own, Holds, Lost, Written;
    if Holds(v, Data(g, m)) != 0 {
      BlocksApart(v, f, start, Data(g, m));
    }
  }

  lemma InodeBlocksStay(v: Vol, f: nat, start: nat, u: Vol, g: nat)
    requires Own(v) && f < |v.inodes| && g < |v.inodes| && OnlyWritten(v, u, Written(v, f, start))
    ensures At(u, v.inodes[g].adr) == At(v, v.inodes[g].adr)
  {
    AdrIsHeld(v, g);
    BlocksApart(v, f, start, InodeOf(g));
  }

  lemma TruncateIsRight(v: Vol, f: nat, size: nat)
    requires Stable(v) && f < |v.inodes| && size < v.inodes[f].size
    ensures TruncateSpec(v, f, size, TruncateTo(v, f, size))
  {
    hide FreeAll, Dropped, Written, AddressesKept, Holds, Lost, Freed, Own, Stage, BlocksFor, InodeBlock, OnlyWritten,
         IsUsed;
    hide FileBlock;
    var start := BlocksFor(size);
    AllFreed(v, f, start);
    StageSaved(v, FreeAll(v, f, start), Dropped(v, f, start));
    FreedIsOwned(v, f, start);
    var u := FreeAll(v, f, start);
    forall g, m | 0 <= g < |v.inodes| && 0 <= m < MAX_BLOCKS
      ensures FileBlock(u, g, m) == if Lost(v, f, start, Data(g, m)) then None else FileBlock(v, g, m)
    {
      LostDataIsGone(v, f, start, u, g, m);
    }
    forall g | 0 <= g < |v.inodes| ensures At(u, v.inodes[g].adr) == At(v, v.inodes[g].adr) {
      InodeBlocksStay(v, f, start, u, g);
    }
    SizeIsSaved(u, f, size);
    var w := TruncateTo(v, f, size);
    forall c: nat | c < |v.disk| ensures IsUsed(w, c) == IsUsed(u, c) {
      SameBitmap(u, w, c);
    }
  }

  /** Setting the size and writing the inode back. */
  lemma SizeIsSaved(u: Vol, f: nat, size: nat)
    requires Own(u) && f < |u.inodes| && size < WORD
    requires forall g :: 0 <= g < |u.inodes| && g != f ==> At(u, u.inodes[g].adr) == InodeBlock(u.inodes[g])
    ensures var x := SetInode(u, f, u.inodes[f].(size := size));
            && Shape(x)
            && var w := SaveInode(x, f);
               && Stable(w) && w.inodes == x.inodes && |w.disk| == |u.disk| && w.bmap == u.bmap
                   && w.mapBlocks == u.mapBlocks
               && (forall s :: ValidSlot(u, s) ==> Holds(w, s) == Holds(u, s))
               && (forall g, m :: 0 <= g < |u.inodes| && 0 <= m < MAX_BLOCKS ==>
                   FileBlock(w, g, m) == FileBlock(u, g, m))
  {
    var x := SetInode(u, f, u.inodes[f].(size := size));
    forall s | ValidSlot(u, s) ensures Holds(x, s) == Holds(u, s) {
      HoldsFrame(u, x, s);
    }
    OwnIgnoresSize(u, x, f);
    hide Own, Holds;
    SaveKeepsAll(x, f);
    SaveSyncs(x, f);
  }

  // ---- all of fs_truncate ----

  function Resized(v: Vol, f: nat, size: nat): (r: Vol)
    requires Shape(v) && f < |v.inodes| && size < WORD
    ensures Shape(r) && |r.inodes| == |v.inodes|
  {
    SaveInode(SetInode(v, f, v.inodes[f].(size := size)), f)
  }

  /** fs_truncate. None: the allocator found no free block, which the source does not check. */
  function Truncate(v: Vol, f: nat, size: nat): (r: Option<Vol>)
    requires Shape(v) && f < |v.inodes| && size < WORD
    ensures r.Some? ==> Shape(r.value)
  {
    if size <= v.inodes[f].size then Some(TruncateTo(v, f, size))
    else
      match GetDataBlock(v, f, size, true)
      case Full => None
      case Missing => Some(Resized(v, f, size))
      case Found(u, _) => Some(Resized(u, f, size))
  }

  /** Making a file longer makes the one block its new end lies in, if the inode's range goes that far, and sets the
      size; all else stays as it was. */
  lemma GrowingIsRight(v: Vol, f: nat, size: nat)
    requires Stable(v) && f < |v.inodes| && v.inodes[f].size < size < WORD && Truncate(v, f, size).Some?
    ensures var w := Truncate(v, f, size).value;
            && Stable(w) && SlotsGrew(v, w, f) && w.inodes[f].size == size
            && (if size < MAX_BYTES then Opened(v, w, f, size / BLOCK_SIZE) else
                forall g, m :: 0 <= g < |v.inodes| && 0 <= m < MAX_BLOCKS ==> FileBlock(w, g, m) == FileBlock(v, g, m))
  {
    hide Holds, Own, GetDataBlock, IsUsed, FileBlock, SaveInode;
    GetDataBlockIsRight(v, f, size, true);
    var l := GetDataBlock(v, f, size, true);
    var u := if l.Found? then l.v else v;
    if l.Missing? {
      SlotsGrewIdle(v, f);
    }
    SizeIsSaved(u, f, size);
    SlotsGrewSame(v, u, Resized(u, f, size), f);
  }
}
