/** The circular, doubly linked list of headers that stands for the blocks, and how the heap calls relink it. */
module HeapList {
  import opened Bytes
  import opened HeapBlocks
  import opened HeapTheorems

  datatype Header = Header(prev: int, next: int, size: nat)

  function Before(bs: seq<Block>, i: nat): int
    requires i < |bs|
  {
    bs[if i == 0 then |bs| - 1 else i - 1].addr
  }

  function After(bs: seq<Block>, i: nat): int
    requires i < |bs|
  {
    bs[if i == |bs| - 1 then 0 else i + 1].addr
  }

  /** The headers at the blocks' addresses form one ring, in the order of the blocks. */
  ghost predicate Linked(m: map<int, Header>, bs: seq<Block>) {
    forall i: nat :: i < |bs| ==> LinkedAt(m, bs, i)
  }

  ghost predicate LinkedAt(m: map<int, Header>, bs: seq<Block>, i: nat)
    requires i < |bs|
  {
    bs[i].addr in m && m[bs[i].addr] == Header(Before(bs, i), After(bs, i), bs[i].size)
  }

  ghost predicate IsBlock(bs: seq<Block>, a: int) { exists i: nat :: i < |bs| && bs[i].addr == a }

  /** A header that a freed block left behind is seen through by the test in heap_free. */
  ghost predicate StaleIsVisible(m: map<int, Header>, bs: seq<Block>) {
    forall a :: a in m && !IsBlock(bs, a) ==> SeenThrough(m, a)
  }

  ghost predicate SeenThrough(m: map<int, Header>, a: int)
    requires a in m
  {
    m[a].prev in m ==> m[m[a].prev].next != a
  }

  /** A header written at a overwrites whatever overlaps it. */
  function Put(m: map<int, Header>, a: int, hdr: Header): map<int, Header> {
    (map k | k in m && (k + HEADER <= a || a + HEADER <= k) :: m[k])[a := hdr]
  }

  /** A byte written at a overwrites the header it falls into. */
  function Overwrite(m: map<int, Header>, a: int): map<int, Header> {
    map k | k in m && !(k <= a < k + HEADER) :: m[k]
  }

  /** The list after heap_setup_block. */
  function Inserted(m: map<int, Header>, next: int, addr: int, size: nat): map<int, Header> {
    if next !in m then m
    else
      var prev := m[next].prev;
      var m1 := Put(m, addr, Header(prev, next, size));
      if prev !in m1 || next !in m1 then m1
      else
        var m2 := m1[prev := m1[prev].(next := addr)];
        m2[next := m2[next].(prev := addr)]
  }

  ghost predicate Increasing(bs: seq<Block>) {
    forall i, j :: 0 <= i < j < |bs| ==> bs[i].addr < bs[j].addr
  }

  lemma ValidIncreases(h: Heap)
    requires Valid(h)
    ensures Increasing(h.blocks)
  {
    forall i, j | 0 <= i < j < |h.blocks| ensures h.blocks[i].addr < h.blocks[j].addr {
      SortedApart(h.blocks, i, j);
    }
  }

  /** What the loops over the list see at block i. */
  lemma WalkAt(h: Heap, m: map<int, Header>, i: nat)
    requires Valid(h) && Linked(m, h.blocks) && i < |h.blocks|
    ensures var (bs, a) := (h.blocks, h.blocks[i].addr);
            && a in m && m[a].size == bs[i].size
            && m[a].next == (if i + 1 < |bs| then bs[i + 1].addr else bs[0].addr)
            && (i > 0 ==> a != bs[0].addr && m[a].prev == bs[i - 1].addr && bs[i - 1].addr in m
                          && m[bs[i - 1].addr].size == bs[i - 1].size
                          && a - (m[a].prev + HEADER + m[m[a].prev].size) == Hole(bs, i))
  {
    ValidIncreases(h);
    LinkedIs(m, h.blocks, i);
    if i > 0 {
      LinkedIs(m, h.blocks, i - 1);
      Apart(h.blocks, 0, i);
    }
  }

  lemma InsertedAt(h: Heap, m: map<int, Header>, i: nat, size: nat, j: nat)
    requires Valid(h) && Linked(m, h.blocks) && 0 < i < |h.blocks| && j < |h.blocks|
    requires Hole(h.blocks, i) >= size + HEADER
    ensures var (bs, addr) := (h.blocks, h.blocks[i - 1].End());
            var r := Inserted(m, bs[i].addr, addr, size);
            && bs[j].addr != addr && addr in r && r[addr] == Header(bs[i - 1].addr, bs[i].addr, size)
            && bs[j].addr in r
            && r[bs[j].addr] == if j == i - 1 then m[bs[j].addr].(next := addr)
                                else if j == i then m[bs[j].addr].(prev := addr) else m[bs[j].addr]
  {
    hide Valid, HeadersUnknown, Increasing;
    ValidIncreases(h);
    PlacedApart(h, i, size, i - 1);
    PlacedApart(h, i, size, i);
    PlacedApart(h, i, size, j);
    var bs := h.blocks;
    assert LinkedAt(m, bs, i) && LinkedAt(m, bs, i - 1) && LinkedAt(m, bs, j);
    Apart(bs, i, j);
    Apart(bs, i - 1, j);
    Apart(bs, i - 1, i);
  }

  lemma Apart(bs: seq<Block>, i: nat, j: nat)
    requires Increasing(bs) && i < |bs| && j < |bs|
    ensures bs[i].addr == bs[j].addr <==> i == j
  {
  }

  lemma InsertLinksAt(h: Heap, m: map<int, Header>, i: nat, size: nat, j: nat)
    requires Valid(h) && Linked(m, h.blocks) && 0 < i < |h.blocks| && Hole(h.blocks, i) >= size + HEADER
    requires j < |Place(h, i, size).blocks|
    ensures LinkedAt(Inserted(m, h.blocks[i].addr, h.blocks[i - 1].End(), size), Place(h, i, size).blocks, j)
  {
    hide Valid, Inserted, Clobber, Hole, Linked;
    ValidShape(h);
    var bs := h.blocks;
    if j == i {
      InsertedAt(h, m, i, size, i);
    } else {
      var k := if j < i then j else j - 1;
      InsertedAt(h, m, i, size, k);
      assert Place(h, i, size).blocks[j] == bs[k] && LinkedAt(m, bs, k) by {
        LinkedIs(m, bs, k);
      }
    }
  }

  lemma LinkedIs(m: map<int, Header>, bs: seq<Block>, i: nat)
    requires Linked(m, bs) && i < |bs|
    ensures LinkedAt(m, bs, i)
  {
  }

  lemma InsertLinks(h: Heap, m: map<int, Header>, i: nat, size: nat)
    requires Valid(h) && Linked(m, h.blocks) && 0 < i < |h.blocks| && Hole(h.blocks, i) >= size + HEADER
    ensures Linked(Inserted(m, h.blocks[i].addr, h.blocks[i - 1].End(), size), Place(h, i, size).blocks)
  {
    hide Valid, Inserted, Place, Hole, LinkedAt;
    var r, g := Inserted(m, h.blocks[i].addr, h.blocks[i - 1].End(), size), Place(h, i, size).blocks;
    forall j: nat | j < |g| ensures LinkedAt(r, g, j) {
      InsertLinksAt(h, m, i, size, j);
    }
  }

  lemma InsertStaysVisible(h: Heap, m: map<int, Header>, i: nat, size: nat)
    requires Valid(h) && Linked(m, h.blocks) && 0 < i < |h.blocks| && Hole(h.blocks, i) >= size + HEADER
    requires StaleIsVisible(m, h.blocks)
    ensures StaleIsVisible(Inserted(m, h.blocks[i].addr, h.blocks[i - 1].End(), size), Place(h, i, size).blocks)
  {
    hide Valid, Place, Hole, Linked;
    var bs, addr := h.blocks, h.blocks[i - 1].End();
    var r, g := Inserted(m, bs[i].addr, addr, size), Place(h, i, size).blocks;
    InsertedAt(h, m, i, size, i);
    InsertedAt(h, m, i, size, i - 1);
    LinkedIs(m, bs, i);
    forall a | a in r && !IsBlock(g, a) ensures SeenThrough(r, a) {
      assert !IsBlock(bs, a) && a != addr by {
        PlacedBlocks(h, i, size, a);
      }
      assert a in m && SeenThrough(m, a);
    }
  }

  lemma PlacedBlocks(h: Heap, i: nat, size: nat, a: int)
    requires 0 < i < |h.blocks|
    ensures IsBlock(Place(h, i, size).blocks, a) <==> IsBlock(h.blocks, a) || a == h.blocks[i - 1].End()
  {
    var g := Place(h, i, size).blocks;
    assert g[i].addr == h.blocks[i - 1].End();
    if IsBlock(h.blocks, a) {
      var j: nat :| j < |h.blocks| && h.blocks[j].addr == a;
      assert g[if j < i then j else j + 1] == h.blocks[j];
    }
    if IsBlock(g, a) {
      var j: nat :| j < |g| && g[j].addr == a;
      assert j == i || g[j] == h.blocks[if j < i then j else j - 1];
    }
  }

  // ---- free ----

  /** The list after heap_free has unlinked the header at a. */
  function Unlinked(m: map<int, Header>, a: int): map<int, Header> {
    if a !in m || m[a].prev !in m then m
    else
      var m1 := m[m[a].prev := m[m[a].prev].(next := m[a].next)];
      if m1[a].next !in m1 then m1 else m1[m1[a].next := m1[m1[a].next].(prev := m1[a].prev)]
  }

  lemma UnlinkedAt(h: Heap, m: map<int, Header>, i: nat, j: nat)
    requires Valid(h) && Linked(m, h.blocks) && IsLive(h, i) && j < |h.blocks|
    ensures var (bs, r) := (h.blocks, Unlinked(m, h.blocks[i].addr));
            && bs[j].addr in r
            && r[bs[j].addr] == if j == i - 1 then m[bs[j].addr].(next := bs[i + 1].addr)
                                else if j == i + 1 then m[bs[j].addr].(prev := bs[i - 1].addr) else m[bs[j].addr]
  {
    hide Valid, Linked, Increasing;
    ValidIncreases(h);
    var bs := h.blocks;
    LinkedIs(m, bs, i);
    LinkedIs(m, bs, i - 1);
    LinkedIs(m, bs, i + 1);
    LinkedIs(m, bs, j);
    Apart(bs, i - 1, i);
    Apart(bs, i + 1, i);
    Apart(bs, i - 1, i + 1);
    Apart(bs, i - 1, j);
    Apart(bs, i + 1, j);
  }

  lemma UnlinkLinks(h: Heap, m: map<int, Header>, i: nat)
    requires Valid(h) && Linked(m, h.blocks) && IsLive(h, i)
    ensures Linked(Unlinked(m, h.blocks[i].addr), Remove(h, i).blocks)
  {
    hide Valid, Unlinked, Linked;
    var bs, r, g := h.blocks, Unlinked(m, h.blocks[i].addr), Remove(h, i).blocks;
    forall j: nat | j < |g| ensures LinkedAt(r, g, j) {
      var k := if j < i then j else j + 1;
      UnlinkedAt(h, m, i, k);
      LinkedIs(m, bs, k);
      assert g[j] == bs[k];
    }
    AllLinked(r, g);
  }

  /** A header that passes the test in heap_free is that of a block. */
  lemma LinkedBlock(h: Heap, m: map<int, Header>, p: int) returns (i: nat)
    requires Valid(h) && Linked(m, h.blocks) && StaleIsVisible(m, h.blocks)
    requires p - HEADER in m && m[p - HEADER].prev in m && m[m[p - HEADER].prev].next == p - HEADER
    requires p - HEADER != h.blocks[0].addr && p - HEADER != h.blocks[|h.blocks| - 1].addr
    ensures IsLive(h, i) && h.blocks[i].Payload() == p
  {
    hide Linked;
    assert SeenThrough(m, p - HEADER) || IsBlock(h.blocks, p - HEADER);
    i :| i < |h.blocks| && h.blocks[i].addr == p - HEADER;
  }

  lemma BlockPassesTest(h: Heap, m: map<int, Header>, p: int)
    requires Valid(h) && Linked(m, h.blocks) && BlockAt(h, p).Some?
    ensures var a := p - HEADER; a in m && m[a].prev in m && m[m[a].prev].next == a
  {
    hide Valid, Linked;
    var i := BlockAt(h, p).value;
    LinkedIs(m, h.blocks, i);
    LinkedIs(m, h.blocks, i - 1);
  }

  lemma BlockIsReadable(h: Heap, m: map<int, Header>, b: Block)
    requires Valid(h) && Linked(m, h.blocks) && b in Live(h)
    ensures b.addr in m && m[b.addr].prev in m && m[b.addr].size == b.size
    ensures b.addr != h.blocks[0].addr && b.addr != h.blocks[|h.blocks| - 1].addr
  {
    hide Linked, Live, HeadersUnknown;
    var i := LiveIndex(h, b);
    WalkAt(h, m, i);
    SortedApart(h.blocks, i, |h.blocks| - 1);
  }

  lemma UnlinkSteps(h: Heap, m: map<int, Header>, i: nat)
    requires Valid(h) && Linked(m, h.blocks) && IsLive(h, i)
    ensures var a := h.blocks[i].addr;
            && a in m && m[a].prev in m && m[a].prev != a
            && var r := m[m[a].prev := m[m[a].prev].(next := m[a].next)];
               r[a].next in r && Unlinked(m, a) == r[r[a].next := r[r[a].next].(prev := r[a].prev)]
  {
    hide Valid, Linked;
    ValidIncreases(h);
    Apart(h.blocks, i, i - 1);
    LinkedIs(m, h.blocks, i);
    LinkedIs(m, h.blocks, i - 1);
    LinkedIs(m, h.blocks, i + 1);
  }

  lemma RemovedEnds(h: Heap, i: nat)
    requires IsLive(h, i)
    ensures var g := Remove(h, i).blocks;
            && |g| >= 2 && g[0] == h.blocks[0] && g[|g| - 1] == h.blocks[|h.blocks| - 1]
            && Remove(h, i).bytes == h.bytes
  {
  }

  lemma HeadersSpared(h: Heap, b: Block, a: int)
    requires Valid(h) && b in Live(h) && InPayload(b, a)
    ensures forall i: nat :: i < |h.blocks| ==> !InHeader(h.blocks[i], a)
  {
    hide HeadersUnknown, Live;
    var j := LiveIndex(h, b);
    forall i: nat | i < |h.blocks| ensures !InHeader(h.blocks[i], a) {
      if i < j {
        SortedApart(h.blocks, i, j);
      } else if j < i {
        SortedApart(h.blocks, j, i);
      }
    }
  }

  lemma AllLinked(m: map<int, Header>, bs: seq<Block>)
    requires forall i: nat :: i < |bs| ==> LinkedAt(m, bs, i)
    ensures Linked(m, bs)
  {
  }

  lemma RemainingBlocks(h: Heap, i: nat, a: int)
    requires i < |h.blocks| && IsBlock(h.blocks, a)
    ensures a == h.blocks[i].addr || IsBlock(Remove(h, i).blocks, a)
  {
    var j: nat :| j < |h.blocks| && h.blocks[j].addr == a;
    if j != i {
      assert Remove(h, i).blocks[if j < i then j else j - 1] == h.blocks[j];
    }
  }

  lemma UnlinkStaysVisible(h: Heap, m: map<int, Header>, i: nat)
    requires Valid(h) && Linked(m, h.blocks) && IsLive(h, i) && StaleIsVisible(m, h.blocks)
    ensures StaleIsVisible(Unlinked(m, h.blocks[i].addr), Remove(h, i).blocks)
  {
    hide Valid, Linked;
    var bs, r, g := h.blocks, Unlinked(m, h.blocks[i].addr), Remove(h, i).blocks;
    LinkedIs(m, bs, i);
    LinkedIs(m, bs, i - 1);
    LinkedIs(m, bs, i + 1);
    UnlinkedAt(h, m, i, i);
    UnlinkedAt(h, m, i, i - 1);
    UnlinkedAt(h, m, i, i + 1);
    ValidIncreases(h);
    forall a | a in r && !IsBlock(g, a) ensures SeenThrough(r, a) {
      if IsBlock(bs, a) {
        RemainingBlocks(h, i, a);
      }
      assert IsBlock(bs, bs[i + 1].addr) && IsBlock(bs, bs[i - 1].addr);
      Apart(bs, i, i + 1);
      Apart(bs, i, i - 1);
      assert a in m && (a == bs[i].addr || SeenThrough(m, a));
    }
  }

  // ---- expanding ----

  /** The list after heap_expand has put the end marker at addr. */
  function Extended(m: map<int, Header>, start: int, end: int, addr: int): map<int, Header> {
    if end !in m || m[end].prev !in m then m
    else
      var prev := m[end].prev;
      var m1 := Put(m[prev := m[prev].(next := addr)], addr, Header(prev, start, 0));
      if start !in m1 then m1 else m1[start := m1[start].(prev := addr, size := 0)]
  }

  /** Blocks gs are bs with the end marker moved up. */
  ghost predicate EndMoved(bs: seq<Block>, gs: seq<Block>) {
    && |gs| == |bs| >= 2 && (forall k :: 0 <= k < |bs| - 1 ==> gs[k] == bs[k])
    && bs[0].size == 0 && bs[|bs| - 1].End() <= gs[|gs| - 1].addr && gs[|gs| - 1].size == 0
  }

  lemma BelowEnd(h: Heap, addr: nat, j: nat)
    requires Valid(h) && j < |h.blocks| && h.blocks[|h.blocks| - 1].End() <= addr
    ensures h.blocks[j].addr + HEADER <= addr
  {
    hide HeadersUnknown;
    if j < |h.blocks| - 1 {
      SortedApart(h.blocks, j, |h.blocks| - 1);
    }
  }

  lemma ExtendedAt(h: Heap, m: map<int, Header>, gs: seq<Block>, j: nat)
    requires Valid(h) && Linked(m, h.blocks) && EndMoved(h.blocks, gs) && j < |gs| - 1
    ensures var (n, addr) := (|gs|, gs[|gs| - 1].addr);
            var r := Extended(m, gs[0].addr, h.blocks[n - 1].addr, addr);
            && addr in r && r[addr] == Header(gs[n - 2].addr, gs[0].addr, 0) && gs[j].addr in r
            && r[gs[j].addr] == Header(Before(gs, j), After(gs, j), gs[j].size)
  {
    hide Valid, Linked, Increasing;
    ValidIncreases(h);
    var bs, n := h.blocks, |gs|;
    var addr := gs[n - 1].addr;
    LinkedIs(m, bs, n - 1);
    LinkedIs(m, bs, n - 2);
    LinkedIs(m, bs, 0);
    LinkedIs(m, bs, j);
    Apart(bs, 0, j);
    Apart(bs, n - 2, j);
    BelowEnd(h, addr, 0);
    BelowEnd(h, addr, j);
    BelowEnd(h, addr, n - 2);
  }

  lemma ExtendLinks(h: Heap, m: map<int, Header>, gs: seq<Block>)
    requires Valid(h) && Linked(m, h.blocks) && EndMoved(h.blocks, gs)
    ensures Linked(Extended(m, gs[0].addr, h.blocks[|gs| - 1].addr, gs[|gs| - 1].addr), gs)
  {
    hide Valid, Linked, Extended;
    var n := |gs|;
    var r := Extended(m, gs[0].addr, h.blocks[n - 1].addr, gs[n - 1].addr);
    forall j: nat | j < n ensures LinkedAt(r, gs, j) {
      ExtendedAt(h, m, gs, if j == n - 1 then 0 else j);
    }
    AllLinked(r, gs);
  }

  lemma ExtendStaysVisible(h: Heap, m: map<int, Header>, gs: seq<Block>)
    requires Valid(h) && Linked(m, h.blocks) && EndMoved(h.blocks, gs) && StaleIsVisible(m, h.blocks)
    ensures StaleIsVisible(Extended(m, gs[0].addr, h.blocks[|gs| - 1].addr, gs[|gs| - 1].addr), gs)
  {
    hide Valid, Linked;
    var bs, n := h.blocks, |gs|;
    var end, addr := bs[n - 1].addr, gs[n - 1].addr;
    var r := Extended(m, gs[0].addr, end, addr);
    LinkedIs(m, bs, n - 1);
    LinkedIs(m, bs, n - 2);
    ExtendedAt(h, m, gs, 0);
    ExtendedAt(h, m, gs, n - 2);
    forall a | a in r && !IsBlock(gs, a) ensures SeenThrough(r, a) {
      assert a != addr && a != gs[0].addr && a != gs[n - 2].addr;
      assert a == end || !IsBlock(bs, a) by {
        EndMovedBlocks(bs, gs, a);
      }
      assert a in m && (a == end || SeenThrough(m, a));
    }
  }

  lemma EndMovedBlocks(bs: seq<Block>, gs: seq<Block>, a: int)
    requires EndMoved(bs, gs)
    ensures IsBlock(bs, a) ==> IsBlock(gs, a) || a == bs[|bs| - 1].addr
  {
    if IsBlock(bs, a) {
      var j: nat :| j < |bs| && bs[j].addr == a;
      if j < |bs| - 1 {
        assert gs[j] == bs[j];
      }
    }
  }

  lemma ExpandedIsEndMoved(h: Heap, newSize: nat)
    requires Valid(h) && RoundUp(newSize) >= Extent(h) + HEADER
    ensures EndMoved(h.blocks, ExpandTo(h, newSize).blocks)
  {
    hide HeadersUnknown;
  }

  lemma ExpandedParts(h: Heap, newSize: nat)
    requires |h.blocks| >= 2 && h.blocks[0].addr + RoundUp(newSize) >= HEADER
    ensures var (g, n) := (ExpandTo(h, newSize), |h.blocks|);
            && |g.blocks| == n && g.blocks[0] == h.blocks[0]
            && g.blocks[n - 1] == Block(h.blocks[0].addr + RoundUp(newSize) - HEADER, 0)
            && g.bytes == Clobber(h.bytes, g.blocks[n - 1].addr)
  {
  }

  lemma ExpandedIsValid(h: Heap, newSize: nat)
    requires Valid(h) && RoundUp(newSize) >= Extent(h) + HEADER && RoundUp(newSize) % PAGE == 0
    ensures Valid(ExpandTo(h, newSize))
  {
    var g, n := ExpandTo(h, newSize), |h.blocks|;
    assert g.blocks[0] == h.blocks[0];
    forall j | 0 <= j < n - 1 ensures g.blocks[j].End() <= g.blocks[j + 1].addr {
      assert h.blocks[j].End() <= h.blocks[j + 1].addr;
    }
    forall j, k | 0 <= j < n && k in g.bytes ensures !InHeader(g.blocks[j], k) {
      if j < n - 1 {
        assert g.blocks[j] == h.blocks[j];
      }
    }
  }

  // ---- changing a size, storing a byte ----

  lemma SameAddresses(bs: seq<Block>, gs: seq<Block>, a: int)
    requires |bs| == |gs| && forall j :: 0 <= j < |bs| ==> bs[j].addr == gs[j].addr
    ensures IsBlock(bs, a) ==> IsBlock(gs, a)
  {
  }

  lemma ResizeLinks(h: Heap, m: map<int, Header>, i: nat, size: nat)
    requires Valid(h) && Linked(m, h.blocks) && i < |h.blocks| && StaleIsVisible(m, h.blocks)
    requires h.blocks[i].addr in m
    ensures var (r, g) := (m[h.blocks[i].addr := m[h.blocks[i].addr].(size := size)],
                           h.blocks[i := Block(h.blocks[i].addr, size)]);
            Linked(r, g) && StaleIsVisible(r, g)
  {
    hide Valid, Linked;
    ValidIncreases(h);
    var bs, g := h.blocks, h.blocks[i := Block(h.blocks[i].addr, size)];
    var r := m[bs[i].addr := m[bs[i].addr].(size := size)];
    forall j: nat | j < |g| ensures LinkedAt(r, g, j) {
      LinkedIs(m, bs, j);
      Apart(bs, i, j);
    }
    AllLinked(r, g);
    forall a | a in r && !IsBlock(g, a) ensures SeenThrough(r, a) {
      SameAddresses(bs, g, a);
      assert SeenThrough(m, a);
    }
  }

  lemma OverwriteLinks(m: map<int, Header>, bs: seq<Block>, a: int)
    requires Linked(m, bs) && StaleIsVisible(m, bs)
    requires forall i: nat :: i < |bs| ==> !InHeader(bs[i], a)
    ensures Linked(Overwrite(m, a), bs) && StaleIsVisible(Overwrite(m, a), bs)
  {
    hide Linked;
    var r := Overwrite(m, a);
    forall j: nat | j < |bs| ensures LinkedAt(r, bs, j) {
      LinkedIs(m, bs, j);
      assert !InHeader(bs[j], a);
    }
    AllLinked(r, bs);
    forall k | k in r && !IsBlock(bs, k) ensures SeenThrough(r, k) {
      assert SeenThrough(m, k);
    }
  }

  // ---- a new heap ----

  function NewBlocks(s: nat, e: nat): seq<Block> { [Block(s, 0), Block(e, 0)] }

  function NewHeaders(s: nat, e: nat): map<int, Header> { map[s := Header(e, e, 0), e := Header(s, s, 0)] }

  lemma NewHeapIsValid(s: nat, e: nat)
    requires s % PAGE == 0 && (e + HEADER) % PAGE == 0 && s + HEADER <= e
    ensures Valid(Heap(NewBlocks(s, e), map[]))
    ensures Linked(NewHeaders(s, e), NewBlocks(s, e)) && StaleIsVisible(NewHeaders(s, e), NewBlocks(s, e))
  {
    var h := Heap(NewBlocks(s, e), map[]);
    var x := (e + HEADER) / PAGE - s / PAGE;
    assert Extent(h) == x * PAGE;
    assert h.blocks[0].addr == s && h.blocks[1].addr == e;
    assert IsBlock(h.blocks, s) && IsBlock(h.blocks, e);
  }
}
