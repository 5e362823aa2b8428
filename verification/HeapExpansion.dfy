/** heap_expand as a whole: the pages behind the new part, and then the end marker. */
module HeapExpansion {
  import HeapBlocks
  import HeapManager
  import HeapTheorems
  import opened Frames

  /** Every page between the heap's start and end has a frame. */
  ghost predicate HeapBacked(h: HeapBlocks.Heap, pages: map<int, Page>)
    requires |h.blocks| >= 2
  {
    Backed(pages, h.blocks[0].addr / PAGE, (h.blocks[0].addr + HeapBlocks.Extent(h)) / PAGE)
  }

  lemma BackedFurther(was: map<int, Page>, pages: map<int, Page>, from: int, mid: int, to: int)
    requires Backed(was, from, mid) && Backed(pages, mid, to) && MappedMore(was, pages, mid, to)
    ensures Backed(pages, from, to)
  {
  }

  /** After an expansion all of the heap, the old part as well as the new, has frames; the pages that had one keep
      it. */
  method HeapExpand(heap: HeapManager.KernelHeap, paging: Paging, newSize: nat) returns (ok: bool)
    requires heap.Valid() && paging.Valid() && Used(paging.frames[..], 0)
    requires var size := HeapBlocks.RoundUp(newSize);
             size >= HeapBlocks.Extent(heap.View()) + HeapBlocks.HEADER && size % PAGE == 0
    requires HeapBacked(heap.View(), paging.pages)
    modifies heap, paging, paging.frames
    ensures heap.Valid() && paging.Valid() && Used(paging.frames[..], 0)
    ensures heap.View() == if ok then HeapBlocks.ExpandTo(old(heap.View()), newSize) else old(heap.View())
    ensures if ok then HeapBacked(heap.View(), paging.pages) else AllUsed(paging.frames[..])
    ensures forall n ::
      PageOf(old(paging.pages), n).frame != 0 ==> PageOf(paging.pages, n) == PageOf(old(paging.pages), n)
  {
    hide Used, AllUsed, Consistent, HeapBlocks.Valid, HeapBlocks.ExpandTo;
    ghost var h := heap.View();
    ShapeOf(h, newSize);
    var oldSize := heap.GetSize();
    var size := newSize;
    if size % 2 != 0 {
      size := size / PAGE * PAGE;
      size := size + PAGE;
    }
    ok := paging.BackHeap(heap.start, oldSize - 1, size, false, true);
    if ok {
      heap.Expand(newSize);
      BackedFurther(old(paging.pages), paging.pages, h.blocks[0].addr / PAGE,
                    (h.blocks[0].addr + HeapBlocks.Extent(h)) / PAGE, (h.blocks[0].addr + size) / PAGE);
    }
  }

  lemma ShapeOf(h: HeapBlocks.Heap, newSize: nat)
    requires HeapBlocks.Valid(h) && HeapBlocks.RoundUp(newSize) >= HeapBlocks.Extent(h) + HeapBlocks.HEADER
    ensures |h.blocks| >= 2 && HeapBlocks.Extent(h) >= 0
    ensures h.blocks[0].addr % PAGE == 0 && HeapBlocks.Extent(h) % PAGE == 0
    ensures var g := HeapBlocks.ExpandTo(h, newSize);
            && |g.blocks| >= 2 && g.blocks[0] == h.blocks[0] && HeapBlocks.Extent(g) == HeapBlocks.RoundUp(newSize)
  {
    hide HeapBlocks.HeadersUnknown;
    HeapBlocks.ValidExtent(h);
  }

  // ---- malloc, with the frames behind what it hands out ----

  /** Every byte of a block of the heap lies on a page with a frame. */
  lemma BlockIsBacked(h: HeapBlocks.Heap, pages: map<int, Page>, i: nat, a: int)
    requires HeapBlocks.Valid(h) && HeapBacked(h, pages) && 0 < i < |h.blocks| - 1
    requires h.blocks[i].addr <= a < h.blocks[i].End()
    ensures PageOf(pages, a / PAGE).frame != 0
  {
    hide HeapBlocks.HeadersUnknown;
    HeapBlocks.BlocksAreApart(h, 0, i);
    HeapBlocks.BlocksAreApart(h, i, |h.blocks| - 1);
    var s, e := h.blocks[0].addr, h.blocks[0].addr + HeapBlocks.Extent(h);
    PagesBetween(s, a, e);
  }

  lemma PagesBetween(s: nat, a: int, e: nat)
    requires s <= a < e && e % PAGE == 0
    ensures s / PAGE <= a / PAGE < e / PAGE
  {
  }

  lemma PlaceKeepsBacked(h: HeapBlocks.Heap, pages: map<int, Page>, i: nat, size: nat)
    requires HeapBlocks.Valid(h) && HeapBacked(h, pages) && 0 < i < |h.blocks|
    requires HeapBlocks.Hole(h.blocks, i) >= size + HeapBlocks.HEADER
    ensures var g := HeapBlocks.Place(h, i, size);
            && |g.blocks| >= 2 && HeapBacked(g, pages) && i < |g.blocks| - 1
            && g.blocks[i] == HeapBlocks.Block(h.blocks[i - 1].End(), size)
  {
    HeapBlocks.PlaceIsValid(h, i, size);
    assert HeapBlocks.Place(h, i, size).blocks[0] == h.blocks[0];
  }

  lemma ScannedMalloc(h: HeapBlocks.Heap, size: nat, pages: map<int, Page>)
    requires HeapBlocks.Valid(h) && HeapBacked(h, pages)
    requires HeapBlocks.Scan(h.blocks, size + HeapBlocks.HEADER, |h.blocks|).Some?
    ensures var (g, p) := HeapBlocks.Malloc(h, size);
            && |g.blocks| >= 2 && HeapBacked(g, pages)
            && forall a :: p <= a < p + size ==> PageOf(pages, a / PAGE).frame != 0
  {
    hide HeapBlocks.Valid, HeapBacked, HeapBlocks.Place, HeapBlocks.Hole;
    HeapTheorems.ValidShape(h);
    var i := HeapBlocks.Scan(h.blocks, size + HeapBlocks.HEADER, |h.blocks|).value;
    HeapBlocks.PlaceIsValid(h, i, size);
    PlaceKeepsBacked(h, pages, i, size);
    var (g, p) := HeapBlocks.Malloc(h, size);
    assert g == HeapBlocks.Place(h, i, size);
    forall a | p <= a < p + size ensures PageOf(pages, a / PAGE).frame != 0 {
      BlockIsBacked(g, pages, i, a);
    }
  }

  /** heap_mallocn with the paging behind it: the block that is handed out lies on pages that have frames, as all of
      the heap does. Where there are no frames left for the expansion, the source panics; nothing is handed out. */
  method MallocBacked(heap: HeapManager.KernelHeap, paging: Paging, size: nat) returns (p: nat, ok: bool)
    requires heap.Valid() && paging.Valid() && Used(paging.frames[..], 0)
    requires |heap.blocks| >= 2 && HeapBacked(heap.View(), paging.pages)
    modifies heap, paging, paging.frames
    ensures heap.Valid() && paging.Valid() && Used(paging.frames[..], 0)
    ensures |heap.blocks| >= 2
    ensures ok ==> (heap.View(), p) == HeapBlocks.Malloc(old(heap.View()), size)
    ensures ok ==> HeapBacked(heap.View(), paging.pages)
    ensures ok ==> forall a :: p <= a < p + size ==> PageOf(paging.pages, a / PAGE).frame != 0
    ensures !ok ==> heap.View() == old(heap.View()) && AllUsed(paging.frames[..])
    ensures forall n ::
      PageOf(old(paging.pages), n).frame != 0 ==> PageOf(paging.pages, n) == PageOf(old(paging.pages), n)
  {
    hide Used, AllUsed, Consistent, HeapBlocks.Valid, HeapBlocks.ExpandTo, HeapBacked, HeapBlocks.Scan,
         HeapBlocks.RoundUp;
    hide HeapBlocks.Place;
    ghost var h := heap.View();
    HeapTheorems.ValidShape(h);
    var found := heap.FindHole(size);
    p, ok := 0, true;
    if found.None? {
      NeedsFrames(h, size);
      var oldSize := heap.GetSize();
      ok := HeapExpand(heap, paging, oldSize + (size / HeapBlocks.STEP + 1) * HeapBlocks.STEP);
      if !ok {
        return;
      }
    }
    ghost var g := heap.View();
    HeapTheorems.ValidShape(g);
    ScannedMalloc(g, size, paging.pages);
    p := heap.Malloc(size);
  }

  lemma NeedsFrames(h: HeapBlocks.Heap, size: nat)
    requires HeapBlocks.Valid(h)
    ensures |h.blocks| >= 2 && HeapBlocks.Extent(h) >= 0
    ensures var n := HeapBlocks.WantedSize(h, size);
            && HeapBlocks.RoundUp(n) >= HeapBlocks.Extent(h) + HeapBlocks.HEADER && HeapBlocks.RoundUp(n) % PAGE == 0
            && h.blocks[0].addr + HeapBlocks.RoundUp(n) >= HeapBlocks.HEADER
            && var g := HeapBlocks.ExpandTo(h, n);
               && |g.blocks| >= 2 && HeapBlocks.Valid(g)
               && HeapBlocks.Scan(g.blocks, size + HeapBlocks.HEADER, |g.blocks|).Some?
               && (HeapBlocks.Scan(h.blocks, size + HeapBlocks.HEADER, |h.blocks|).None? ==>
                     HeapBlocks.Malloc(h, size) == HeapBlocks.Malloc(g, size))
  {
    hide HeapBlocks.HeadersUnknown, HeapBlocks.RoundUp, HeapBlocks.Scan, HeapBlocks.ExpandTo;
    HeapBlocks.ValidExtent(h);
    HeapBlocks.ExpandMakesRoom(h, size);
    HeapBlocks.ExpandIsValid(h, size);
    HeapBlocks.ExpansionIsExact(h, size);
    HeapBlocks.StepsArePages(HeapBlocks.Extent(h), size / HeapBlocks.STEP + 1);
  }
}
