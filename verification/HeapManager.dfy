/** The heap as the kernel keeps it: headers in memory, relinked in place. */
module HeapManager {
  import opened Bytes
  import opened Options
  import opened HeapBlocks
  import opened HeapTheorems
  import opened HeapRealloc
  import opened HeapList

  class KernelHeap {
    var start: int
    var end: int
    var headers: map<int, Header>   // every header in memory, also those freed blocks left behind
    var bytes: map<int, byte>
    ghost var blocks: seq<Block>

    ghost function View(): Heap
      reads this
    {
      Heap(blocks, bytes)
    }

    /** The list in memory is one ring through the blocks in address order, from start to end and back. */
    ghost predicate Valid()
      reads this
    {
      && HeapBlocks.Valid(View())
      && start == blocks[0].addr && end == blocks[|blocks| - 1].addr
      && Linked(headers, blocks) && StaleIsVisible(headers, blocks)
    }

    /** create_heap. As in heap_expand the test for alignment sees the lowest bit only, so that the caller has to
        pass page addresses. */
    constructor (startAddr: nat, endAddr: nat)
      requires startAddr % PAGE == 0 && endAddr % PAGE == 0 && startAddr < endAddr
      ensures Valid() && Live(View()) == [] && View().bytes == map[]
      ensures start == startAddr && end + HEADER == endAddr
    {
      hide HeapBlocks.Valid, Linked, StaleIsVisible;
      var s, e := RoundUp(startAddr), endAddr - HEADER;
      start, end := s, e;
      headers := map[s := Header(e, e, 0), e := Header(s, s, 0)];
      bytes := map[];
      blocks := NewBlocks(s, e);
      NewHeapIsValid(s, e);
    }

    /** heap_get_size. */
    method GetSize() returns (size: int)
      requires Valid()
      ensures size == HeapBlocks.GetSize(View())
    {
      size := end + HEADER - start + 1;
    }

    /** heap_setup_block, where the hole is large enough. */
    method SetupBlock(next: int, position: nat, size: nat, ghost i: nat) returns (hdr: int)
      requires Valid() && 0 < i < |blocks| && Hole(blocks, i) >= size + HEADER
      requires next == blocks[i].addr && position == blocks[i - 1].End()
      modifies this
      ensures Valid() && View() == Place(old(View()), i, size) && hdr == position
    {
      hide HeapBlocks.Valid, Linked, StaleIsVisible, Hole;
      InsertLinks(View(), headers, i, size);
      InsertStaysVisible(View(), headers, i, size);
      PlaceIsValid(View(), i, size);
      LinkedIs(headers, blocks, i);
      InsertedAt(View(), headers, i, size, i);
      InsertedAt(View(), headers, i, size, i - 1);
      blocks := Place(View(), i, size).blocks;
      bytes := Clobber(bytes, position);
      headers := Put(headers, position, Header(headers[next].prev, next, size));
      var prev := headers[next].prev;
      headers := headers[prev := headers[prev].(next := position)];
      headers := headers[next := headers[next].(prev := position)];
      hdr := position;
    }

    /** heap_expand, without the pages behind the new part: the end marker moves up. */
    method Expand(newSize: nat)
      requires Valid() && RoundUp(newSize) >= Extent(View()) + HEADER && RoundUp(newSize) % PAGE == 0
      modifies this
      ensures Valid() && View() == ExpandTo(old(View()), newSize)
    {
      hide HeapBlocks.Valid, Linked, StaleIsVisible, EndMoved, ExpandTo, Put, Clobber;
      ValidShape(View());
      ghost var h, n := View(), |blocks|;
      ExpandedParts(h, newSize);
      ghost var g := ExpandTo(h, newSize);
      ExpandedIsValid(h, newSize);
      ExpandedIsEndMoved(h, newSize);
      ExtendLinks(h, headers, g.blocks);
      ExtendStaysVisible(h, headers, g.blocks);
      ExtendedAt(h, headers, g.blocks, 0);
      LinkedIs(headers, blocks, n - 1);
      LinkedIs(headers, blocks, n - 2);
      var size := newSize;
      if size % 2 != 0 {
        size := size / PAGE * PAGE;
        size := size + PAGE;
      }
      var endHeader := start + size - HEADER;
      var tmp := headers[end].prev;
      headers := headers[tmp := headers[tmp].(next := endHeader)];
      end := endHeader;
      headers := Put(headers, end, Header(tmp, start, 0));
      headers := headers[start := headers[start].(prev := end, size := 0)];
      bytes := Clobber(bytes, end);
      blocks := g.blocks;
    }

    /** The search in heap_mallocn: the block after the hole to use. */
    method FindHole(size: nat) returns (found: Option<int>)
      requires Valid()
      ensures match Scan(blocks, size + HEADER, |blocks|)
              case None => found == None
              case Some(i) => found == Some(blocks[i].addr)
    {
      hide HeapBlocks.Valid, Linked, StaleIsVisible, Sorted, Scan, Hole;
      ghost var h, bs := View(), blocks;
      ValidShape(h);
      ScanStep(bs, size + HEADER, 1);
      WalkAt(h, headers, 0);
      WalkAt(h, headers, |bs| - 1);
      found := None;
      var biggest, current := 0, headers[start].next;
      ghost var i, best: Option<nat> := 1, None;
      while current != headers[end].next
        invariant 0 < i <= |bs| && current == (if i < |bs| then bs[i].addr else bs[0].addr)
        invariant best == Scan(bs, size + HEADER, i)
        invariant match best
                  case None => found == None && biggest == 0
                  case Some(b) => found == Some(bs[b].addr) && biggest == Hole(bs, b)
        decreases |bs| - i
      {
        WalkAt(h, headers, i);
        ScanStep(bs, size + HEADER, i);
        var prev := headers[current].prev;
        var position := prev + HEADER + headers[prev].size;
        if current - position >= size + HEADER && current - position > biggest {
          found := Some(current);
          biggest := current - position;
          best := Some(i);
        }
        current := headers[current].next;
        i := i + 1;
      }
      if i < |bs| {
        WalkAt(h, headers, i);
      }
    }

    /** heap_mallocn. */
    method Malloc(size: nat) returns (p: nat)
      requires Valid()
      modifies this
      ensures Valid() && (View(), p) == HeapBlocks.Malloc(old(View()), size)
      decreases if Scan(blocks, size + HEADER, |blocks|).Some? then 0 else 1
    {
      hide HeapBlocks.Valid, Linked, StaleIsVisible, ExpandTo, Place, Scan, Sorted;
      ValidShape(View());
      var found := FindHole(size);
      if found.Some? {
        ghost var at := Scan(blocks, size + HEADER, |blocks|).value;
        WalkAt(View(), headers, at);
        var prev := headers[found.value].prev;
        var hdr := SetupBlock(found.value, prev + HEADER + headers[prev].size, size, at);
        p := hdr + HEADER;
      } else {
        var oldSize := GetSize();
        ExpandIsValid(View(), size);
        ExpandMakesRoom(View(), size);
        Expand(oldSize + (size / STEP + 1) * STEP);
        p := Malloc(size);
      }
    }

    /** heap_free of an address below which a header lies, or lay and can still be read. */
    method Free(p: int) returns (freed: bool)
      requires Valid() && p - HEADER in headers && headers[p - HEADER].prev in headers
      requires p - HEADER != start && p - HEADER != end
      modifies this
      ensures Valid() && View() == HeapTheorems.Free(old(View()), p) && freed == BlockAt(old(View()), p).Some?
    {
      hide HeapBlocks.Valid, Linked, StaleIsVisible, BlockAt, Remove;
      var hdr := p - HEADER;
      ghost var h := View();
      if BlockAt(h, p).Some? {
        BlockPassesTest(h, headers, p);
      }
      if headers[headers[hdr].prev].next == hdr {
        ghost var i := LinkedBlock(h, headers, p);
        BlockAtIsUnique(h, i);
        UnlinkLinks(h, headers, i);
        UnlinkStaysVisible(h, headers, i);
        RemoveIsValid(h, i);
        RemovedEnds(h, i);
        UnlinkSteps(h, headers, i);
        var prev := headers[hdr].prev;
        headers := headers[prev := headers[prev].(next := headers[hdr].next)];
        var next := headers[hdr].next;
        headers := headers[next := headers[next].(prev := headers[hdr].prev)];
        blocks := Remove(h, i).blocks;
        freed := true;
      } else {
        freed := false;
      }
    }

    /** A byte written into a block, known or not. */
    method Write(a: int, v: Option<byte>, ghost b: Block)
      requires Valid() && b in Live(View()) && InPayload(b, a)
      modifies this
      ensures Valid() && View() == old(View()).(bytes := if v.Some? then old(bytes)[a := v.value] else old(bytes) - {a})
    {
      hide HeapBlocks.Valid, Linked, StaleIsVisible, Live;
      ghost var h := View();
      HeadersSpared(h, b, a);
      OverwriteLinks(headers, blocks, a);
      headers := Overwrite(headers, a);
      bytes := if v.Some? then bytes[a := v.value] else bytes - {a};
      BytesInPayload(h, bytes, b);
    }

    /** memcpy into block d, where the ranges do not overlap. */
    method Memcpy(dst: nat, src: nat, n: nat, ghost d: Block)
      requires Valid() && d in Live(View()) && Within(d, dst, n)
      requires src + n <= dst || dst + n <= src
      modifies this
      ensures Valid() && View() == old(View()).(bytes := Copy(old(bytes), dst, src, n))
    {
      hide HeapBlocks.Valid, Linked, StaleIsVisible, Live, Copy;
      CopyNext(bytes, dst, src, 0);
      var i := 0;
      while i < n
        invariant i <= n && Valid() && View() == old(View()).(bytes := Copy(old(bytes), dst, src, i))
        invariant d in Live(View())
      {
        CopyNext(old(bytes), dst, src, i);
        CopyAt(old(bytes), dst, src, i, src + i);
        Write(dst + i, if src + i in bytes then Some(bytes[src + i]) else None, d);
        SameBlocks(old(View()), View());
        i := i + 1;
      }
    }

    /** memmove from block b to block d: by way of a block of its own. */
    method Memmove(dst: nat, src: nat, n: nat, ghost d: Block, ghost b: Block)
      requires Valid() && d in Live(View()) && b in Live(View()) && Within(d, dst, n) && Within(b, src, n)
      modifies this
      ensures Valid() && View() == HeapRealloc.Memmove(old(View()), dst, src, n)
    {
      hide HeapBlocks.Valid, Linked, StaleIsVisible, Live, HeapTheorems.Free, HeapBlocks.Malloc, Copy;
      hide AllUntouched, Grows, WorstFit, BlockAt;
      ghost var h := View();
      MallocIsRight(h, n);
      var temp := Malloc(n);
      ghost var x, t := View(), Block(temp - HEADER, n);
      assert t in multiset(Live(x));
      assert d in multiset(Live(h)) && d in multiset(Live(x)) && b in multiset(Live(h)) && b in multiset(Live(x));
      TempIsApart(h, x, temp, n, b, src);
      Memcpy(temp, src, n, t);
      SameBlocks(x, View());
      TempIsApart(h, x, temp, n, d, dst);
      Memcpy(dst, temp, n, d);
      SameBlocks(x, View());
      BlockIsReadable(View(), headers, t);
      var _ := Free(temp);
    }

    /** realloc of a block, where malloc finds memory. */
    method Realloc(p: nat, size: nat) returns (q: nat)
      requires Valid() && BlockAt(View(), p).Some?
      modifies this
      ensures Valid() && (View(), q) == HeapRealloc.Realloc(old(View()), BlockAt(old(View()), p).value, size)
    {
      hide HeapBlocks.Valid, Linked, StaleIsVisible, Live, HeapTheorems.Free, HeapBlocks.Malloc, HeapRealloc.Memmove;
      hide AllUntouched, Grows, WorstFit, BlockAt, Copied;
      ghost var h, i := View(), BlockAt(View(), p).value;
      var hdr := p - HEADER;
      WalkAt(h, headers, i);
      ghost var b := blocks[i];
      LiveAt(h, i);
      if headers[hdr].next >= p + size {
        ResizedIsValid(h, i, size);
        ResizeLinks(h, headers, i, size);
        headers := headers[hdr := headers[hdr].(size := size)];
        blocks := blocks[i := Block(hdr, size)];
        q := p;
      } else {
        ResizeMoves(h, i, size);
        MallocIsRight(h, size);
        q := Malloc(size);
        ghost var x, nb := View(), Block(q - HEADER, size);
        assert nb in multiset(Live(x)) && b in multiset(Live(h)) && b in multiset(Live(x));
        BlockIsReadable(x, headers, b);
        MemmoveIsRight(x, q, p, b.size, nb, b);
        Memmove(q, p, headers[hdr].size, nb, b);
        assert b in multiset(Live(View()));
        BlockIsReadable(View(), headers, b);
        var _ := Free(p);
      }
    }
  }
}
