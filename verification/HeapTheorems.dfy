/** What users of malloc, free and realloc can rely on, over single calls and over whole runs. */
module HeapTheorems {
  import opened Bytes
  import opened Options
  import opened HeapBlocks

  /** The blocks the user has. */
  function Live(h: Heap): seq<Block> {
    if |h.blocks| < 2 then [] else h.blocks[1..|h.blocks| - 1]
  }

  /** The byte at j is known in h exactly if the one at k is known in g, and then they are the same. */
  ghost predicate EqualByte(h: Heap, j: int, g: Heap, k: int) {
    (j in h.bytes <==> k in g.bytes) && (j in h.bytes ==> h.bytes[j] == g.bytes[k])
  }

  /** All bytes of the user's block b are the same in h and g. */
  ghost predicate Untouched(h: Heap, g: Heap, b: Block) {
    forall k :: InPayload(b, k) ==> EqualByte(h, k, g, k)
  }

  ghost predicate AllUntouched(h: Heap, g: Heap) {
    forall b :: b in Live(h) ==> Untouched(h, g, b)
  }

  /** From h to g one block was added at p, in a place of its own, and no other block or byte of a block changed. */
  ghost predicate Added(h: Heap, g: Heap, p: nat, size: nat) {
    && p >= HEADER
    && Block(p - HEADER, size) !in Live(h)
    && multiset(Live(g)) == multiset(Live(h)) + multiset{Block(p - HEADER, size)}
    && AllUntouched(h, g)
  }

  lemma LiveIndex(h: Heap, b: Block) returns (i: nat)
    requires b in Live(h)
    ensures IsLive(h, i) && h.blocks[i] == b
  {
    var j :| 0 <= j < |Live(h)| && Live(h)[j] == b;
    i := j + 1;
    assert h.blocks[i] == b;
  }

  lemma LiveAt(h: Heap, i: nat)
    requires IsLive(h, i)
    ensures h.blocks[i] in Live(h)
  {
    assert Live(h)[i - 1] == h.blocks[i];
  }

  /** A header put into a hole covers no byte of any block. */
  lemma ClobberSparesBlocks(h: Heap, addr: nat)
    requires forall i :: IsLive(h, i) ==> h.blocks[i].End() <= addr || addr + HEADER <= h.blocks[i].addr
    ensures forall b :: b in Live(h) ==> Untouched(h, h.(bytes := Clobber(h.bytes, addr)), b)
  {
    forall b | b in Live(h) ensures Untouched(h, h.(bytes := Clobber(h.bytes, addr)), b) {
      var i := LiveIndex(h, b);
    }
  }

  lemma UntouchedBytes(h: Heap, g: Heap, x: Heap)
    requires g.bytes == x.bytes && AllUntouched(h, g)
    ensures AllUntouched(h, x)
  {
    forall b | b in Live(h) ensures Untouched(h, x, b) {
      assert Untouched(h, g, b);
    }
  }

  lemma PlacedApart(h: Heap, i: nat, size: nat, j: nat)
    requires Valid(h) && 0 < i < |h.blocks| && Hole(h.blocks, i) >= size + HEADER && j < |h.blocks|
    ensures var a := h.blocks[i - 1].End();
            if j < i then h.blocks[j].End() <= a else a + HEADER + size <= h.blocks[j].addr
  {
    hide HeadersUnknown;
    if j < i - 1 {
      SortedApart(h.blocks, j, i - 1);
    } else if j > i {
      SortedApart(h.blocks, i, j);
    }
  }

  lemma PlaceAddsBlock(h: Heap, i: nat, size: nat)
    requires |h.blocks| >= 2 && 0 < i < |h.blocks|
    ensures multiset(Live(Place(h, i, size))) == multiset(Live(h)) + multiset{Block(h.blocks[i - 1].End(), size)}
  {
    var b, bs, n := Block(h.blocks[i - 1].End(), size), h.blocks, |h.blocks|;
    assert Live(Place(h, i, size)) == bs[1..i] + [b] + bs[i..n - 1];
    assert Live(h) == bs[1..i] + bs[i..n - 1];
  }

  lemma PlaceAdds(h: Heap, i: nat, size: nat)
    requires Valid(h) && 0 < i < |h.blocks| && Hole(h.blocks, i) >= size + HEADER
    ensures Added(h, Place(h, i, size), h.blocks[i - 1].End() + HEADER, size)
  {
    hide Live, Untouched, Hole, Valid;
    var g, b := Place(h, i, size), Block(h.blocks[i - 1].End(), size);
    ValidShape(h);
    forall j: nat | j < |h.blocks|
      ensures if j < i then h.blocks[j].End() <= b.addr else b.End() <= h.blocks[j].addr
    {
      PlacedApart(h, i, size, j);
    }
    PlaceAddsBlock(h, i, size);
    ClobberSparesBlocks(h, b.addr);
    UntouchedBytes(h, h.(bytes := Clobber(h.bytes, b.addr)), g);
    if b in Live(h) {
      var j := LiveIndex(h, b);
      assert false;
    }
  }

  lemma ValidShape(h: Heap)
    requires Valid(h)
    ensures |h.blocks| >= 2 && Sorted(h.blocks)
  {
  }

  lemma ExpandSpares(h: Heap, size: nat)
    requires Valid(h)
    ensures Extent(h) >= 0 && h.blocks[0].addr + ExpandedSize(h, size) >= HEADER
    ensures Live(Expand(h, size)) == Live(h) && AllUntouched(h, Expand(h, size))
  {
    hide Untouched, HeadersUnknown;
    ExpandIsValid(h, size);
    var g := Expand(h, size);
    var end := g.blocks[|g.blocks| - 1];
    assert Live(g) == Live(h);
    forall j: nat | IsLive(h, j) ensures h.blocks[j].End() <= end.addr {
      SortedApart(h.blocks, j, |h.blocks| - 1);
    }
    ClobberSparesBlocks(h, end.addr);
    UntouchedBytes(h, h.(bytes := Clobber(h.bytes, end.addr)), g);
  }

  lemma UntouchedTwice(h: Heap, g: Heap, x: Heap)
    requires AllUntouched(h, g) && AllUntouched(g, x) && multiset(Live(h)) <= multiset(Live(g))
    ensures AllUntouched(h, x)
  {
    hide Live;
    forall b | b in Live(h) ensures Untouched(h, x, b) {
      assert b in multiset(Live(h));
      assert b in multiset(Live(g));
      assert Untouched(h, g, b) && Untouched(g, x, b);
      forall k | InPayload(b, k) ensures EqualByte(h, k, x, k) {
        assert EqualByte(h, k, g, k) && EqualByte(g, k, x, k);
      }
    }
  }

  /** What malloc does to the heap itself. */
  ghost predicate Grows(h: Heap, size: nat, g: Heap, p: nat)
    requires Valid(h)
  {
    && |g.blocks| >= 2
    && match Scan(h.blocks, size + HEADER, |h.blocks|)
       case Some(i) => p == h.blocks[i - 1].End() + HEADER && Extent(g) == Extent(h)
       case None => Extent(g) == Extent(h) + (size / STEP + 1) * STEP + PAGE
  }

  lemma MallocExpanding(h: Heap, size: nat)
    requires Valid(h) && Scan(h.blocks, size + HEADER, |h.blocks|).None?
    ensures var (g, p) := Malloc(h, size); Valid(g) && Added(h, g, p, size) && Grows(h, size, g, p)
  {
    hide Valid, AllUntouched, Place, Live, Expand, Extent, Hole, ExpandedSize, Scan, Sorted;
    ValidShape(h);
    ExpandIsValid(h, size);
    ExpandMakesRoom(h, size);
    ExpandSpares(h, size);
    var x := Expand(h, size);
    var i := Scan(x.blocks, size + HEADER, |x.blocks|).value;
    PlaceIsValid(x, i, size);
    PlaceAdds(x, i, size);
    ValidShape(Place(x, i, size));
    UntouchedTwice(h, x, Place(x, i, size));
  }

  /** malloc adds one block of the size asked for and changes nothing of any other. If no expansion is needed, the
      block is put into the lowest-addressed of the largest holes; if no hole is large enough the heap grows, once,
      by exactly size/1 MiB + 1 MiB and a page, and then the call succeeds. */
  lemma MallocIsRight(h: Heap, size: nat)
    requires Valid(h)
    ensures var (g, p) := Malloc(h, size); Valid(g) && Added(h, g, p, size) && Grows(h, size, g, p)
    ensures WorstFit(h.blocks, size + HEADER, |h.blocks|, Scan(h.blocks, size + HEADER, |h.blocks|))
  {
    hide Valid, Added, Place, Extent, Hole, Scan, Sorted, WorstFit;
    ValidShape(h);
    ScanIsWorstFit(h.blocks, size + HEADER, |h.blocks|);
    match Scan(h.blocks, size + HEADER, |h.blocks|)
    case Some(i) =>
      PlaceIsValid(h, i, size);
      PlaceAdds(h, i, size);
      ValidShape(Place(h, i, size));
    case None =>
      MallocExpanding(h, size);
  }

  // ---- free ----

  function Find(bs: seq<Block>, addr: int, i: nat): (r: Option<nat>)
    requires i <= |bs|
    ensures r.Some? ==> i <= r.value < |bs| && bs[r.value].addr == addr
    ensures r.None? ==> forall j :: i <= j < |bs| ==> bs[j].addr != addr
    decreases |bs| - i
  {
    if i == |bs| then None else if bs[i].addr == addr then Some(i) else Find(bs, addr, i + 1)
  }

  /** The user's block with payload at p. */
  function BlockAt(h: Heap, p: int): (r: Option<nat>)
    ensures r.Some? ==> IsLive(h, r.value) && h.blocks[r.value].Payload() == p
  {
    match Find(h.blocks, p - HEADER, 0)
    case None => None
    case Some(i) => if IsLive(h, i) then Some(i) else None
  }

  function Remove(h: Heap, i: nat): Heap
    requires i < |h.blocks|
  {
    h.(blocks := h.blocks[..i] + h.blocks[i + 1..])
  }

  /** heap_free: an address that is no block's payload is reported and nothing happens. */
  function Free(h: Heap, p: int): Heap {
    match BlockAt(h, p)
    case None => h
    case Some(i) => Remove(h, i)
  }

  lemma BlockAtIsUnique(h: Heap, i: nat)
    requires Valid(h) && IsLive(h, i)
    ensures BlockAt(h, h.blocks[i].Payload()) == Some(i)
  {
    hide HeadersUnknown;
    var j := Find(h.blocks, h.blocks[i].addr, 0).value;
    if j < i {
      SortedApart(h.blocks, j, i);
    } else if i < j {
      SortedApart(h.blocks, i, j);
    }
  }

  lemma RemoveIsValid(h: Heap, i: nat)
    requires Valid(h) && IsLive(h, i)
    ensures Valid(Remove(h, i)) && Extent(Remove(h, i)) == Extent(h)
  {
    var g := Remove(h, i);
    SortedApart(h.blocks, i - 1, i + 1);
    forall j | 0 <= j < |g.blocks| - 1 ensures g.blocks[j].End() <= g.blocks[j + 1].addr {
      if j >= i {
        assert g.blocks[j] == h.blocks[j + 1] && g.blocks[j + 1] == h.blocks[j + 2];
      }
    }
    forall j, k | 0 <= j < |g.blocks| && k in g.bytes ensures !InHeader(g.blocks[j], k) {
      if j >= i {
        assert g.blocks[j] == h.blocks[j + 1];
      }
    }
  }

  lemma RemoveTakesBlock(h: Heap, i: nat)
    requires IsLive(h, i)
    ensures multiset(Live(h)) == multiset(Live(Remove(h, i))) + multiset{h.blocks[i]}
  {
    var bs, n := h.blocks, |h.blocks|;
    assert Live(h) == bs[1..i] + [bs[i]] + bs[i + 1..n - 1];
    assert Live(Remove(h, i)) == bs[1..i] + bs[i + 1..n - 1];
  }

  /** free takes exactly the one block away, and neither moves the ends nor touches a byte. */
  lemma FreeIsRight(h: Heap, b: Block)
    requires Valid(h) && b in Live(h)
    ensures var g := Free(h, b.Payload());
            && Valid(g) && g.bytes == h.bytes && Extent(g) == Extent(h)
            && multiset(Live(h)) == multiset(Live(g)) + multiset{b}
  {
    hide Valid, Live, Extent, Find;
    var i := LiveIndex(h, b);
    BlockAtIsUnique(h, i);
    RemoveIsValid(h, i);
    ValidShape(Remove(h, i));
    RemoveTakesBlock(h, i);
  }

  lemma Cancel(a: multiset<Block>, b: multiset<Block>, c: multiset<Block>)
    requires a + c == b + c
    ensures a == b
  {
    assert a == a + c - c == b + c - c == b;
  }

  /** What malloc gave, free takes back: the user's blocks are as before. */
  lemma FreeUndoesMalloc(h: Heap, size: nat)
    requires Valid(h)
    ensures var (g, p) := Malloc(h, size);
            var x := Free(g, p);
            && Valid(x) && multiset(Live(x)) == multiset(Live(h)) && AllUntouched(h, x)
  {
    hide Valid, Live, Untouched, Malloc, Grows, Free, WorstFit, Scan, Extent, Sorted;
    MallocIsRight(h, size);
    var (g, p) := Malloc(h, size);
    var b := Block(p - HEADER, size);
    assert b in multiset(Live(g));
    FreeIsRight(g, b);
    Cancel(multiset(Live(Free(g, p))), multiset(Live(h)), multiset{b});
    UntouchedBytes(h, g, Free(g, p));
  }

  /** Once a block is freed its address is nobody's: a second free changes nothing. */
  lemma SecondFreeDoesNothing(h: Heap, b: Block)
    requires Valid(h) && b in Live(h)
    ensures var g := Free(h, b.Payload()); Free(g, b.Payload()) == g
  {
    hide HeadersUnknown;
    var i := LiveIndex(h, b);
    BlockAtIsUnique(h, i);
    var g := Remove(h, i);
    forall j: nat | j < |g.blocks| ensures g.blocks[j].addr != b.addr {
      if j < i {
        SortedApart(h.blocks, j, i);
      } else {
        SortedApart(h.blocks, i, j + 1);
        assert g.blocks[j] == h.blocks[j + 1];
      }
    }
    assert Free(h, b.Payload()) == g && b.Payload() - HEADER == b.addr;
    assert BlockAt(g, b.Payload()).None?;
  }
}
