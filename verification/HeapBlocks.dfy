/** The kernel heap as an address-ordered list of blocks, and the bytes it leaves alone. */
module HeapBlocks {
  import opened Bytes
  import opened Options

  const HEADER := 44            // sizeof(mm_header)
  const PAGE := 0x1000
  const STEP := 0x10_0000       // HEAP_EXPAND_STEP_SIZE

  /** An occupied block: a header at `addr`, and `size` bytes behind it. */
  datatype Block = Block(addr: nat, size: nat) {
    function Payload(): nat { addr + HEADER }
    function End(): nat { addr + HEADER + size }
  }

  /** The blocks in address order, first and last the two empty marker blocks, and the bytes in memory as far as
      they are known: writing a header makes the bytes it covers unknown. */
  datatype Heap = Heap(blocks: seq<Block>, bytes: map<int, byte>)

  predicate Sorted(bs: seq<Block>) {
    forall i :: 0 <= i < |bs| - 1 ==> bs[i].End() <= bs[i + 1].addr
  }

  /** Where the heap ends, counted from its start. */
  function Extent(h: Heap): int
    requires |h.blocks| >= 2
  {
    h.blocks[|h.blocks| - 1].addr + HEADER - h.blocks[0].addr
  }

  predicate InHeader(b: Block, k: int) { b.addr <= k < b.addr + HEADER }

  predicate InPayload(b: Block, k: int) { b.Payload() <= k < b.End() }

  ghost predicate HeadersUnknown(h: Heap) {
    forall i, k :: 0 <= i < |h.blocks| && k in h.bytes ==> !InHeader(h.blocks[i], k)
  }

  ghost predicate Valid(h: Heap) {
    && |h.blocks| >= 2 && Sorted(h.blocks) && HeadersUnknown(h)
    && h.blocks[0].size == 0 && h.blocks[|h.blocks| - 1].size == 0
    && h.blocks[0].addr % PAGE == 0 && Extent(h) % PAGE == 0
  }

  /** Blocks the user has: all but the markers. */
  predicate IsLive(h: Heap, i: int) { 0 < i < |h.blocks| - 1 }

  lemma {:induction false} SortedApart(bs: seq<Block>, i: nat, j: nat)
    requires Sorted(bs) && i < j < |bs|
    ensures bs[i].End() <= bs[j].addr
    decreases j - i
  {
    if i + 1 < j {
      SortedApart(bs, i, j - 1);
    }
  }

  /** Headers and payloads of different blocks never overlap, and all lie between start and end. */
  lemma BlocksAreApart(h: Heap, i: nat, j: nat)
    requires Valid(h) && i < j < |h.blocks|
    ensures h.blocks[0].addr <= h.blocks[i].addr
    ensures h.blocks[i].addr < h.blocks[i].End() <= h.blocks[j].addr < h.blocks[j].End()
    ensures h.blocks[j].End() <= h.blocks[0].addr + Extent(h)
  {
    SortedApart(h.blocks, i, j);
    if i > 0 {
      SortedApart(h.blocks, 0, i);
    }
    if j < |h.blocks| - 1 {
      SortedApart(h.blocks, j, |h.blocks| - 1);
    }
  }

  // ---- finding a hole ----

  /** The hole before block i. */
  function Hole(bs: seq<Block>, i: nat): int
    requires 0 < i < |bs|
  {
    bs[i].addr - bs[i - 1].End()
  }

  /** The scan up to block i: the block before which the biggest hole of at least `need` bytes lies. */
  function Scan(bs: seq<Block>, need: nat, i: nat): (r: Option<nat>)
    requires 0 < i <= |bs|
    ensures r.Some? ==> 0 < r.value < i && need <= Hole(bs, r.value)
  {
    if i == 1 then None
    else
      var best := Scan(bs, need, i - 1);
      var biggest := if best.Some? then Hole(bs, best.value) else 0;
      if Hole(bs, i - 1) >= need && Hole(bs, i - 1) > biggest then Some(i - 1) else best
  }

  lemma ScanStep(bs: seq<Block>, need: nat, i: nat)
    requires 0 < i < |bs|
    ensures var best := Scan(bs, need, i);
            var biggest := if best.Some? then Hole(bs, best.value) else 0;
            Scan(bs, need, i + 1) == if Hole(bs, i) >= need && Hole(bs, i) > biggest then Some(i) else best
    ensures Scan(bs, need, 1) == None
  {
  }

  /** The hole that is used is the lowest-addressed among the largest, if any is large enough. */
  ghost predicate WorstFit(bs: seq<Block>, need: nat, upTo: nat, r: Option<nat>)
    requires 0 < upTo <= |bs|
  {
    match r
    case None => forall j :: 0 < j < upTo ==> Hole(bs, j) < need
    case Some(i) =>
      && 0 < i < upTo && Hole(bs, i) >= need
      && (forall j :: 0 < j < upTo ==> Hole(bs, j) <= Hole(bs, i))
      && (forall j :: 0 < j < i ==> Hole(bs, j) < Hole(bs, i))
  }

  lemma {:induction false} ScanIsWorstFit(bs: seq<Block>, need: nat, upTo: nat)
    requires 0 < upTo <= |bs| && need > 0
    ensures WorstFit(bs, need, upTo, Scan(bs, need, upTo))
    decreases upTo
  {
    if upTo > 1 {
      ScanIsWorstFit(bs, need, upTo - 1);
    }
  }

  // ---- malloc ----

  /** A header written at addr makes the bytes there unknown. */
  function Clobber(bytes: map<int, byte>, addr: int): map<int, byte> {
    map k | k in bytes && !(addr <= k < addr + HEADER) :: bytes[k]
  }

  function Place(h: Heap, i: nat, size: nat): Heap
    requires 0 < i < |h.blocks|
  {
    var b := Block(h.blocks[i - 1].End(), size);
    Heap(h.blocks[..i] + [b] + h.blocks[i..], Clobber(h.bytes, b.addr))
  }

  /** heap_get_size, which is one too large. */
  function GetSize(h: Heap): int
    requires |h.blocks| >= 2
  {
    Extent(h) + 1
  }

  /** The page rounding of heap_expand: because of the missing parentheses it looks at the lowest bit only. */
  function RoundUp(newSize: nat): nat {
    if newSize % 2 != 0 then newSize / PAGE * PAGE + PAGE else newSize
  }

  /** heap_expand: the end marker moves up. */
  function ExpandTo(h: Heap, newSize: nat): Heap
    requires |h.blocks| >= 2 && h.blocks[0].addr + RoundUp(newSize) >= HEADER
  {
    var n := |h.blocks|;
    var end := Block(h.blocks[0].addr + RoundUp(newSize) - HEADER, 0);
    Heap(h.blocks[..n - 1] + [end], Clobber(h.bytes, end.addr))
  }

  /** The size malloc asks for when no hole is large enough. */
  function WantedSize(h: Heap, size: nat): int
    requires |h.blocks| >= 2
  {
    GetSize(h) + (size / STEP + 1) * STEP
  }

  function ExpandedSize(h: Heap, size: nat): int
    requires |h.blocks| >= 2 && Extent(h) >= 0
  {
    RoundUp(WantedSize(h, size))
  }

  function Expand(h: Heap, size: nat): Heap
    requires |h.blocks| >= 2 && Extent(h) >= 0
    requires h.blocks[0].addr + ExpandedSize(h, size) >= HEADER
  {
    ExpandTo(h, WantedSize(h, size))
  }

  lemma PageAfter(q: nat)
    ensures (q * PAGE + 1) / PAGE == q && (q * PAGE + 1) % 2 == 1
  {
    assert q * PAGE + 1 == 2 * (q * 0x800) + 1;
  }

  lemma RoundsToNextPage(x: nat)
    requires x % PAGE == 0
    ensures RoundUp(x + 1) == x + PAGE
  {
    PageAfter(x / PAGE);
  }

  lemma StepsArePages(x: int, n: nat)
    requires x % PAGE == 0
    ensures (x + n * STEP) % PAGE == 0
  {
    var q := x / PAGE;
    assert x + n * STEP == (q + n * 256) * PAGE;
  }

  /** However the size is computed, an expansion adds size/1 MiB + 1 MiB and one page. */
  lemma ExpansionIsExact(h: Heap, size: nat)
    requires |h.blocks| >= 2 && Extent(h) >= 0 && Extent(h) % PAGE == 0
    ensures ExpandedSize(h, size) == Extent(h) + (size / STEP + 1) * STEP + PAGE
  {
    hide RoundUp;
    var n := size / STEP + 1;
    StepsArePages(Extent(h), n);
    RoundsToNextPage(Extent(h) + n * STEP);
  }

  lemma ValidExtent(h: Heap)
    requires Valid(h)
    ensures Extent(h) >= 2 * HEADER
  {
    SortedApart(h.blocks, 0, |h.blocks| - 1);
  }

  lemma PlaceIsValid(h: Heap, i: nat, size: nat)
    requires Valid(h) && 0 < i < |h.blocks| && Hole(h.blocks, i) >= size + HEADER
    ensures Valid(Place(h, i, size)) && Extent(Place(h, i, size)) == Extent(h)
  {
    var g := Place(h, i, size);
    forall j | 0 <= j < |g.blocks| - 1 ensures g.blocks[j].End() <= g.blocks[j + 1].addr {
      if j > i {
        assert g.blocks[j] == h.blocks[j - 1] && g.blocks[j + 1] == h.blocks[j];
      }
    }
    forall j, k | 0 <= j < |g.blocks| && k in g.bytes ensures !InHeader(g.blocks[j], k) {
      if j > i {
        assert g.blocks[j] == h.blocks[j - 1];
      }
    }
  }

  lemma ExpandIsValid(h: Heap, size: nat)
    requires Valid(h)
    ensures Extent(h) >= 0 && h.blocks[0].addr + ExpandedSize(h, size) >= HEADER
    ensures Valid(Expand(h, size)) && Extent(Expand(h, size)) == Extent(h) + (size / STEP + 1) * STEP + PAGE
  {
    ValidExtent(h);
    ExpansionIsExact(h, size);
    var g, n := Expand(h, size), |h.blocks|;
    assert g.blocks[0] == h.blocks[0];
    forall j | 0 <= j < |g.blocks| - 1 ensures g.blocks[j].End() <= g.blocks[j + 1].addr {
      if j == n - 2 {
        assert h.blocks[n - 2].End() <= h.blocks[n - 1].addr <= g.blocks[n - 1].addr;
      }
    }
    forall j, k | 0 <= j < |g.blocks| && k in g.bytes ensures !InHeader(g.blocks[j], k) {
      if j < n - 1 {
        assert g.blocks[j] == h.blocks[j];
      }
    }
    assert Extent(g) == ExpandedSize(h, size);
  }

  /** After one expansion there is a hole large enough: the retried call cannot fail. */
  lemma ExpandMakesRoom(h: Heap, size: nat)
    requires Valid(h)
    ensures Extent(h) >= 0 && h.blocks[0].addr + ExpandedSize(h, size) >= HEADER
    ensures var g := Expand(h, size); |g.blocks| >= 2 && Scan(g.blocks, size + HEADER, |g.blocks|).Some?
  {
    ExpandIsValid(h, size);
    var g, n := Expand(h, size), |h.blocks|;
    ScanIsWorstFit(g.blocks, size + HEADER, n);
    assert Hole(g.blocks, n - 1) >= (size / STEP + 1) * STEP + PAGE >= size + HEADER;
  }

  /** heap_mallocn: the heap afterwards and the address returned. That the recursive call is the last is its
      termination measure. */
  function Malloc(h: Heap, size: nat): (r: (Heap, nat))
    requires Valid(h)
    decreases if Scan(h.blocks, size + HEADER, |h.blocks|).Some? then 0 else 1
  {
    match Scan(h.blocks, size + HEADER, |h.blocks|)
    case Some(i) => (Place(h, i, size), h.blocks[i - 1].End() + HEADER)
    case None =>
      ExpandMakesRoom(h, size);
      ExpandIsValid(h, size);
      Malloc(Expand(h, size), size)
  }
}
