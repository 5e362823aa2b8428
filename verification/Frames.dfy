/** Page frames: the bitmap that says which are taken, and the loops that put a frame behind each page. */
module Frames {
  const PAGE := 0x1000
  const PER_TABLE := 1024
  const TABLE_SIZE := 4096
  const DIRECTORY_SIZE := 8196    // sizeof(page_directory_t)
  const KHEAP_START := 0xC000_0000
  const KHEAP_INITIAL_SIZE := 0x50_0000
  const FIRST_HEAP_TABLE := KHEAP_START / PAGE / PER_TABLE

  datatype Page = Page(present: bool, writable: bool, user: bool, frame: nat)

  /** An entry of a page table that was cleared. */
  const BLANK := Page(false, false, false, 0)

  // ---- bits ----

  function Bit(j: nat): bv32
    requires j < 32
  {
    (1 as bv32) << j
  }

  predicate HasBit(w: bv32, j: nat)
    requires j < 32
  {
    w & Bit(j) != 0
  }

  function WithBit(w: bv32, j: nat): bv32
    requires j < 32
  {
    w | Bit(j)
  }

  /** A word with exactly one bit. */
  predicate OneBit(w: bv32) { w != 0 && w & (w - 1) == 0 }

  predicate Less(v: bv32, w: bv32) { v < w }

  lemma BitStep(j: nat)
    requires j < 32
    ensures OneBit(Bit(j))
    ensures j < 31 ==> Less(Bit(j), Bit(j + 1))
  {
  }

  lemma LessThrough(v: bv32, w: bv32, x: bv32)
    requires Less(v, w) && Less(w, x)
    ensures Less(v, x)
  {
  }

  lemma {:induction false} BitsIncrease(i: nat, j: nat)
    requires i < j < 32
    ensures Less(Bit(i), Bit(j))
    decreases j
  {
    hide Bit, Less, OneBit;
    BitStep(j - 1);
    if i < j - 1 {
      BitsIncrease(i, j - 1);
      LessThrough(Bit(i), Bit(j - 1), Bit(j));
    }
  }

  lemma OrSame(w: bv32, x: bv32)
    requires OneBit(x)
    ensures (w | x) & x != 0
  {
  }

  lemma OrApart(w: bv32, x: bv32, y: bv32)
    requires OneBit(x) && OneBit(y) && (Less(x, y) || Less(y, x))
    ensures (w | y) & x == w & x
  {
  }

  lemma SetOther(w: bv32, i: nat, j: nat)
    requires i < 32 && j < 32 && i != j
    ensures (w | Bit(j)) & Bit(i) == w & Bit(i)
  {
    hide Bit, Less, OneBit;
    BitStep(i);
    BitStep(j);
    if i < j {
      BitsIncrease(i, j);
    } else {
      BitsIncrease(j, i);
    }
    OrApart(w, Bit(i), Bit(j));
  }

  /** Setting one bit of a word changes that bit only. */
  lemma SetBit(w: bv32, i: nat, j: nat)
    requires i < 32 && j < 32
    ensures HasBit(WithBit(w, j), i) <==> i == j || HasBit(w, i)
  {
    hide Bit, OneBit;
    if i == j {
      BitStep(j);
      OrSame(w, Bit(j));
    } else {
      SetOther(w, i, j);
    }
  }

  lemma AllOnes(j: nat)
    requires j < 32
    ensures HasBit(0xFFFF_FFFF, j)
  {
    hide Bit;
    BitStep(j);
  }

  predicate Used(words: seq<bv32>, f: int) {
    0 <= f < 32 * |words| && HasBit(words[f / 32], f % 32)
  }

  /** f is the lowest frame that is free. */
  ghost predicate LowestFree(words: seq<bv32>, f: int) {
    0 <= f < 32 * |words| && !Used(words, f) && forall k :: 0 <= k < f ==> Used(words, k)
  }

  ghost predicate AllUsed(words: seq<bv32>) { forall k :: 0 <= k < 32 * |words| ==> Used(words, k) }

  function SetFrame(words: seq<bv32>, f: nat): seq<bv32>
    requires f < 32 * |words|
  {
    words[f / 32 := WithBit(words[f / 32], f % 32)]
  }

  lemma UsedAt(words: seq<bv32>, i: nat, j: nat)
    requires i < |words| && j < 32
    ensures Used(words, 32 * i + j) <==> HasBit(words[i], j)
  {
    hide HasBit;
    assert (32 * i + j) / 32 == i && (32 * i + j) % 32 == j;
  }

  lemma SetFrameTakesOne(words: seq<bv32>, f: nat, k: int)
    requires f < 32 * |words|
    ensures Used(SetFrame(words, f), k) <==> k == f || Used(words, k)
  {
    hide HasBit, WithBit;
    if 0 <= k < 32 * |words| {
      SetBitOfWord(words, f / 32, f % 32, k / 32, k % 32);
    }
  }

  lemma SetBitOfWord(words: seq<bv32>, q: nat, r: nat, i: nat, j: nat)
    requires q < |words| && i < |words| && r < 32 && j < 32
    ensures HasBit(words[q := WithBit(words[q], r)][i], j) <==> (q == i && r == j) || HasBit(words[i], j)
  {
    hide HasBit, WithBit;
    if q == i {
      SetBit(words[q], j, r);
    }
  }

  // ---- pages ----

  /** The alignment of kmalloc. */
  function NextPageAddress(a: nat): (r: nat)
    ensures a <= r < a + PAGE && r % PAGE == 0
  {
    if a % PAGE != 0 then a / PAGE * PAGE + PAGE else a
  }

  function PageOf(pages: map<int, Page>, n: int): Page {
    if n in pages then pages[n] else BLANK
  }

  /** Every page that is present has a frame that is taken, and no two have the same. */
  ghost predicate Consistent(words: seq<bv32>, pages: map<int, Page>) {
    && (forall n :: n in pages && pages[n].frame != 0 ==> pages[n].present)
    && (forall n :: n in pages && pages[n].present ==> Used(words, pages[n].frame))
    && (forall m, n :: m in pages && n in pages && pages[m].present && pages[n].present && m != n
          ==> pages[m].frame != pages[n].frame)
  }

  /** Pages from..to have a frame other than frame 0. */
  ghost predicate Backed(pages: map<int, Page>, from: int, to: int) {
    forall n :: from <= n < to ==> PageOf(pages, n).frame != 0
  }

  /** Pages that had a frame keep it, and outside from..to nothing changed. */
  ghost predicate MappedMore(was: map<int, Page>, pages: map<int, Page>, from: int, to: int) {
    forall n :: PageOf(was, n).frame != 0 || !(from <= n < to) ==> PageOf(pages, n) == PageOf(was, n)
  }

  /** Page n lies at the physical address that is its virtual one. */
  ghost predicate Identity(pages: map<int, Page>, to: int) {
    forall n :: 0 <= n < to ==> PageOf(pages, n).present && PageOf(pages, n).frame == n
  }

  /** Backed pages are present, and each has a frame of its own that is marked as taken. */
  lemma BackedMeansOwnFrame(words: seq<bv32>, pages: map<int, Page>, from: int, to: int, m: int, n: int)
    requires Consistent(words, pages) && Backed(pages, from, to) && from <= m < to && from <= n < to
    ensures PageOf(pages, n).present && Used(words, PageOf(pages, n).frame)
    ensures m != n ==> PageOf(pages, m).frame != PageOf(pages, n).frame
  {
    hide Used;
    assert PageOf(pages, n).frame != 0 && PageOf(pages, m).frame != 0;
  }

  lemma TakeFrame(words: seq<bv32>, pages: map<int, Page>, n: int, p: Page)
    requires Consistent(words, pages) && LowestFree(words, p.frame) && p.present
    ensures Consistent(SetFrame(words, p.frame), pages[n := p])
  {
    hide Used, SetFrame;
    var w, ps := SetFrame(words, p.frame), pages[n := p];
    forall m | m in ps && ps[m].present ensures Used(w, ps[m].frame) {
      SetFrameTakesOne(words, p.frame, ps[m].frame);
    }
  }

  lemma PageNumber(address: nat, n: nat)
    requires address == n * PAGE + 1
    ensures address / PAGE == n
  {
  }

  lemma NextPage(to: nat, n: nat, at: nat)
    requires at == n * PAGE && at + 1 <= to && to % PAGE == 0
    ensures n + 1 <= to / PAGE
  {
  }

  lemma LastPage(to: nat, n: nat, at: nat)
    requires at == n * PAGE && at + 1 > to && to % PAGE == 0
    ensures n >= to / PAGE
  {
  }

  lemma ZeroStaysUsed(words: seq<bv32>, now: seq<bv32>, f: nat)
    requires Used(words, 0)
    requires now == words || (f < 32 * |words| && now == SetFrame(words, f))
    ensures Used(now, 0)
  {
    hide Used, SetFrame;
    if now != words {
      SetFrameTakesOne(words, f, 0);
    }
  }

  lemma LowestIsNext(words: seq<bv32>, n: nat, f: int)
    requires LowestFree(words, f) && forall k :: Used(words, k) <==> 0 <= k < n
    ensures f == n
  {
    hide Used;
    assert Used(words, n) == false && (f < n ==> Used(words, f));
  }

  lemma IdentityGrows(was: map<int, Page>, pages: map<int, Page>, n: nat)
    requires Identity(was, n) && PageOf(pages, n).present && PageOf(pages, n).frame == n
    requires forall k :: k != n ==> PageOf(pages, k) == PageOf(was, k)
    ensures Identity(pages, n + 1)
  {
  }

  lemma BelowIsMapped(n: nat, top: nat)
    requires n * PAGE > top
    ensures n >= top / PAGE + 1
  {
  }

  lemma FrameInRange(words: seq<bv32>, f: int)
    requires LowestFree(words, f)
    ensures 0 <= f < 32 * |words| && 0 <= f / 32 < |words| && 0 <= f % 32 < 32
  {
  }

  class Paging {
    const frames: array<bv32>
    var pages: map<int, Page>     // page number to entry, where one was ever set
    var tables: set<int>          // page tables that were made
    var placement: nat            // where the next page table goes

    ghost predicate Valid()
      reads this, frames
    {
      Consistent(frames[..], pages) && frames.Length * 32 <= 0x10_0000
    }

    /** mm_init before the mapping loops: no frame is taken and no page present; the bitmap and, at the next page
        address, the page directory have been placed. */
    constructor (start: nat, nframes: nat)
      requires nframes <= 0x10_0000
      ensures Valid() && fresh(frames) && pages == map[] && frames.Length == nframes / 32
      ensures forall k :: !Used(frames[..], k)
      ensures placement == NextPageAddress(start + 0x100 + nframes / 32) + DIRECTORY_SIZE
    {
      frames := new bv32[nframes / 32](_ => 0);
      pages := map[];
      tables := {};
      placement := NextPageAddress(start + 0x100 + nframes / 32) + DIRECTORY_SIZE;
    }

    /** get_page with make: a missing page table is put at the next page address. */
    method GetPage(address: nat)
      requires Valid()
      modifies this`tables, this`placement
      ensures Valid() && placement >= old(placement)
      ensures address / PAGE / PER_TABLE in tables && old(tables) <= tables
      ensures address / PAGE / PER_TABLE in old(tables) ==> placement == old(placement)
    {
      var table := address / PAGE / PER_TABLE;
      if table !in tables {
        tables := tables + {table};
        placement := NextPageAddress(placement) + TABLE_SIZE;
      }
    }

    /** first_free_frame. */
    method FirstFreeFrame() returns (f: int)
      ensures if f == -1 then AllUsed(frames[..]) else LowestFree(frames[..], f)
    {
      hide HasBit, Used;
      var i := 0;
      while i < frames.Length
        invariant i <= frames.Length && forall k :: 0 <= k < 32 * i ==> Used(frames[..], k)
      {
        if frames[i] != 0xFFFF_FFFF {
          var j := 0;
          while j < 32
            invariant j <= 32 && forall k :: 0 <= k < 32 * i + j ==> Used(frames[..], k)
          {
            UsedAt(frames[..], i, j);
            if !HasBit(frames[i], j) {
              return i * 32 + j;
            }
            j := j + 1;
          }
        } else {
          forall k | 0 <= k < 32 * (i + 1) ensures Used(frames[..], k) {
            if k >= 32 * i {
              UsedAt(frames[..], i, k - 32 * i);
              AllOnes(k - 32 * i);
            }
          }
        }
        i := i + 1;
      }
      f := -1;
    }

    /** alloc_frame for page n; it panics (ok is false) when no frame is free. */
    method AllocFrame(n: int, kernel: bool, writable: bool) returns (ok: bool)
      requires Valid()
      modifies this`pages, frames
      ensures Valid()
      ensures old(PageOf(pages, n)).frame != 0 ==> ok && pages == old(pages) && frames[..] == old(frames[..])
      ensures old(PageOf(pages, n)).frame == 0 && !ok ==>
                AllUsed(frames[..]) && pages == old(pages) && frames[..] == old(frames[..])
      ensures old(PageOf(pages, n)).frame == 0 && ok ==>
                var f := PageOf(pages, n).frame;
                && LowestFree(old(frames[..]), f) && frames[..] == SetFrame(old(frames[..]), f)
                && pages == old(pages)[n := Page(true, writable, !kernel, f)]
    {
      hide LowestFree, AllUsed, Used, HasBit, Consistent;
      if PageOf(pages, n).frame != 0 {
        return true;
      }
      var first := FirstFreeFrame();
      if first == -1 {
        return false;
      }
      FrameInRange(frames[..], first);
      ghost var words := frames[..];
      frames[first / 32] := WithBit(frames[first / 32], first % 32);
      assert frames[..] == SetFrame(words, first);
      TakeFrame(words, pages, n, Page(true, writable, !kernel, first));
      pages := pages[n := Page(true, writable, !kernel, first)];
      ok := true;
    }

    /** One more page, behind those from..n that have a frame already. */
    method BackPage(n: nat, kernel: bool, writable: bool, ghost before: map<int, Page>, ghost from: nat)
      returns (ok: bool)
      requires Valid() && Used(frames[..], 0) && from <= n
      requires Backed(pages, from, n) && MappedMore(before, pages, from, n)
      modifies this`pages, frames
      ensures Valid() && Used(frames[..], 0)
      ensures if ok then Backed(pages, from, n + 1) && MappedMore(before, pages, from, n + 1)
              else AllUsed(frames[..]) && MappedMore(before, pages, from, n)
    {
      hide Used, Consistent, AllUsed;
      ghost var words, was := frames[..], pages;
      ok := AllocFrame(n, kernel, writable);
      if ok {
        assert forall k :: k != n ==> PageOf(pages, k) == PageOf(was, k);
        assert PageOf(pages, n).frame != 0;
        ZeroStaysUsed(words, frames[..], PageOf(pages, n).frame);
      }
    }

    /** The loop of heap_expand, for sizes as heap_get_size computes them: exactly the pages from the old end of the
        heap to the new one get a frame. */
    method BackHeap(start: nat, extent: nat, newSize: nat, kernel: bool, writable: bool) returns (ok: bool)
      requires Valid() && Used(frames[..], 0)
      requires start % PAGE == 0 && extent % PAGE == 0 && newSize % PAGE == 0 && extent <= newSize
      modifies this`pages, this`tables, this`placement, frames
      ensures Valid() && Used(frames[..], 0)
      ensures MappedMore(old(pages), pages, (start + extent) / PAGE, (start + newSize) / PAGE)
      ensures if ok then Backed(pages, (start + extent) / PAGE, (start + newSize) / PAGE) else AllUsed(frames[..])
    {
      hide Used, Consistent, AllUsed, PageOf;
      var oldSize := extent + 1;
      var i := oldSize;
      ghost var first, n := (start + extent) / PAGE, (start + extent) / PAGE;
      while i <= newSize
        invariant Valid() && Used(frames[..], 0)
        invariant i == n * PAGE - start + 1 && first <= n
        invariant n <= (start + newSize) / PAGE
        invariant Backed(pages, first, n) && MappedMore(old(pages), pages, first, n)
      {
        GetPage(start + i);
        PageNumber(start + i, n);
        ok := BackPage((start + i) / PAGE, kernel, writable, old(pages), first);
        if !ok {
          return;
        }
        NextPage(start + newSize, n, i - 1 + start);
        n := n + 1;
        i := i + PAGE;
      }
      LastPage(start + newSize, n, i - 1 + start);
      ok := true;
    }

    /** The loop of mm_init over the kernel's own memory, whose bound moves up while page tables are made. */
    method MapKernel(reserve: nat) returns (ok: bool)
      requires Valid() && pages == map[] && forall k :: !Used(frames[..], k)
      modifies this`pages, this`tables, this`placement, frames
      ensures Valid()
      ensures ok ==> Used(frames[..], 0) && Identity(pages, (placement + reserve) / PAGE + 1)
      ensures old(tables) <= tables
      ensures !ok ==> AllUsed(frames[..])
    {
      hide Used, Consistent, AllUsed, LowestFree;
      var i := 0;
      ghost var n := 0;
      while i <= placement + reserve
        invariant Valid() && i == n * PAGE && Identity(pages, n)
        invariant forall k :: n <= k ==> PageOf(pages, k) == BLANK
        invariant forall k :: Used(frames[..], k) <==> 0 <= k < n
        invariant n <= 32 * frames.Length && old(tables) <= tables
        decreases 32 * frames.Length - n
      {
        GetPage(i);
        ghost var words, was := frames[..], pages;
        ok := AllocFrame(i / PAGE, false, false);
        if !ok {
          return;
        }
        FrameInRange(words, PageOf(pages, n).frame);
        LowestIsNext(words, n, PageOf(pages, n).frame);
        forall k ensures Used(frames[..], k) <==> 0 <= k < n + 1 {
          SetFrameTakesOne(words, n, k);
        }
        IdentityGrows(was, pages, n);
        n := n + 1;
        i := i + PAGE;
      }
      BelowIsMapped(n, placement + reserve);
      ok := true;
    }

    /** The last loop of mm_init: the pages the heap starts with. */
    method MapHeap() returns (ok: bool)
      requires Valid() && Used(frames[..], 0) && FIRST_HEAP_TABLE in tables && FIRST_HEAP_TABLE + 1 in tables
      modifies this`pages, this`tables, this`placement, frames
      ensures Valid() && Used(frames[..], 0) && placement == old(placement)
      ensures MappedMore(old(pages), pages, KHEAP_START / PAGE, (KHEAP_START + KHEAP_INITIAL_SIZE) / PAGE)
      ensures if ok then Backed(pages, KHEAP_START / PAGE, (KHEAP_START + KHEAP_INITIAL_SIZE) / PAGE)
              else AllUsed(frames[..])
    {
      hide Used, Consistent, AllUsed;
      var i := KHEAP_START;
      ghost var first := KHEAP_START / PAGE;
      ghost var n := first;
      while i < KHEAP_START + KHEAP_INITIAL_SIZE
        invariant Valid() && Used(frames[..], 0)
        invariant placement == old(placement) && old(tables) <= tables
        invariant i == n * PAGE && first <= n <= (KHEAP_START + KHEAP_INITIAL_SIZE) / PAGE
        invariant Backed(pages, first, n) && MappedMore(old(pages), pages, first, n)
      {
        GetPage(i);
        ok := BackPage(i / PAGE, false, false, old(pages), first);
        if !ok {
          return;
        }
        n := n + 1;
        i := i + PAGE;
      }
      ok := true;
    }
  }

  /** mm_init's mappings: all memory up to the end of the page tables, those still to come included, is mapped to
      itself, and every page of the first heap has a frame. The panic for want of frames ends it early. */
  method InitMemory(start: nat, end: nat) returns (m: Paging, ok: bool)
    requires end / PAGE <= 0x10_0000
    ensures fresh(m) && m.Valid()
    ensures ok ==>
      && Used(m.frames[..], 0)
      && Identity(m.pages, (m.placement + end / 4096 / 1024 * TABLE_SIZE) / PAGE + 1)
      && Backed(m.pages, KHEAP_START / PAGE, (KHEAP_START + KHEAP_INITIAL_SIZE) / PAGE)
    ensures !ok ==> AllUsed(m.frames[..])
  {
    hide Used, Consistent, AllUsed;
    m := new Paging(start, end / PAGE);
    var i := KHEAP_START;
    while i < KHEAP_START + KHEAP_INITIAL_SIZE
      invariant m.Valid() && m.pages == map[] && forall k :: !Used(m.frames[..], k)
      invariant KHEAP_START <= i && i % PAGE == 0
      invariant i > KHEAP_START ==> FIRST_HEAP_TABLE in m.tables
      invariant i > KHEAP_START + PER_TABLE * PAGE ==> FIRST_HEAP_TABLE + 1 in m.tables
    {
      m.GetPage(i);
      i := i + PAGE;
    }
    ok := m.MapKernel(end / 4096 / 1024 * TABLE_SIZE);
    if ok {
      ghost var pages := m.pages;
      ok := m.MapHeap();
      IdentityStays(pages, m.pages, (m.placement + end / 4096 / 1024 * TABLE_SIZE) / PAGE + 1);
    }
  }

  lemma IdentityStays(was: map<int, Page>, pages: map<int, Page>, to: int)
    requires Identity(was, to) && PageOf(pages, 0) == PageOf(was, 0)
    requires forall n :: PageOf(was, n).frame != 0 ==> PageOf(pages, n) == PageOf(was, n)
    ensures Identity(pages, to)
  {
  }
}
