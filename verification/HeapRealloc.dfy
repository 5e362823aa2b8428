/** realloc, the memmove it uses, and what whole runs of heap operations leave alone. */
module HeapRealloc {
  import opened Bytes
  import opened HeapBlocks
  import opened HeapTheorems

  /** memcpy, as far as the source bytes are known. */
  function Copy(bytes: map<int, byte>, dst: int, src: int, n: nat): map<int, byte> {
    map k | k in Reach(bytes, dst, src) && Origin(dst, src, n, k) in bytes :: bytes[Origin(dst, src, n, k)]
  }

  /** Where the byte at k comes from. */
  function Origin(dst: int, src: int, n: nat, k: int): int {
    if dst <= k < dst + n then k - dst + src else k
  }

  function Reach(bytes: map<int, byte>, dst: int, src: int): set<int> {
    bytes.Keys + set j | j in bytes :: j - src + dst
  }

  lemma CopyAt(bytes: map<int, byte>, dst: int, src: int, n: nat, k: int)
    ensures var (c, o) := (Copy(bytes, dst, src, n), Origin(dst, src, n, k));
            (k in c <==> o in bytes) && (k in c ==> c[k] == bytes[o])
  {
    var o := Origin(dst, src, n, k);
    if o in bytes {
      assert k == o || k == o - src + dst;
      assert k in Reach(bytes, dst, src);
    }
  }

  lemma CopyNext(bytes: map<int, byte>, dst: int, src: int, n: nat)
    ensures Copy(bytes, dst, src, 0) == bytes
    ensures var c := Copy(bytes, dst, src, n);
            Copy(bytes, dst, src, n + 1)
              == if src + n in bytes then c[dst + n := bytes[src + n]] else c - {dst + n}
  {
    hide Copy;
    forall k ensures k in Copy(bytes, dst, src, 0) <==> k in bytes
             ensures k in bytes ==> Copy(bytes, dst, src, 0)[k] == bytes[k] {
      CopyAt(bytes, dst, src, 0, k);
    }
    var c := Copy(bytes, dst, src, n);
    var r := if src + n in bytes then c[dst + n := bytes[src + n]] else c - {dst + n};
    forall k ensures k in Copy(bytes, dst, src, n + 1) <==> k in r
             ensures k in r ==> Copy(bytes, dst, src, n + 1)[k] == r[k] {
      CopyAt(bytes, dst, src, n, k);
      CopyAt(bytes, dst, src, n + 1, k);
    }
  }

  /** memmove: it copies by way of a block of its own. */
  function Memmove(h: Heap, dst: nat, src: nat, n: nat): Heap
    requires Valid(h)
  {
    var (x, temp) := Malloc(h, n);
    Free(x.(bytes := Copy(Copy(x.bytes, temp, src, n), dst, temp, n)), temp)
  }

  /** realloc of the user's block i. */
  function Realloc(h: Heap, i: nat, size: nat): (Heap, nat)
    requires Valid(h) && IsLive(h, i)
  {
    var b := h.blocks[i];
    if h.blocks[i + 1].addr >= b.Payload() + size then
      (h.(blocks := h.blocks[i := Block(b.addr, size)]), b.Payload())
    else
      var (x, q) := Malloc(h, size);
      MallocIsRight(h, size);
      (Free(Memmove(x, q, b.Payload(), b.size), b.Payload()), q)
  }

  /** From h to g no byte of a block changed, except that n bytes from src were copied to dst. */
  ghost predicate Copied(h: Heap, g: Heap, dst: int, src: int, n: nat) {
    forall c, k :: c in Live(h) && InPayload(c, k) ==> EqualByte(h, Origin(dst, src, n, k), g, k)
  }

  predicate Within(b: Block, p: int, n: int) { b.Payload() <= p && p + n <= b.End() }

  lemma LiveApart(h: Heap, b: Block, c: Block, k: int)
    requires Valid(h) && b in Live(h) && c in Live(h) && b != c && InPayload(b, k)
    ensures !InPayload(c, k)
  {
    hide HeadersUnknown, Live;
    var i := LiveIndex(h, b);
    var j := LiveIndex(h, c);
    if i < j {
      SortedApart(h.blocks, i, j);
    } else {
      SortedApart(h.blocks, j, i);
    }
  }

  /** Writing bytes inside a block keeps the heap valid. */
  lemma BytesInPayload(h: Heap, bytes: map<int, byte>, b: Block)
    requires Valid(h) && b in Live(h)
    requires forall k :: k in bytes && !InPayload(b, k) ==> k in h.bytes
    ensures Valid(h.(bytes := bytes))
  {
    var i := LiveIndex(h, b);
    forall j, k | 0 <= j < |h.blocks| && k in bytes ensures !InHeader(h.blocks[j], k) {
      if InPayload(b, k) {
        if j < i {
          SortedApart(h.blocks, j, i);
        } else if i < j {
          SortedApart(h.blocks, i, j);
        }
      }
    }
  }

  lemma CopyIsValid(h: Heap, b: Block, dst: nat, src: nat, n: nat)
    requires Valid(h) && b in Live(h) && Within(b, dst, n)
    ensures Valid(h.(bytes := Copy(h.bytes, dst, src, n)))
  {
    hide Valid, Live, Copy;
    forall k | k in Copy(h.bytes, dst, src, n) && !InPayload(b, k) ensures k in h.bytes {
      CopyAt(h.bytes, dst, src, n, k);
    }
    BytesInPayload(h, Copy(h.bytes, dst, src, n), b);
  }

  /** memmove copies the bytes, also where the two ranges overlap, changes no other byte of a block, and leaves its
      own block behind nowhere. */
  lemma MemmoveIsRight(h: Heap, dst: nat, src: nat, n: nat, d: Block, s: Block)
    requires Valid(h) && d in Live(h) && s in Live(h) && Within(d, dst, n) && Within(s, src, n)
    ensures var g := Memmove(h, dst, src, n);
            && Valid(g) && multiset(Live(g)) == multiset(Live(h)) && Copied(h, g, dst, src, n)
  {
    hide Valid, Live, Copy, Malloc, Free, EqualByte, Untouched, Grows, WorstFit, Scan;
    MallocIsRight(h, n);
    var (x, temp) := Malloc(h, n);
    var t := Block(temp - HEADER, n);
    assert t in multiset(Live(x));
    assert d in multiset(Live(h)) && d in multiset(Live(x));
    var bytes1 := Copy(x.bytes, temp, src, n);
    var y := x.(bytes := bytes1);
    CopyIsValid(x, t, temp, src, n);
    SameBlocks(x, y);
    var bytes2 := Copy(bytes1, dst, temp, n);
    var z := y.(bytes := bytes2);
    CopyIsValid(y, d, dst, temp, n);
    SameBlocks(x, z);
    assert t in multiset(Live(z));
    FreeIsRight(z, t);
    Cancel(multiset(Live(Free(z, temp))), multiset(Live(h)), multiset{t});
    forall c, k | c in Live(h) && InPayload(c, k) ensures EqualByte(h, Origin(dst, src, n, k), z, k) {
      MovedByte(h, x, n, temp, dst, src, d, s, c, k);
    }
    CopiedBytes(h, z, Free(z, temp), dst, src, n);
  }

  lemma SameBlocks(x: Heap, y: Heap)
    requires x.blocks == y.blocks
    ensures Live(x) == Live(y)
  {
  }

  lemma CopiedBytes(h: Heap, g: Heap, x: Heap, dst: int, src: int, n: nat)
    requires g.bytes == x.bytes && Copied(h, g, dst, src, n)
    ensures Copied(h, x, dst, src, n)
  {
    hide Live, Origin;
  }

  /** One byte on its way through memmove's block. */
  lemma MovedByte(h: Heap, x: Heap, n: nat, temp: nat, dst: nat, src: nat, d: Block, s: Block, c: Block, k: int)
    requires Valid(h) && Valid(x) && Added(h, x, temp, n)
    requires d in Live(h) && s in Live(h) && Within(d, dst, n) && Within(s, src, n)
    requires c in Live(h) && InPayload(c, k)
    ensures EqualByte(h, Origin(dst, src, n, k),
                      x.(bytes := Copy(Copy(x.bytes, temp, src, n), dst, temp, n)), k)
  {
    hide Valid, Live, Copy;
    var t := Block(temp - HEADER, n);
    assert t in multiset(Live(x)) && c in multiset(Live(h)) && c in multiset(Live(x));
    assert s in multiset(Live(h)) && s in multiset(Live(x));
    assert c != t && s != t;
    LiveApart(x, c, t, k);
    var o := Origin(dst, temp, n, k);
    CopyAt(Copy(x.bytes, temp, src, n), dst, temp, n, k);
    CopyAt(x.bytes, temp, src, n, o);
    if dst <= k < dst + n {
      assert Untouched(h, x, s) && InPayload(s, k - dst + src);
      assert EqualByte(h, k - dst + src, x, k - dst + src);
    } else {
      assert Untouched(h, x, c);
      assert EqualByte(h, k, x, k);
    }
  }

  /** The new block does not overlap a range within an older one. */
  lemma TempIsApart(h: Heap, x: Heap, temp: nat, n: nat, b: Block, p: nat)
    requires Valid(x) && Added(h, x, temp, n) && b in Live(h) && Within(b, p, n)
    ensures p + n <= temp || temp + n <= p
  {
    hide Valid, Live, AllUntouched;
    var t := Block(temp - HEADER, n);
    assert t in multiset(Live(x)) && b in multiset(Live(h)) && b in multiset(Live(x));
    if p + n > temp && temp + n > p {
      LiveApart(x, b, t, if p < temp then temp else p);
    }
  }

  lemma ResizeMoves(h: Heap, i: nat, size: nat)
    requires Valid(h) && IsLive(h, i) && h.blocks[i + 1].addr < h.blocks[i].Payload() + size
    ensures size > h.blocks[i].size
  {
    ValidShape(h);
    assert h.blocks[i].End() <= h.blocks[i + 1].addr;
  }

  /** The bytes of b up to size are, in g, those of the block with payload q. */
  ghost predicate Kept(h: Heap, b: Block, g: Heap, q: int, size: nat) {
    forall k :: InPayload(b, k) && k < b.Payload() + size ==> EqualByte(h, k, g, k - b.Payload() + q)
  }

  /** What realloc promises: the block has its new size and, as far as both sizes reach, its old bytes; every other
      block is as before, and neither the old block nor memmove's is left over. */
  ghost predicate Reallocated(h: Heap, b: Block, size: nat, g: Heap, q: int) {
    && Valid(g) && q >= HEADER
    && multiset(Live(g)) == multiset(Live(h)) - multiset{b} + multiset{Block(q - HEADER, size)}
    && Kept(h, b, g, q, size)
    && forall c :: c in Live(h) && c != b ==> Untouched(h, g, c)
  }

  lemma ResizedIsValid(h: Heap, i: nat, size: nat)
    requires Valid(h) && IsLive(h, i) && h.blocks[i + 1].addr >= h.blocks[i].Payload() + size
    ensures Valid(h.(blocks := h.blocks[i := Block(h.blocks[i].addr, size)]))
  {
    var g := h.(blocks := h.blocks[i := Block(h.blocks[i].addr, size)]);
    forall j, k | 0 <= j < |g.blocks| && k in g.bytes ensures !InHeader(g.blocks[j], k) {
      assert !InHeader(h.blocks[j], k);
    }
  }

  lemma ResizedBlocks(h: Heap, i: nat, nb: Block)
    requires IsLive(h, i)
    ensures multiset(Live(h.(blocks := h.blocks[i := nb])))
         == multiset(Live(h)) - multiset{h.blocks[i]} + multiset{nb}
  {
    var bs, n := h.blocks, |h.blocks|;
    assert Live(h) == bs[1..i] + [bs[i]] + bs[i + 1..n - 1];
    assert Live(h.(blocks := bs[i := nb])) == bs[1..i] + [nb] + bs[i + 1..n - 1];
  }

  lemma ResizeInPlace(h: Heap, i: nat, size: nat)
    requires Valid(h) && IsLive(h, i) && h.blocks[i + 1].addr >= h.blocks[i].Payload() + size
    ensures var (g, q) := Realloc(h, i, size); Reallocated(h, h.blocks[i], size, g, q) && q == h.blocks[i].Payload()
  {
    hide Malloc, Free, Memmove, Valid, Live;
    ResizedIsValid(h, i, size);
    ResizedBlocks(h, i, Block(h.blocks[i].addr, size));
  }

  lemma BytesArrived(h: Heap, x: Heap, g: Heap, q: nat, b: Block, nb: Block)
    requires AllUntouched(h, x) && Copied(x, g, q, b.Payload(), b.size)
    requires b in Live(h) && nb in Live(x) && q == nb.Payload() && b.size < nb.size
    ensures Kept(h, b, g, q, nb.size)
  {
    hide Live;
    assert Untouched(h, x, b);
    forall k | InPayload(b, k) ensures EqualByte(h, k, g, k - b.Payload() + q) {
      var j := k - b.Payload() + q;
      assert InPayload(nb, j) && EqualByte(h, k, x, k);
      assert Origin(q, b.Payload(), b.size, j) == k;
      assert EqualByte(x, Origin(q, b.Payload(), b.size, j), g, j);
    }
  }

  lemma SparedByMove(h: Heap, x: Heap, g: Heap, q: nat, b: Block, nb: Block, c: Block)
    requires Valid(x) && AllUntouched(h, x) && Copied(x, g, q, b.Payload(), b.size)
    requires nb in Live(x) && q == nb.Payload() && b.size < nb.size
    requires c in Live(h) && c in Live(x) && c != nb
    ensures Untouched(h, g, c)
  {
    hide Live, Valid;
    assert Untouched(h, x, c);
    forall k | InPayload(c, k) ensures EqualByte(h, k, g, k) {
      LiveApart(x, c, nb, k);
      assert EqualByte(h, k, x, k);
      assert Origin(q, b.Payload(), b.size, k) == k;
    }
  }

  lemma MoveToNewBlock(h: Heap, i: nat, size: nat)
    requires Valid(h) && IsLive(h, i) && h.blocks[i + 1].addr < h.blocks[i].Payload() + size
    ensures var (g, q) := Realloc(h, i, size);
            Reallocated(h, h.blocks[i], size, g, q) && size > h.blocks[i].size
  {
    hide Valid, Live, Malloc, Free, Memmove, Copied, Grows, WorstFit, Scan, AllUntouched, Reallocated;
    var b := h.blocks[i];
    LiveAt(h, i);
    ResizeMoves(h, i, size);
    MallocIsRight(h, size);
    var (x, q) := Malloc(h, size);
    var nb := Block(q - HEADER, size);
    assert nb in multiset(Live(x)) && b in multiset(Live(h)) && b in multiset(Live(x));
    MemmoveIsRight(x, q, b.Payload(), b.size, nb, b);
    var y := Memmove(x, q, b.Payload(), b.size);
    assert b in multiset(Live(y));
    FreeIsRight(y, b);
    var g := Free(y, b.Payload());
    CopiedBytes(x, y, g, q, b.Payload(), b.size);
    MovedBlock(h, x, g, q, b, size);
  }

  lemma Exchange(h: multiset<Block>, x: multiset<Block>, g: multiset<Block>, b: Block, nb: Block)
    requires x == h + multiset{nb} && x == g + multiset{b} && b in h
    ensures g == h - multiset{b} + multiset{nb}
  {
    assert g == g + multiset{b} - multiset{b};
  }

  lemma MovedBlock(h: Heap, x: Heap, g: Heap, q: nat, b: Block, size: nat)
    requires Valid(x) && Valid(g) && Added(h, x, q, size) && b in Live(h) && b.size < size
    requires Copied(x, g, q, b.Payload(), b.size) && multiset(Live(x)) == multiset(Live(g)) + multiset{b}
    ensures Reallocated(h, b, size, g, q)
  {
    hide Valid, Live, Copied, Untouched, Kept;
    var nb := Block(q - HEADER, size);
    assert nb in multiset(Live(x)) && b in multiset(Live(h));
    Exchange(multiset(Live(h)), multiset(Live(x)), multiset(Live(g)), b, nb);
    forall c | c in Live(h) && c != b ensures Untouched(h, g, c) {
      assert c in multiset(Live(h)) && c in multiset(Live(x));
      SparedByMove(h, x, g, q, b, nb, c);
    }
    BytesArrived(h, x, g, q, b, nb);
  }

  /** realloc keeps its promise, and stays in place exactly if the next block leaves room. When it moves, the new
      block is larger than the old one, so that memmove stays inside it. */
  lemma ReallocIsRight(h: Heap, i: nat, size: nat)
    requires Valid(h) && IsLive(h, i)
    ensures var (g, q) := Realloc(h, i, size);
            && Reallocated(h, h.blocks[i], size, g, q)
            && (h.blocks[i + 1].addr >= h.blocks[i].Payload() + size ==> q == h.blocks[i].Payload())
            && (h.blocks[i + 1].addr < h.blocks[i].Payload() + size ==> size > h.blocks[i].size)
  {
    hide Valid, Realloc, Reallocated;
    if h.blocks[i + 1].addr >= h.blocks[i].Payload() + size {
      ResizeInPlace(h, i, size);
    } else {
      MoveToNewBlock(h, i, size);
    }
  }

  // ---- whole runs ----

  datatype Op = Alloc(size: nat) | Release(p: int) | Resize(p: int, size: nat) | Store(p: int, at: nat, v: byte)

  /** free may be called with any address; realloc and stores need a block that is there. */
  predicate Allowed(h: Heap, op: Op) {
    match op
    case Alloc(_) => true
    case Release(_) => true
    case Resize(p, _) => BlockAt(h, p).Some?
    case Store(p, at, _) => BlockAt(h, p).Some? && at < h.blocks[BlockAt(h, p).value].size
  }

  function Step(h: Heap, op: Op): Heap
    requires Valid(h) && Allowed(h, op)
  {
    match op
    case Alloc(size) => Malloc(h, size).0
    case Release(p) => Free(h, p)
    case Resize(p, size) => Realloc(h, BlockAt(h, p).value, size).0
    case Store(p, at, v) => h.(bytes := h.bytes[p + at := v])
  }

  /** The call is not about block b. */
  predicate Spares(op: Op, b: Block) { op.Alloc? || op.p != b.Payload() }

  /** From h to g, block b kept its address, its size and all its bytes. */
  ghost predicate Survives(h: Heap, g: Heap, b: Block) { b in Live(g) && Untouched(h, g, b) }

  lemma ReleaseSpares(h: Heap, p: int, b: Block)
    requires Valid(h) && b in Live(h) && p != b.Payload()
    ensures Valid(Free(h, p)) && Survives(h, Free(h, p), b)
  {
    hide Valid, Live;
    if BlockAt(h, p).Some? {
      var i := BlockAt(h, p).value;
      LiveAt(h, i);
      FreeIsRight(h, h.blocks[i]);
      assert b in multiset(Live(h)) && b in multiset(Live(Free(h, p)));
    }
  }

  lemma StoreSpares(h: Heap, op: Op, b: Block)
    requires Valid(h) && op.Store? && Allowed(h, op) && b in Live(h) && op.p != b.Payload()
    ensures Valid(Step(h, op)) && Survives(h, Step(h, op), b)
  {
    hide Valid, Live, BlockAt;
    var c := h.blocks[BlockAt(h, op.p).value];
    LiveAt(h, BlockAt(h, op.p).value);
    BytesInPayload(h, Step(h, op).bytes, c);
    SameBlocks(h, Step(h, op));
    LiveApart(h, c, b, op.p + op.at);
  }

  lemma StepSpares(h: Heap, op: Op, b: Block)
    requires Valid(h) && Allowed(h, op) && b in Live(h) && Spares(op, b)
    ensures Valid(Step(h, op)) && Survives(h, Step(h, op), b)
  {
    hide Valid, Live, Malloc, Realloc, Free, BlockAt, Untouched, Grows, WorstFit, Scan, Kept;
    assert b in multiset(Live(h));
    match op
    case Alloc(size) =>
      MallocIsRight(h, size);
      assert b in multiset(Live(Step(h, op)));
    case Release(p) => ReleaseSpares(h, p, b);
    case Resize(p, size) =>
      var i := BlockAt(h, p).value;
      ReallocIsRight(h, i, size);
      assert b in multiset(Live(Step(h, op)));
    case Store(_, _, _) => StoreSpares(h, op, b);
  }

  /** A whole run in which every call is allowed when it is made. */
  ghost predicate AllowedRun(h: Heap, ops: seq<Op>)
    decreases |ops|
  {
    ops == [] || (Valid(h) && Allowed(h, ops[0]) && AllowedRun(Step(h, ops[0]), ops[1..]))
  }

  ghost function Run(h: Heap, ops: seq<Op>): Heap
    requires AllowedRun(h, ops)
    decreases |ops|
  {
    if ops == [] then h else Run(Step(h, ops[0]), ops[1..])
  }

  /** Through any run of malloc, free, realloc and stores, a block that none of them names stays allocated at its
      address, with its size and all its bytes. */
  lemma {:induction false} RunSpares(h: Heap, ops: seq<Op>, b: Block)
    requires Valid(h) && AllowedRun(h, ops) && b in Live(h)
    requires forall i :: 0 <= i < |ops| ==> Spares(ops[i], b)
    ensures Valid(Run(h, ops)) && Survives(h, Run(h, ops), b)
    decreases |ops|
  {
    hide Valid, Live, Step, Allowed;
    if ops != [] {
      var g := Step(h, ops[0]);
      StepSpares(h, ops[0], b);
      RunSpares(g, ops[1..], b);
      forall k | InPayload(b, k) ensures EqualByte(h, k, Run(h, ops), k) {
        assert EqualByte(h, k, g, k) && EqualByte(g, k, Run(h, ops), k);
      }
    }
  }

  /** No run of calls breaks the heap. */
  lemma {:induction false} RunStaysValid(h: Heap, ops: seq<Op>)
    requires Valid(h) && AllowedRun(h, ops)
    ensures Valid(Run(h, ops))
    decreases |ops|
  {
    hide Valid, Live, Malloc, Realloc, Free, BlockAt, Grows, WorstFit, Scan, Reallocated;
    if ops != [] {
      StepStaysValid(h, ops[0]);
      RunStaysValid(Step(h, ops[0]), ops[1..]);
    }
  }

  lemma StepStaysValid(h: Heap, op: Op)
    requires Valid(h) && Allowed(h, op)
    ensures Valid(Step(h, op))
  {
    hide Valid, Live, Malloc, Realloc, BlockAt, Grows, WorstFit, Scan, Kept, Added;
    match op
    case Alloc(size) => MallocIsRight(h, size);
    case Release(p) =>
      if BlockAt(h, p).Some? {
        LiveAt(h, BlockAt(h, p).value);
        FreeIsRight(h, h.blocks[BlockAt(h, p).value]);
      }
    case Resize(p, size) => ReallocIsRight(h, BlockAt(h, p).value, size);
    case Store(p, at, v) =>
      LiveAt(h, BlockAt(h, p).value);
      BytesInPayload(h, Step(h, op).bytes, h.blocks[BlockAt(h, p).value]);
  }
}
