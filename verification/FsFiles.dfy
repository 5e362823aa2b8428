/** Files as sequences of bytes: what fs_write changes, and that fs_read gives back what was written. */
module FsFiles {
  import opened Bytes
  import opened Options
  import opened FsLayout
  import opened FsVolume
  import opened FsOwnership
  import opened FsGrowth
  import opened FsLookup

  /** The byte at position q of file g; None where the file has no block. */
  function ByteAt(v: Vol, g: nat, q: nat): Option<byte>
    requires Shape(v) && g < |v.inodes|
  {
    if q >= MAX_BYTES then None
    else
      match FileBlock(v, g, q / BLOCK_SIZE)
      case None => None
      case Some(b) => Some(b[q % BLOCK_SIZE])
  }

  /** Position q lies in a block that n bytes at pos reach into. */
  predicate Touched(q: nat, pos: nat, n: nat) {
    n > 0 && pos / BLOCK_SIZE <= q / BLOCK_SIZE <= (pos + n - 1) / BLOCK_SIZE
  }

  /** Byte q of file g after writing `bytes` at pos of file f. */
  function ByteAfter(v: Vol, g: nat, q: nat, f: nat, pos: nat, bytes: seq<byte>): Option<byte>
    requires Shape(v) && g < |v.inodes|
  {
    if g == f && pos <= q < pos + |bytes| then Some(bytes[q - pos])
    else if ByteAt(v, g, q).Some? then ByteAt(v, g, q)
    else if g == f && q < MAX_BYTES && Touched(q, pos, |bytes|) then Some(0)
    else None
  }

  /** Exactly the given bytes changed: everything else in this file and in all others reads as before, and new
      blocks read as zeros. */
  ghost predicate Wrote(v: Vol, w: Vol, f: nat, pos: nat, bytes: seq<byte>)
    requires Shape(v) && Shape(w) && |w.inodes| == |v.inodes|
  {
    forall g: nat, q: nat :: g < |v.inodes| ==> ByteAt(w, g, q) == ByteAfter(v, g, q, f, pos, bytes)
  }

  lemma WroteNothing(v: Vol, f: nat, pos: nat)
    requires Shape(v)
    ensures Wrote(v, v, f, pos, [])
  {
  }

  /** Two writes, the second starting where the first ended on the edge of a block. */
  lemma WroteTwice(v: Vol, u: Vol, w: Vol, f: nat, pos: nat, a: seq<byte>, b: seq<byte>)
    requires Shape(v) && Shape(u) && Shape(w) && |u.inodes| == |v.inodes| == |w.inodes|
    requires Wrote(v, u, f, pos, a) && Wrote(u, w, f, pos + |a|, b) && (pos + |a|) % BLOCK_SIZE == 0 && a != []
    ensures Wrote(v, w, f, pos, a + b)
  {
    hide ByteAt;
    forall g: nat, q: nat | g < |v.inodes| ensures ByteAt(w, g, q) == ByteAfter(v, g, q, f, pos, a + b) {
      assert ByteAt(u, g, q) == ByteAfter(v, g, q, f, pos, a);
      assert ByteAt(w, g, q) == ByteAfter(u, g, q, f, pos + |a|, b);
      TouchedTwice(q, pos, |a|, |b|);
    }
  }

  lemma TouchedTwice(q: nat, pos: nat, m: nat, n: nat)
    requires m > 0 && (pos + m) % BLOCK_SIZE == 0
    ensures Touched(q, pos, m + n) <==> Touched(q, pos, m) || Touched(q, pos + m, n)
  {
    assert (pos + m - 1) / BLOCK_SIZE == (pos + m) / BLOCK_SIZE - 1;
  }

  /** The data block part of fs_write. */
  lemma BlockWrites(v: Vol, u: Vol, f: nat, pos: nat, b: nat, chunk: seq<byte>)
    requires Stable(v) && f < |v.inodes| && pos < MAX_BYTES && chunk != [] && pos % BLOCK_SIZE + |chunk| <= BLOCK_SIZE
    requires Stable(u) && SameFrame(v, u) && SlotsGrew(v, u, f) && Opened(v, u, f, pos / BLOCK_SIZE)
    requires b != 0 && Holds(u, Data(f, pos / BLOCK_SIZE)) == b
    ensures var w := Put(u, b, Splice(At(u, b), pos % BLOCK_SIZE, chunk));
            && Stable(w) && w.inodes == u.inodes && SlotsGrew(v, w, f) && Wrote(v, w, f, pos, chunk)
  {
    var n := pos / BLOCK_SIZE;
    var content := Splice(At(u, b), pos % BLOCK_SIZE, chunk);
    var w := Put(u, b, content);
    PutKeepsSlots(u, Data(f, n), content);
    SlotsGrewSame(v, u, w, f);
    hide Own, Holds, SlotsGrew, SameFrame, Opened;
    forall g | 0 <= g < |u.inodes| ensures At(w, w.inodes[g].adr) == InodeBlock(w.inodes[g]) {
      AdrIsHeld(u, g);
      DistinctSlots(u, Data(f, n), InodeOf(g));
    }
    forall g: nat, q: nat | g < |v.inodes| ensures ByteAt(w, g, q) == ByteAfter(v, g, q, f, pos, chunk) {
      if q < MAX_BYTES {
        FileBlockAfterPut(u, w, f, n, b, content, g, q / BLOCK_SIZE);
        ByteOfSplice(v, u, f, pos, chunk, g, q);
      }
    }
  }

  lemma FileBlockAfterPut(u: Vol, w: Vol, f: nat, n: nat, b: nat, content: Block, g: nat, m: nat)
    requires Own(u) && Shape(w) && w.inodes == u.inodes && f < |u.inodes| && g < |u.inodes| && n < MAX_BLOCKS
        && m < MAX_BLOCKS
    requires Holds(u, Data(f, n)) == b != 0 && At(w, b) == content
    requires forall c: nat :: c != b ==> At(w, c) == At(u, c)
    requires forall s :: ValidSlot(u, s) ==> Holds(w, s) == Holds(u, s)
    ensures FileBlock(w, g, m) == if g == f && m == n then Some(content) else FileBlock(u, g, m)
  {
    hide Own, Holds;
    if Data(g, m) != Data(f, n) && Holds(u, Data(g, m)) != 0 {
      DistinctSlots(u, Data(g, m), Data(f, n));
    }
  }

  lemma ByteOfSplice(v: Vol, u: Vol, f: nat, pos: nat, chunk: seq<byte>, g: nat, q: nat)
    requires Shape(v) && Shape(u) && |u.inodes| == |v.inodes| && f < |v.inodes| && g < |v.inodes|
    requires pos < MAX_BYTES && q < MAX_BYTES && chunk != [] && pos % BLOCK_SIZE + |chunk| <= BLOCK_SIZE
    requires Opened(v, u, f, pos / BLOCK_SIZE) && FileBlock(u, f, pos / BLOCK_SIZE).Some?
    ensures var n := pos / BLOCK_SIZE;
            var content := Splice(FileBlock(u, f, n).value, pos % BLOCK_SIZE, chunk);
            ByteAfter(v, g, q, f, pos, chunk) ==
              if g == f && q / BLOCK_SIZE == n then Some(content[q % BLOCK_SIZE]) else ByteAt(u, g, q)
  {
    hide FileBlock;
    var n := pos / BLOCK_SIZE;
    assert (pos + |chunk| - 1) / BLOCK_SIZE == n;
    assert FileBlock(u, g, q / BLOCK_SIZE) ==
           if g == f && q / BLOCK_SIZE == n && FileBlock(v, g, q / BLOCK_SIZE) == None then Some(Zeros())
           else FileBlock(v, g, q / BLOCK_SIZE);
  }

  // ---- fs_write ----

  function Clip(n: nat, pos: nat): nat {
    if pos >= MAX_BYTES then 0 else if pos + n <= MAX_BYTES then n else MAX_BYTES - pos
  }

  /** What fs_write comes to when c of the given bytes were written. */
  ghost predicate WriteSpec(v: Vol, f: nat, bytes: seq<byte>, pos: nat, allow: bool, w: Vol, c: nat)
    requires Shape(v) && f < |v.inodes|
  {
    && Stable(w) && SlotsGrew(v, w, f)
    && c <= |bytes| && (allow ==> c == Clip(|bytes|, pos))
    && Wrote(v, w, f, pos, bytes[..c])
    && w.inodes[f].size == (if c == |bytes| && c > 0 && v.inodes[f].size < pos + c then pos + c else v.inodes[f].size)
  }

  lemma {:induction false} WriteIsRight(v: Vol, f: nat, bytes: seq<byte>, pos: nat, allow: bool)
    requires Stable(v) && f < |v.inodes| && pos + |bytes| < WORD
    ensures var r := Write(v, f, bytes, pos, allow);
            r.Some? ==> WriteSpec(v, f, bytes, pos, allow, r.value.0, r.value.1)
    decreases |bytes|
  {
    hide GetDataBlock, Stable, Holds, SlotsGrew, Wrote, Opened, At, SameFrame, WriteSpec, Splice;
    GetDataBlockIsRight(v, f, pos, allow);
    var l := GetDataBlock(v, f, pos, allow);
    if (pos > v.inodes[f].size && !allow) || bytes == [] || l.Missing? {
      WriteStops(v, f, bytes, pos, allow);
    } else if l.Found? {
      if pos % BLOCK_SIZE + |bytes| <= BLOCK_SIZE {
        LastBlock(v, l.v, f, bytes, pos, allow, l.block);
      } else {
        FirstBlock(v, l.v, f, bytes, pos, allow, l.block);
      }
    }
  }

  lemma SlotsGrewIdle(v: Vol, f: nat)
    requires Own(v)
    ensures SlotsGrew(v, v, f)
  {
  }

  lemma WriteStops(v: Vol, f: nat, bytes: seq<byte>, pos: nat, allow: bool)
    requires Stable(v) && f < |v.inodes|
    requires (pos > v.inodes[f].size && !allow) || bytes == [] || (pos >= MAX_BYTES || !allow)
    ensures WriteSpec(v, f, bytes, pos, allow, v, 0)
  {
    SlotsGrewIdle(v, f);
    WroteNothing(v, f, pos);
    assert bytes[..0] == [];
  }

  lemma ExtendSyncs(v: Vol, f: nat, end: nat)
    requires Stable(v) && f < |v.inodes| && end < WORD
    ensures var w := SaveInode(Extend(v, f, end), f);
            && Stable(w) && w.bmap == v.bmap && w.mapBlocks == v.mapBlocks && |w.disk| == |v.disk|
            && w.inodes == Extend(v, f, end).inodes
            && (forall s :: ValidSlot(v, s) ==> Holds(w, s) == Holds(v, s))
            && (forall g, m :: 0 <= g < |v.inodes| && 0 <= m < MAX_BLOCKS ==> FileBlock(w, g, m) == FileBlock(v, g, m))
  {
    hide Own, Holds, InodeBlock, SaveInode;
    var u := Extend(v, f, end);
    forall s | ValidSlot(v, s) ensures Holds(u, s) == Holds(v, s) {
      ExtendKeepsSlot(v, f, end, s);
    }
    OwnIgnoresSize(v, u, f);
    SaveKeepsAll(u, f);
    SaveSyncs(u, f);
  }

  lemma ExtendKeepsSlot(v: Vol, f: nat, end: nat, s: Slot)
    requires Shape(v) && f < |v.inodes| && end < WORD && ValidSlot(v, s)
    ensures Holds(Extend(v, f, end), s) == Holds(v, s)
  {
    HoldsFrame(v, Extend(v, f, end), s);
  }

  lemma OwnIgnoresSize(v: Vol, u: Vol, f: nat)
    requires Own(v) && f < |v.inodes| && Shape(u) && u == v.(inodes := u.inodes) && |u.inodes| == |v.inodes|
    requires u.inodes == v.inodes[f := v.inodes[f].(size := u.inodes[f].size)]
    requires forall s :: ValidSlot(v, s) ==> Holds(u, s) == Holds(v, s)
    ensures Own(u)
  {
    hide Holds;
    forall s | ValidSlot(u, s) && Holds(u, s) != 0 ensures Legal(u, s, Holds(u, s)) {
      assert Legal(v, s, Holds(v, s));
    }
    forall c | 0 <= c < FirstData(u) ensures IsUsed(u, c) {
      assert IsUsed(v, c);
    }
  }

  lemma LastBlock(v: Vol, u: Vol, f: nat, bytes: seq<byte>, pos: nat, allow: bool, b: nat)
    requires Stable(v) && f < |v.inodes| && pos < MAX_BYTES && pos + |bytes| < WORD
    requires bytes != [] && pos % BLOCK_SIZE + |bytes| <= BLOCK_SIZE
    requires Stable(u) && SameFrame(v, u) && SlotsGrew(v, u, f) && Opened(v, u, f, pos / BLOCK_SIZE)
    requires b != 0 && Holds(u, Data(f, pos / BLOCK_SIZE)) == b
    ensures var w := Put(u, b, Splice(At(u, b), pos % BLOCK_SIZE, bytes));
            Shape(w) && WriteSpec(v, f, bytes, pos, allow, SaveInode(Extend(w, f, pos + |bytes|), f), |bytes|)
  {
    hide Own, Holds, FileBlock, SlotsGrew, Stable, Opened, SameFrame, At, Put, Splice, SaveInode;
    BlockWrites(v, u, f, pos, b, bytes);
    var w := Put(u, b, Splice(At(u, b), pos % BLOCK_SIZE, bytes));
    SameFrameSize(v, u, f);
    ExtendSyncs(w, f, pos + |bytes|);
    var x := SaveInode(Extend(w, f, pos + |bytes|), f);
    StableOwns(v);
    StableOwns(x);
    SlotsGrewSame(v, w, x, f);
    SlotsGrewShape(v, w, f);
    forall g: nat, q: nat | g < |v.inodes| ensures ByteAt(x, g, q) == ByteAfter(v, g, q, f, pos, bytes) {
      assert ByteAt(w, g, q) == ByteAfter(v, g, q, f, pos, bytes);
    }
    assert bytes[..|bytes|] == bytes;
    assert pos + |bytes| <= MAX_BYTES;
  }

  lemma FirstBlock(v: Vol, u: Vol, f: nat, bytes: seq<byte>, pos: nat, allow: bool, b: nat)
    requires Stable(v) && f < |v.inodes| && pos < MAX_BYTES && pos + |bytes| < WORD
    requires pos % BLOCK_SIZE + |bytes| > BLOCK_SIZE
    requires Stable(u) && SameFrame(v, u) && SlotsGrew(v, u, f) && Opened(v, u, f, pos / BLOCK_SIZE)
    requires b != 0 && Holds(u, Data(f, pos / BLOCK_SIZE)) == b
    ensures var here := BLOCK_SIZE - pos % BLOCK_SIZE;
            var w := Put(u, b, Splice(At(u, b), pos % BLOCK_SIZE, bytes[..here]));
            && Shape(w) && f < |w.inodes|
            && var r := Write(w, f, bytes[here..], pos + here, allow);
               r.Some? ==> WriteSpec(v, f, bytes, pos, allow, r.value.0, here + r.value.1)
    decreases |bytes|, 0
  {
    hide Own, Holds, FileBlock, SlotsGrew, Stable, Opened, SameFrame, At, Put, Splice, Write, ByteAt, Wrote;
    var here := BLOCK_SIZE - pos % BLOCK_SIZE;
    var a, rest := bytes[..here], bytes[here..];
    BlockWrites(v, u, f, pos, b, a);
    var w := Put(u, b, Splice(At(u, b), pos % BLOCK_SIZE, a));
    SameFrameSize(v, u, f);
    SlotsGrewShape(v, w, f);
    WriteIsRight(w, f, rest, pos + here, allow);
    var r := Write(w, f, rest, pos + here, allow);
    if r.Some? {
      var (x, c) := r.value;
      StableOwns(v);
      SlotsGrewTwice(v, w, x, f);
      SlotsGrewShape(w, x, f);
      WroteTwice(v, w, x, f, pos, a, rest[..c]);
      assert a + rest[..c] == bytes[..here + c];
    }
  }

  lemma SameFrameSize(v: Vol, u: Vol, f: nat)
    requires SameFrame(v, u) && f < |v.inodes|
    ensures |u.inodes| == |v.inodes| && u.inodes[f].size == v.inodes[f].size
  {
  }

  lemma SlotsGrewShape(v: Vol, w: Vol, f: nat)
    requires Shape(v) && SlotsGrew(v, w, f)
    ensures |w.inodes| == |v.inodes| && Own(w)
  {
  }

  lemma StableOwns(v: Vol)
    requires Stable(v)
    ensures Own(v)
  {
  }

  // ---- fs_read, without enlargement ----

  /** The first position of the last block that n bytes at pos reach into, or pos itself. */
  function LastStart(pos: nat, n: nat): nat {
    if n == 0 then pos else Max(pos, (pos + n - 1) / BLOCK_SIZE * BLOCK_SIZE)
  }

  function Max(a: nat, b: nat): nat { if a < b then b else a }

  /** All n bytes at pos can be read: they have blocks, and no block starts beyond the file's size. */
  ghost predicate Readable(v: Vol, f: nat, n: nat, pos: nat)
    requires Shape(v) && f < |v.inodes|
  {
    n == 0 || (LastStart(pos, n) <= v.inodes[f].size && forall q: nat :: pos <= q < pos + n ==> ByteAt(v, f, q).Some?)
  }

  /** Reading goes on block by block: it ends after k bytes at an edge of a block, or at once, where the next block is
      missing or would start beyond the file's size. */
  predicate StopsAfter(v: Vol, f: nat, pos: nat, k: nat)
    requires Shape(v) && f < |v.inodes|
  {
    (k == 0 || (pos + k) % BLOCK_SIZE == 0) && (pos + k > v.inodes[f].size || ByteAt(v, f, pos + k) == None)
  }

  /** fs_read returns the bytes at pos, all n of them exactly if they are readable, and otherwise those before the
      first place where reading has to end. */
  ghost predicate ReadSpec(v: Vol, f: nat, n: nat, pos: nat, bytes: seq<byte>)
    requires Shape(v) && f < |v.inodes|
  {
    && |bytes| <= n
    && (forall q: nat :: pos <= q < pos + |bytes| ==> ByteAt(v, f, q) == Some(bytes[q - pos]))
    && (|bytes| == n <==> Readable(v, f, n, pos))
    && Readable(v, f, |bytes|, pos) && (|bytes| < n ==> StopsAfter(v, f, pos, |bytes|))
  }

  /** Which fixes how many bytes are read. */
  lemma ReadLengthIsFixed(v: Vol, f: nat, n: nat, pos: nat, a: seq<byte>, b: seq<byte>)
    requires Shape(v) && f < |v.inodes| && ReadSpec(v, f, n, pos, a) && ReadSpec(v, f, n, pos, b)
    ensures a == b
  {
    hide ByteAt, Readable, StopsAfter;
    NoneBeyond(v, f, pos, |a|, |b|);
    NoneBeyond(v, f, pos, |b|, |a|);
    forall i | 0 <= i < |a| && i < |b| ensures a[i] == b[i] {
      assert ByteAt(v, f, pos + i) == Some(a[i]);
    }
  }

  lemma NoneBeyond(v: Vol, f: nat, pos: nat, k: nat, m: nat)
    requires Shape(v) && f < |v.inodes|
    ensures StopsAfter(v, f, pos, k) && k < m ==> !Readable(v, f, m, pos)
  {
    hide ByteAt, LastStart;
    if k < m && (k == 0 || (pos + k) % BLOCK_SIZE == 0) {
      LongerIsLater(pos, k, m);
    }
  }

  lemma LongerIsLater(pos: nat, k: nat, n: nat)
    requires k < n && (k == 0 || (pos + k) % BLOCK_SIZE == 0)
    ensures LastStart(pos, n) >= pos + k
  {
    assert (pos + n - 1) / BLOCK_SIZE >= (pos + k) / BLOCK_SIZE;
  }

  lemma LookupWithoutGrowth(v: Vol, f: nat, pos: nat)
    requires Stable(v) && f < |v.inodes|
    ensures var l := GetDataBlock(v, f, pos, false);
            && (l.Missing? || l.Found?)
            && (l.Missing? <==> ByteAt(v, f, pos) == None)
            && (l.Found? ==> l.v == v && pos < MAX_BYTES && FileBlock(v, f, pos / BLOCK_SIZE) == Some(At(v, l.block)))
  {
    GetDataBlockIsRight(v, f, pos, false);
  }

  lemma {:induction false} ReadIsRight(v: Vol, f: nat, n: nat, pos: nat)
    requires Stable(v) && f < |v.inodes|
    ensures var r := Read(v, f, n, pos, false);
            r.Some? && r.value.0 == v && ReadSpec(v, f, n, pos, r.value.1)
    decreases n
  {
    hide Stable, GetDataBlock, Holds, FileBlock, ByteAt;
    LookupWithoutGrowth(v, f, pos);
    var l := GetDataBlock(v, f, pos, false);
    if pos <= v.inodes[f].size && n > 0 && l.Found? {
      var block := At(v, l.block);
      var offset := pos % BLOCK_SIZE;
      if offset + n <= BLOCK_SIZE {
        OneBlockRead(v, f, n, pos, block);
      } else {
        var here := BLOCK_SIZE - offset;
        ReadIsRight(v, f, n - here, pos + here);
        ReadOn(v, f, n, pos, block, Read(v, f, n - here, pos + here, false).value.1);
      }
    }
  }

  lemma OneBlockRead(v: Vol, f: nat, n: nat, pos: nat, block: Block)
    requires Shape(v) && f < |v.inodes| && pos < MAX_BYTES && FileBlock(v, f, pos / BLOCK_SIZE) == Some(block)
    requires 0 < n && pos % BLOCK_SIZE + n <= BLOCK_SIZE && pos <= v.inodes[f].size
    ensures ReadSpec(v, f, n, pos, block[pos % BLOCK_SIZE..pos % BLOCK_SIZE + n])
  {
    forall q: nat | pos <= q < pos + n ensures ByteAt(v, f, q) == Some(block[pos % BLOCK_SIZE + (q - pos)]) {
      ByteOfBlock(v, f, pos, q - pos, block);
    }
    assert LastStart(pos, n) == pos;
  }

  lemma ReadOn(v: Vol, f: nat, n: nat, pos: nat, block: Block, rest: seq<byte>)
    requires Shape(v) && f < |v.inodes| && pos < MAX_BYTES && FileBlock(v, f, pos / BLOCK_SIZE) == Some(block)
    requires pos % BLOCK_SIZE + n > BLOCK_SIZE && pos <= v.inodes[f].size
    requires var here := BLOCK_SIZE - pos % BLOCK_SIZE; ReadSpec(v, f, n - here, pos + here, rest)
    ensures ReadSpec(v, f, n, pos, block[pos % BLOCK_SIZE..] + rest)
  {
    hide ByteAt;
    var here := BLOCK_SIZE - pos % BLOCK_SIZE;
    var all := block[pos % BLOCK_SIZE..] + rest;
    forall q: nat | pos <= q < pos + |all| ensures ByteAt(v, f, q) == Some(all[q - pos]) {
      if q < pos + here {
        ByteOfBlock(v, f, pos, q - pos, block);
      }
    }
    LastStartOn(pos, n);
  }

  lemma ByteOfBlock(v: Vol, f: nat, pos: nat, i: nat, block: Block)
    requires Shape(v) && f < |v.inodes| && pos < MAX_BYTES && FileBlock(v, f, pos / BLOCK_SIZE) == Some(block)
    requires pos % BLOCK_SIZE + i < BLOCK_SIZE
    ensures ByteAt(v, f, pos + i) == Some(block[pos % BLOCK_SIZE + i])
  {
    assert (pos + i) / BLOCK_SIZE == pos / BLOCK_SIZE && (pos + i) % BLOCK_SIZE == pos % BLOCK_SIZE + i;
  }

  lemma LastStartOn(pos: nat, n: nat)
    requires pos % BLOCK_SIZE + n > BLOCK_SIZE
    ensures LastStart(pos, n) ==
        LastStart(pos + (BLOCK_SIZE - pos % BLOCK_SIZE), n - (BLOCK_SIZE - pos % BLOCK_SIZE)) >= pos
  {
  }

  // ---- the main theorems ----

  /** What was written is what is read, exactly if it lies within the range of an inode. A longer write fills the
      range to its end but leaves the size alone, so not even that part need be readable. */
  lemma ReadBackIffInRange(v: Vol, f: nat, bytes: seq<byte>, pos: nat)
    requires Stable(v) && f < |v.inodes| && pos + |bytes| < WORD && bytes != []
    requires Write(v, f, bytes, pos, true).Some?
    ensures var w := Write(v, f, bytes, pos, true).value.0;
            && f < |w.inodes|
            && (Read(w, f, |bytes|, pos, false) == Some((w, bytes)) <==> pos + |bytes| <= MAX_BYTES)
  {
    hide Write, Read, Stable, SlotsGrew, ByteAt;
    WriteIsRight(v, f, bytes, pos, true);
    var (w, c) := Write(v, f, bytes, pos, true).value;
    SlotsGrewShape(v, w, f);
    ReadIsRight(w, f, |bytes|, pos);
    var read := Read(w, f, |bytes|, pos, false).value.1;
    if pos + |bytes| <= MAX_BYTES {
      assert bytes[..c] == bytes;
      forall q: nat | pos <= q < pos + |bytes| ensures ByteAt(w, f, q) == Some(bytes[q - pos]) {
        assert ByteAt(w, f, q) == ByteAfter(v, f, q, f, pos, bytes);
      }
      assert Readable(w, f, |bytes|, pos);
      forall i | 0 <= i < |bytes| ensures read[i] == bytes[i] {
        assert ByteAt(w, f, pos + i) == Some(read[i]);
      }
      assert read == bytes;
    } else {
      NothingBeyond(w, f, pos + |bytes| - 1);
    }
  }

  lemma NothingBeyond(v: Vol, f: nat, q: nat)
    requires Shape(v) && f < |v.inodes| && q >= MAX_BYTES
    ensures ByteAt(v, f, q) == None
  {
  }

  /** Whatever could be read before a write, in this file outside the written range or in any other file, is read
      unchanged after it. */
  lemma OtherReadsStay(v: Vol, f: nat, bytes: seq<byte>, pos: nat, allow: bool, g: nat, n: nat, at: nat)
    requires Stable(v) && f < |v.inodes| && g < |v.inodes| && pos + |bytes| < WORD
    requires Write(v, f, bytes, pos, allow).Some? && Readable(v, g, n, at)
    requires g != f || at + n <= pos || pos + |bytes| <= at
    ensures var w := Write(v, f, bytes, pos, allow).value.0;
            && g < |w.inodes|
            && Read(v, g, n, at, false).Some? && Read(w, g, n, at, false).Some?
            && Read(w, g, n, at, false).value.1 == Read(v, g, n, at, false).value.1
  {
    hide Write, Read, Stable, ByteAt;
    WriteIsRight(v, f, bytes, pos, allow);
    var (w, c) := Write(v, f, bytes, pos, allow).value;
    SlotsGrewShape(v, w, f);
    ReadIsRight(v, g, n, at);
    ReadIsRight(w, g, n, at);
    var before, after := Read(v, g, n, at, false).value.1, Read(w, g, n, at, false).value.1;
    forall q: nat | at <= q < at + n ensures ByteAt(w, g, q) == ByteAt(v, g, q) && ByteAt(v, g, q).Some? {
      assert ByteAt(w, g, q) == ByteAfter(v, g, q, f, pos, bytes[..c]);
    }
    assert w.inodes[g].size >= v.inodes[g].size;
    assert Readable(w, g, n, at);
    assert |before| == |after| == n;
    forall i | 0 <= i < n ensures before[i] == after[i] {
      assert ByteAt(v, g, at + i) == Some(before[i]) && ByteAt(w, g, at + i) == Some(after[i]);
    }
  }

  /** No used block is lost track of: each is metadata or held by a slot. */
  ghost predicate Exact(v: Vol)
    requires Shape(v)
  {
    forall c: nat :: FirstData(v) <= c < |v.disk| && IsUsed(v, c) ==>
        exists f :: 0 <= f < |v.inodes| && OwnedBy(v, f, c)
  }

  /** Writing, however much it grows a file, keeps the bitmap exact. */
  lemma WriteKeepsExact(v: Vol, f: nat, bytes: seq<byte>, pos: nat, allow: bool)
    requires Stable(v) && Exact(v) && f < |v.inodes| && pos + |bytes| < WORD
    requires Write(v, f, bytes, pos, allow).Some?
    ensures Exact(Write(v, f, bytes, pos, allow).value.0)
  {
    hide Write, Stable, Wrote, IsUsed;
    WriteIsRight(v, f, bytes, pos, allow);
    var w := Write(v, f, bytes, pos, allow).value.0;
    SlotsGrewShape(v, w, f);
    forall c: nat | FirstData(w) <= c < |w.disk| && IsUsed(w, c)
      ensures exists g :: 0 <= g < |w.inodes| && OwnedBy(w, g, c)
    {
      if IsUsed(v, c) {
        var g :| 0 <= g < |v.inodes| && OwnedBy(v, g, c);
        var s :| ValidSlot(v, s) && s.f == g && Holds(v, s) == c;
        assert ValidSlot(w, s) && Holds(w, s) == c;
        assert OwnedBy(w, g, c);
      } else {
        assert OwnedBy(w, f, c);
      }
    }
  }
}
