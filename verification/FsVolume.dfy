/** The file system as functions of the whole volume: disk blocks, bitmap, and the inodes in memory.
    The caches of the source do not appear; FsDriver has them and is proved to compute these functions. */
module FsVolume {
  import opened Bytes
  import opened Options
  import opened FsLayout

  datatype Vol = Vol(disk: seq<Block>, bmap: seq<bv8>, mapBlocks: nat, inodes: seq<Inode>)

  function FirstData(v: Vol): nat { FIRST_BMAP_BLOCK + v.mapBlocks }

  predicate Shape(v: Vol) {
    && |v.bmap| == BLOCK_SIZE * v.mapBlocks
    && FirstData(v) <= |v.disk| <= 8 * |v.bmap| && |v.disk| < WORD
    && forall f :: 0 <= f < |v.inodes| ==> IsInode(v.inodes[f])
  }

  // ---- blocks and the bitmap ----

  function At(v: Vol, b: nat): Block { if b < |v.disk| then v.disk[b] else Zeros() }

  function Put(v: Vol, b: nat, content: Block): Vol { if b < |v.disk| then v.(disk := v.disk[b := content]) else v }

  /** Block k of the bitmap, as it is saved. */
  function BitmapBlock(bmap: seq<bv8>, k: nat): Block {
    seq(BLOCK_SIZE, i requires 0 <= i < BLOCK_SIZE => MapByte(bmap, k, i))
  }

  function MapByte(bmap: seq<bv8>, k: nat, i: nat): byte {
    if BLOCK_SIZE * k + i < |bmap| then bmap[BLOCK_SIZE * k + i] as int else 0
  }

  predicate IsUsed(v: Vol, b: nat) {
    b / 8 < |v.bmap| && BitSet(v.bmap[b / 8], b % 8)
  }

  function SetBit(bmap: seq<bv8>, b: nat, flag: bool): seq<bv8>
    requires b / 8 < |bmap|
  {
    bmap[b / 8 := MarkByte(bmap[b / 8], b % 8, flag)]
  }

  function SaveBitmapBlock(v: Vol, k: nat): Vol {
    Put(v, FIRST_BMAP_BLOCK + k, BitmapBlock(v.bmap, k))
  }

  /** mark_block */
  function Mark(v: Vol, b: nat, flag: bool): Vol
    requires Shape(v) && b < |v.disk|
  {
    SaveBitmapBlock(v.(bmap := SetBit(v.bmap, b, flag)), b / 8 / BLOCK_SIZE)
  }

  /** get_free_block: the first free block from `start` on. */
  function FirstFree(v: Vol, start: nat): (r: Option<nat>)
    ensures r.Some? ==> start <= r.value < |v.disk| && !IsUsed(v, r.value)
    ensures forall b :: start <= b < (if r.Some? then r.value else |v.disk|) ==> IsUsed(v, b)
    decreases |v.disk| - start
  {
    if start >= |v.disk| then None
    else if !IsUsed(v, start) then Some(start)
    else FirstFree(v, start + 1)
  }

  /** alloc_block and clear_block of enlarge_file. None: no block is free from `start` on. */
  function Enlarge(v: Vol, start: nat): Option<(Vol, nat)>
    requires Shape(v)
  {
    match FirstFree(v, start)
    case None => None
    case Some(b) => Some((Put(Mark(v, b, true), b, Zeros()), b))
  }

  // ---- finding, or making, the block of a position ----

  /** Missing: NOT_EXISTENT or NOT_FOUND; Full: the allocator found no free block, which the source does not check. */
  datatype Lookup = Found(v: Vol, block: nat) | Missing | Full

  datatype Ptr = DirectPtr(i: nat) | SinglePtr | DoublePtr

  predicate IsPtr(p: Ptr) { p.DirectPtr? ==> p.i < DIRECT }

  function GetPtr(n: Inode, p: Ptr): nat
    requires IsInode(n) && IsPtr(p)
  {
    match p case DirectPtr(i) => n.direct[i] case SinglePtr => n.single case DoublePtr => n.double
  }

  function SetPtr(n: Inode, p: Ptr, b: nat): Inode
    requires IsInode(n) && IsPtr(p)
  {
    match p
    case DirectPtr(i) => n.(direct := n.direct[i := b])
    case SinglePtr => n.(single := b)
    case DoublePtr => n.(double := b)
  }

  function SetInode(v: Vol, f: nat, n: Inode): Vol
    requires f < |v.inodes|
  {
    v.(inodes := v.inodes[f := n])
  }

  /** write_inode */
  function SaveInode(v: Vol, f: nat): Vol
    requires Shape(v) && f < |v.inodes|
  {
    Put(v, v.inodes[f].adr, InodeBlock(v.inodes[f]))
  }

  /** A pointer of the inode, allocated if it is NULL and that is allowed. */
  function EnsurePtr(v: Vol, f: nat, p: Ptr, allow: bool): (r: Lookup)
    requires Shape(v) && f < |v.inodes| && IsPtr(p)
    ensures r.Found? ==> Shape(r.v) && |r.v.inodes| == |v.inodes| && r.block < WORD
    ensures if allow then !r.Missing? else !r.Full? && (r.Found? ==> r.v == v)
  {
    var b := GetPtr(v.inodes[f], p);
    if b != 0 then Found(v, b)
    else if !allow then Missing
    else
      match Enlarge(v, v.inodes[f].adr)
      case None => Full
      case Some((v1, nb)) => Found(SetInode(v1, f, SetPtr(v1.inodes[f], p, nb)), nb)
  }

  /** An entry of an address block, allocated if it is NULL and that is allowed. */
  function EnsureEntry(v: Vol, parent: nat, k: nat, start: nat, allow: bool): (r: Lookup)
    requires Shape(v) && k < ADDRS
    ensures r.Found? ==> Shape(r.v) && |r.v.inodes| == |v.inodes| && r.block < WORD
    ensures if allow then !r.Missing? else !r.Full? && (r.Found? ==> r.v == v)
  {
    var addrs := Addrs(At(v, parent));
    if addrs[k] != 0 then Found(v, addrs[k])
    else if !allow then Missing
    else
      match Enlarge(v, start)
      case None => Full
      case Some((v1, nb)) => Found(Put(v1, parent, AddrBlock(addrs[k := nb])), nb)
  }

  /** get_data_block up to its write_inode, for logical block n of file f. */
  function Locate(v: Vol, f: nat, n: nat, allow: bool): (r: Lookup)
    requires Shape(v) && f < |v.inodes|
    ensures r.Found? ==> Shape(r.v) && |r.v.inodes| == |v.inodes|
  {
    if n < DIRECT then EnsurePtr(v, f, DirectPtr(n), allow)
    else if n < DIRECT + ADDRS then
      match EnsurePtr(v, f, SinglePtr, allow)
      case Found(v1, sip) => EnsureEntry(v1, sip, n - DIRECT, sip, allow)
      case failed => failed
    else if n < MAX_BLOCKS then
      match EnsurePtr(v, f, DoublePtr, allow)
      case Found(v1, dip) =>
        (var m := n - DIRECT - ADDRS;
        match EnsureEntry(v1, dip, m / ADDRS, dip, allow)
        case Found(v2, sip) => EnsureEntry(v2, sip, m % ADDRS, dip, allow)
        case failed => failed)
      case failed => failed
    else Missing
  }

  /** get_data_block */
  function GetDataBlock(v: Vol, f: nat, pos: nat, allow: bool): (r: Lookup)
    requires Shape(v) && f < |v.inodes|
    ensures r.Found? ==> Shape(r.v) && |r.v.inodes| == |v.inodes|
  {
    match Locate(v, f, pos / BLOCK_SIZE, allow)
    case Found(v1, b) => Found(SaveInode(v1, f), b)
    case failed => failed
  }

  // ---- reading and writing ----

  function Splice(b: Block, at: nat, bytes: seq<byte>): Block
    requires at + |bytes| <= BLOCK_SIZE
  {
    b[..at] + bytes + b[at + |bytes|..]
  }

  function PutBytes(v: Vol, b: nat, at: nat, bytes: seq<byte>): (r: Vol)
    requires Shape(v) && at + |bytes| <= BLOCK_SIZE
    ensures Shape(r) && r.inodes == v.inodes
  {
    Put(v, b, Splice(At(v, b), at, bytes))
  }

  /** fs_read: the bytes read, and the volume afterwards; None if the allocator found no free block. */
  function Read(v: Vol, f: nat, count: nat, pos: nat, allow: bool): Option<(Vol, seq<byte>)>
    requires Shape(v) && f < |v.inodes|
    decreases count
  {
    if (pos > v.inodes[f].size && !allow) || count == 0 then Some((v, []))
    else
      match GetDataBlock(v, f, pos, allow)
      case Missing => Some((v, []))
      case Full => None
      case Found(v1, b) =>
        var offset := pos % BLOCK_SIZE;
        if offset + count <= BLOCK_SIZE then Some((v1, At(v1, b)[offset..offset + count]))
        else
          var here := BLOCK_SIZE - offset;
          match Read(v1, f, count - here, pos + here, allow)
          case None => None
          case Some((v2, rest)) => Some((v2, At(v1, b)[offset..] + rest))
  }

  /** fs_write: the number of bytes written, and the volume afterwards. */
  function Write(v: Vol, f: nat, bytes: seq<byte>, pos: nat, allow: bool): (r: Option<(Vol, nat)>)
    requires Shape(v) && f < |v.inodes| && pos + |bytes| < WORD
    ensures r.Some? ==> Shape(r.value.0) && |r.value.0.inodes| == |v.inodes|
    decreases |bytes|
  {
    if (pos > v.inodes[f].size && !allow) || bytes == [] then Some((v, 0))
    else
      match GetDataBlock(v, f, pos, allow)
      case Missing => Some((v, 0))
      case Full => None
      case Found(v1, b) =>
        var offset := pos % BLOCK_SIZE;
        if offset + |bytes| <= BLOCK_SIZE then
          var v2 := PutBytes(v1, b, offset, bytes);
          Some((SaveInode(Extend(v2, f, pos + |bytes|), f), |bytes|))
        else
          var here := BLOCK_SIZE - offset;
          var v2 := PutBytes(v1, b, offset, bytes[..here]);
          match Write(v2, f, bytes[here..], pos + here, allow)
          case None => None
          case Some((v3, n)) => Some((v3, here + n))
  }

  function Extend(v: Vol, f: nat, end: nat): (r: Vol)
    requires Shape(v) && f < |v.inodes| && end < WORD
    ensures Shape(r) && |r.inodes| == |v.inodes|
  {
    if v.inodes[f].size < end then SetInode(v, f, v.inodes[f].(size := end)) else v
  }
}
