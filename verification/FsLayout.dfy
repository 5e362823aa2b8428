/** How the file system lays out blocks: address blocks, inode blocks and the block bitmap. */
module FsLayout {
  import opened Bytes

  const BLOCK_SIZE := 512
  const ADDRS := 128          // addresses in a block
  const DIRECT := 30          // direct pointers of an inode
  const MAX_BLOCKS := DIRECT + ADDRS + ADDRS * ADDRS
  const MAX_BYTES := MAX_BLOCKS * BLOCK_SIZE
  const FIRST_BMAP_BLOCK := 3
  const ROOT_INODE_BLOCK := 2

  type Block = b: seq<byte> | |b| == BLOCK_SIZE witness seq(BLOCK_SIZE, _ => 0)

  function Zeros(): Block { seq(BLOCK_SIZE, _ => 0) }

  // ---- address blocks ----

  predicate IsAddrs(a: seq<nat>) {
    |a| == ADDRS && forall k :: 0 <= k < ADDRS ==> a[k] < WORD
  }

  function Addr(b: Block, k: nat): nat
    requires k < ADDRS
  {
    WordAt(b, 4 * k)
  }

  function Addrs(b: Block): (a: seq<nat>)
    ensures IsAddrs(a)
  {
    seq(ADDRS, k requires 0 <= k < ADDRS => Addr(b, k))
  }

  function AddrBlock(a: seq<nat>): Block
    requires IsAddrs(a)
  {
    seq(BLOCK_SIZE, i requires 0 <= i < BLOCK_SIZE => ByteOf(a[i / 4], i % 4))
  }

  lemma AddrOfBlock(a: seq<nat>, k: nat)
    requires IsAddrs(a) && k < ADDRS
    ensures Addr(AddrBlock(a), k) == a[k]
  {
    WordOfBytes(AddrBlock(a), 4 * k, a[k]);
  }

  /** Writing back an address block with one address changed changes that address only. */
  lemma AddrUpdated(b: Block, i: nat, x: nat, k: nat)
    requires i < ADDRS && k < ADDRS && x < WORD
    ensures Addr(AddrBlock(Addrs(b)[i := x]), k) == if k == i then x else Addr(b, k)
  {
    AddrOfBlock(Addrs(b)[i := x], k);
  }

  /** A cleared block holds no addresses. */
  lemma ZerosHoldNoAddress(k: nat)
    requires k < ADDRS
    ensures Addr(Zeros(), k) == 0
  {
  }

  // ---- inodes ----

  /** An inode; `stamps` are the two timestamps. */
  datatype Inode = Inode(adr: nat, mode: nat, size: nat, stamps: seq<byte>, direct: seq<nat>, single: nat, double: nat)

  predicate IsInode(n: Inode) {
    && n.mode < 0x1_0000 && n.size < WORD && |n.stamps| == 16
    && |n.direct| == DIRECT && (forall i :: 0 <= i < DIRECT ==> n.direct[i] < WORD)
    && n.single < WORD && n.double < WORD
  }

  /** What write_inode puts on the disk: the packed fields, and zeros to the end of the block. */
  function InodeBlock(n: Inode): Block
    requires IsInode(n)
  {
    seq(BLOCK_SIZE, i requires 0 <= i < BLOCK_SIZE =>
      if i < 2 then ByteOf(n.mode, i)
      else if i < 6 then ByteOf(n.size, i - 2)
      else if i < 22 then n.stamps[i - 6]
      else if i < 142 then ByteOf(n.direct[(i - 22) / 4], (i - 22) % 4)
      else if i < 146 then ByteOf(n.single, i - 142)
      else if i < 150 then ByteOf(n.double, i - 146)
      else 0)
  }

  /** What read_minode makes of a block. */
  function ReadInode(adr: nat, b: Block): Inode {
    Inode(adr, (b[0] as int) + 0x100 * (b[1] as int), WordAt(b, 2), b[6..22],
          seq(DIRECT, i requires 0 <= i < DIRECT => WordAt(b, 22 + 4 * i)), WordAt(b, 142), WordAt(b, 146))
  }

  /** An inode written to its block is the inode read back from it. */
  lemma InodeRoundTrip(n: Inode)
    requires IsInode(n)
    ensures ReadInode(n.adr, InodeBlock(n)) == n
  {
    var b := InodeBlock(n);
    var m := ReadInode(n.adr, b);
    WordOfBytes(b, 2, n.size);
    WordOfBytes(b, 142, n.single);
    WordOfBytes(b, 146, n.double);
    assert m.stamps == n.stamps;
    assert m.mode == n.mode by { assert b[0] == ByteOf(n.mode, 0) && b[1] == ByteOf(n.mode, 1); }
    forall i | 0 <= i < DIRECT ensures m.direct[i] == n.direct[i] {
      DirectOfBlock(n, i);
    }
    assert m.direct == n.direct;
  }

  lemma DirectOfBlock(n: Inode, i: nat)
    requires IsInode(n) && i < DIRECT
    ensures WordAt(InodeBlock(n), 22 + 4 * i) == n.direct[i]
  {
    WordOfBytes(InodeBlock(n), 22 + 4 * i, n.direct[i]);
  }

  // ---- the bitmap: block b is bit b % 8 of byte b / 8, counted from the highest bit ----

  function MarkByte(byte0: bv8, bit: nat, flag: bool): bv8
    requires bit < 8
  {
    var left := (byte0 >> (8 - bit)) | (byte0 << bit);
    var marked := if flag then left | 0x80 else left & 0x7F;
    (marked >> bit) | (marked << (8 - bit))
  }

  predicate BitSet(byte0: bv8, bit: nat)
    requires bit < 8
  {
    (byte0 << bit) & 0x80 != 0
  }

  /** The byte with bit `bit` only. */
  function Mask(bit: nat): bv8
    requires bit < 8
  {
    0x80 >> bit
  }

  predicate OneBit(b: bv8) { b != 0 && b & (b - 1) == 0 }

  predicate Less(a: bv8, b: bv8) { a < b }

  lemma MaskStep(bit: nat)
    requires bit < 8
    ensures OneBit(Mask(bit)) && (bit < 7 ==> Less(Mask(bit + 1), Mask(bit)))
  {
  }

  lemma {:induction false} MasksDecrease(bit: nat, other: nat)
    requires bit < other < 8
    ensures Less(Mask(other), Mask(bit))
    decreases other
  {
    hide Mask, OneBit;
    MaskStep(other - 1);
    if bit < other - 1 {
      MasksDecrease(bit, other - 1);
    }
  }

  lemma MasksApart(byte0: bv8, bit: nat, other: nat)
    requires bit < 8 && other < 8 && bit != other
    ensures (byte0 | Mask(bit)) & Mask(other) == byte0 & Mask(other)
    ensures (byte0 & !Mask(bit)) & Mask(other) == byte0 & Mask(other)
  {
    hide Mask, OneBit, Less;
    MaskStep(bit);
    MaskStep(other);
    if bit < other {
      MasksDecrease(bit, other);
    } else {
      MasksDecrease(other, bit);
    }
    OneBitsApart(byte0, Mask(bit), Mask(other));
  }

  lemma OneBitsApart(byte0: bv8, x: bv8, y: bv8)
    requires OneBit(x) && OneBit(y) && (Less(x, y) || Less(y, x))
    ensures (byte0 | x) & y == byte0 & y && (byte0 & !x) & y == byte0 & y
  {
  }

  lemma SameMask(byte0: bv8, x: bv8)
    requires OneBit(x)
    ensures (byte0 | x) & x != 0 && (byte0 & !x) & x == 0
  {
  }

  /** Rotating a byte, changing its highest bit and rotating back is the same as changing the bit where it is. */
  lemma SettingIsMask(byte0: bv8, bit: nat)
    requires bit < 8
    ensures MarkByte(byte0, bit, true) == byte0 | Mask(bit)
  {
    match bit {
      case 0 => assert Mask(0) == 0x80;
      case 1 => assert Mask(1) == 0x40;
      case 2 => assert Mask(2) == 0x20;
      case 3 => assert Mask(3) == 0x10;
      case 4 => assert Mask(4) == 0x08;
      case 5 => assert Mask(5) == 0x04;
      case 6 => assert Mask(6) == 0x02;
      case _ => assert Mask(7) == 0x01;
    }
  }

  /** Clearing, taken bit by bit. */
  predicate ClearsOnly(byte0: bv8, bit: nat)
    requires bit < 8
  {
    MarkByte(byte0, bit, false) == byte0 & !Mask(bit)
  }

  lemma Clear0(byte0: bv8)
    ensures ClearsOnly(byte0, 0)
  {
  }

  lemma Clear1(byte0: bv8)
    ensures ClearsOnly(byte0, 1)
  {
  }

  lemma Clear2(byte0: bv8)
    ensures ClearsOnly(byte0, 2)
  {
  }

  lemma Clear3(byte0: bv8)
    ensures ClearsOnly(byte0, 3)
  {
  }

  lemma Clear4(byte0: bv8)
    ensures ClearsOnly(byte0, 4)
  {
  }

  lemma Clear5(byte0: bv8)
    ensures ClearsOnly(byte0, 5)
  {
  }

  lemma Clear6(byte0: bv8)
    ensures ClearsOnly(byte0, 6)
  {
  }

  lemma Clear7(byte0: bv8)
    ensures ClearsOnly(byte0, 7)
  {
  }

  lemma EachClears(byte0: bv8, bit: nat)
    requires bit < 8
    ensures ClearsOnly(byte0, bit)
  {
    hide ClearsOnly;
    match bit {
      case 0 => Clear0(byte0);
      case 1 => Clear1(byte0);
      case 2 => Clear2(byte0);
      case 3 => Clear3(byte0);
      case 4 => Clear4(byte0);
      case 5 => Clear5(byte0);
      case 6 => Clear6(byte0);
      case _ => Clear7(byte0);
    }
  }

  lemma ClearingIsMask(byte0: bv8, bit: nat)
    requires bit < 8
    ensures MarkByte(byte0, bit, false) == byte0 & !Mask(bit)
  {
    hide MarkByte, Mask;
    EachClears(byte0, bit);
  }

  lemma BitSetIsMask(byte0: bv8, bit: nat)
    requires bit < 8
    ensures BitSet(byte0, bit) <==> byte0 & Mask(bit) != 0
  {
    match bit {
      case 0 => assert Mask(0) == 0x80;
      case 1 => assert Mask(1) == 0x40;
      case 2 => assert Mask(2) == 0x20;
      case 3 => assert Mask(3) == 0x10;
      case 4 => assert Mask(4) == 0x08;
      case 5 => assert Mask(5) == 0x04;
      case 6 => assert Mask(6) == 0x02;
      case _ => assert Mask(7) == 0x01;
    }
  }

  /** Rotating a byte, setting or clearing its highest bit and rotating back changes one bit and no other. */
  lemma MarkByteSetsOneBit(byte0: bv8, bit: nat, flag: bool, other: nat)
    requires bit < 8 && other < 8
    ensures BitSet(MarkByte(byte0, bit, flag), other) == if other == bit then flag else BitSet(byte0, other)
  {
    hide Mask, MarkByte, BitSet, OneBit;
    SettingIsMask(byte0, bit);
    ClearingIsMask(byte0, bit);
    BitSetIsMask(MarkByte(byte0, bit, flag), other);
    if other == bit {
      MaskStep(bit);
      SameMask(byte0, Mask(bit));
    } else {
      BitSetIsMask(byte0, other);
      MasksApart(byte0, bit, other);
    }
  }
}
