/** The file system as the source has it: a disk, a bitmap, and shared caches, all updated in place. */
module FsDriver {
  import opened Bytes
  import opened Options
  import opened FsLayout
  import opened FsVolume
  import opened FsFormat
  import opened FsTruncate
  import opened FsLifetime
  import opened FsDeletion

  /** What get_data_block returns; NoSpace is a failed allocation, which the source does not notice. */
  datatype Reply = Block(nr: nat) | NotFound | NoSpace

  class FileSystem {
    const disk: array<FsLayout.Block>
    const bmap: array<bv8>
    const addrCache: array<nat>
    const mapBlocks: nat
    var inodes: seq<Inode>
    var readCache: (nat, FsLayout.Block)     // block number and content
    var writeCache: (nat, FsLayout.Block)

    ghost function View(): Vol
      reads this, disk, bmap
    {
      Vol(disk[..], bmap[..], mapBlocks, inodes)
    }

    ghost predicate Valid()
      reads this, disk, bmap, addrCache
    {
      && Shape(View()) && IsAddrs(addrCache[..])
      && disk as object != bmap as object && disk as object != addrCache as object
      && bmap as object != addrCache as object
    }

    /** load_fs: the bitmap and the root inode are read from a disk that holds a file system. The caches hold
        anything. */
    constructor Load(sectors: seq<FsLayout.Block>, garbage: seq<nat>)
      requires Formattable(sectors) && IsAddrs(garbage)
      ensures Valid() && View() == FsFormat.Load(sectors)
      ensures fresh(disk) && fresh(bmap) && fresh(addrCache)
    {
      var n := MapBlocksFor(|sectors|);
      disk := new FsLayout.Block[|sectors|](i requires 0 <= i < |sectors| => sectors[i]);
      bmap := new bv8[BLOCK_SIZE * n](_ => 0);
      addrCache := new nat[|garbage|](i requires 0 <= i < |garbage| => garbage[i]);
      mapBlocks := n;
      inodes := [];
      readCache := (0, Zeros());
      writeCache := (0, Zeros());
      new;
      assert disk[..] == sectors && addrCache[..] == garbage;
      LoadMap(sectors);
      CacheBlock(ROOT_INODE_BLOCK);
      ReadIsInode(ROOT_INODE_BLOCK, readCache.1);
      inodes := [ReadInode(ROOT_INODE_BLOCK, readCache.1)];
    }

    /** create_fs: a new file system on a disk with any content. */
    constructor Create(sectors: seq<FsLayout.Block>, super: FsLayout.Block, stamps: seq<byte>, garbage: seq<nat>)
      requires Formattable(sectors) && |stamps| == 16 && IsAddrs(garbage)
      ensures Valid() && View() == Format(sectors, super, stamps)
      ensures fresh(disk) && fresh(bmap) && fresh(addrCache)
    {
      var n := MapBlocksFor(|sectors|);
      disk := new FsLayout.Block[|sectors|](i requires 0 <= i < |sectors| => sectors[i]);
      bmap := new bv8[BLOCK_SIZE * n](_ => 0);
      addrCache := new nat[|garbage|](i requires 0 <= i < |garbage| => garbage[i]);
      mapBlocks := n;
      inodes := [];
      readCache := (0, Zeros());
      writeCache := (0, Zeros());
      new;
      hide Format, Zeros, BlankMap;
      assert bmap[..] == BlankMap(BLOCK_SIZE * n);
      assert disk[..] == sectors && addrCache[..] == garbage;
      assert View() == Blank(sectors);
      CreateFs(sectors, super, stamps);
    }

    method CreateFs(ghost sectors: seq<FsLayout.Block>, super: FsLayout.Block, stamps: seq<byte>)
      requires Formattable(sectors) && Valid() && View() == Blank(sectors) && |stamps| == 16
      modifies this`inodes, this`writeCache, bmap, disk
      ensures Valid() && View() == Format(sectors, super, stamps)
    {
      hide MarkFirst, Blank, NewInode, Put;
      InitMap(FIRST_BMAP_BLOCK + mapBlocks);
      inodes := [NewInode(ROOT_INODE_BLOCK, DIRECTORY, stamps)];
      WriteBlock(SUPER_BLOCK, super);
    }

    /** The loop of init_bmap. */
    method InitMap(n: nat)
      requires Valid() && n <= disk.Length
      modifies this`writeCache, bmap, disk
      ensures Valid() && View() == MarkFirst(old(View()), n)
    {
      hide Mark;
      for i := 0 to n
        invariant Valid() && View() == MarkFirst(old(View()), i)
      {
        MarkBlock(i, true);
      }
    }

    /** The loop of load_bmap, block by block. */
    method LoadMap(ghost sectors: seq<FsLayout.Block>)
      requires Formattable(sectors) && disk[..] == sectors && mapBlocks == MapBlocksFor(|sectors|)
      requires bmap.Length == BLOCK_SIZE * mapBlocks && disk as object != bmap as object
      modifies this`readCache, bmap
      ensures bmap[..] == LoadedMap(sectors)
    {
      for k := 0 to mapBlocks
        invariant disk[..] == sectors
        invariant forall i :: 0 <= i < BLOCK_SIZE * k ==> bmap[i] == MapBitsAt(sectors, i)
      {
        CacheBlock(FIRST_BMAP_BLOCK + k);
        LoadMapBlock(k, sectors);
      }
    }

    method LoadMapBlock(k: nat, ghost sectors: seq<FsLayout.Block>)
      requires Formattable(sectors) && mapBlocks == MapBlocksFor(|sectors|) && k < mapBlocks
      requires bmap.Length == BLOCK_SIZE * mapBlocks && readCache.1 == sectors[FIRST_BMAP_BLOCK + k]
      modifies bmap
      ensures forall i :: 0 <= i < BLOCK_SIZE * k ==> bmap[i] == old(bmap[i])
      ensures forall i :: BLOCK_SIZE * k <= i < BLOCK_SIZE * (k + 1) ==> bmap[i] == MapBitsAt(sectors, i)
    {
      for j := 0 to BLOCK_SIZE
        invariant forall i :: 0 <= i < BLOCK_SIZE * k ==> bmap[i] == old(bmap[i])
        invariant forall i :: BLOCK_SIZE * k <= i < BLOCK_SIZE * k + j ==> bmap[i] == MapBitsAt(sectors, i)
      {
        assert (BLOCK_SIZE * k + j) / BLOCK_SIZE == k && (BLOCK_SIZE * k + j) % BLOCK_SIZE == j;
        bmap[BLOCK_SIZE * k + j] := readCache.1[j] as bv8;
      }
    }

    // ---- blocks ----

    /** cache_block: the block's content is in read_cache afterwards. */
    method CacheBlock(b: nat)
      modifies this`readCache
      ensures readCache == (b, At(View(), b))
    {
      readCache := (b, if b < disk.Length then disk[b] else Zeros());
    }

    /** wrt_block */
    method WriteBlock(b: nat, content: FsLayout.Block)
      requires Valid()
      modifies this`writeCache, disk
      ensures Valid() && View() == Put(old(View()), b, content)
    {
      writeCache := (b, content);
      if b < disk.Length {
        disk[b] := content;
        assert disk[..] == old(disk[..])[b := content];
      }
    }

    /** clear_block */
    method ClearBlock(b: nat)
      requires Valid()
      modifies this`readCache, this`writeCache, disk
      ensures Valid() && View() == Put(old(View()), b, Zeros())
    {
      CacheBlock(b);
      readCache := (b, Zeros());
      WriteBlock(readCache.0, readCache.1);
    }

    /** write_inode */
    method WriteInode(f: nat)
      requires Valid() && f < |inodes|
      modifies this`writeCache, disk
      ensures Valid() && View() == SaveInode(old(View()), f)
    {
      WriteBlock(inodes[f].adr, InodeBlock(inodes[f]));
    }

    /** Loads an address block into addr_cache. */
    method LoadAddrs(b: nat)
      requires Valid()
      modifies this`readCache, addrCache
      ensures Valid() && addrCache[..] == Addrs(At(View(), b))
    {
      CacheBlock(b);
      var addrs := Addrs(readCache.1);
      for i := 0 to addrCache.Length
        invariant forall k :: 0 <= k < i ==> addrCache[k] == addrs[k]
        invariant forall k :: i <= k < addrCache.Length ==> addrCache[k] == old(addrCache[k])
      {
        addrCache[i] := addrs[i];
      }
      assert addrCache[..] == addrs;
    }

    // ---- the bitmap ----

    /** is_allocated_block */
    method IsAllocated(b: nat) returns (used: bool)
      requires Valid() && b < disk.Length
      ensures used == IsUsed(View(), b)
    {
      used := BitSet(bmap[b / 8], b % 8);
    }

    /** mark_block */
    method MarkBlock(b: nat, flag: bool)
      requires Valid() && b < disk.Length
      modifies this`writeCache, bmap, disk
      ensures Valid() && View() == Mark(old(View()), b, flag)
    {
      ghost var before := View();
      bmap[b / 8] := MarkByte(bmap[b / 8], b % 8, flag);
      var k := b / 8 / BLOCK_SIZE;
      assert bmap[..] == SetBit(before.bmap, b, flag);
      assert View() == before.(bmap := SetBit(before.bmap, b, flag));
      WriteBlock(FIRST_BMAP_BLOCK + k, BitmapBlock(bmap[..], k));
    }

    /** get_free_block */
    method GetFreeBlock(start: nat) returns (r: Option<nat>)
      requires Valid()
      ensures r == FirstFree(View(), start)
    {
      var b := start;
      while b < disk.Length
        invariant start <= b && FirstFree(View(), start) == FirstFree(View(), b)
      {
        var used := IsAllocated(b);
        if !used {
          return Some(b);
        }
        b := b + 1;
      }
      return None;
    }

    /** enlarge_file, with alloc_block; the caller stores the block's number. */
    method EnlargeFile(start: nat) returns (r: Option<nat>)
      requires Valid()
      modifies this`readCache, this`writeCache, bmap, disk
      ensures Valid()
      ensures match Enlarge(old(View()), start)
              case None => r == None && View() == old(View())
              case Some((v, b)) => r == Some(b) && View() == v
    {
      r := GetFreeBlock(start);
      if r.Some? {
        MarkBlock(r.value, true);
        ClearBlock(r.value);
      }
    }

    // ---- get_data_block ----

    /** r and the present state are what the lookup came to. */
    ghost predicate Answers(l: Lookup, r: Reply, before: Vol)
      reads this, disk, bmap
    {
      match l
      case Found(v, b) => r == Block(b) && View() == v
      case Missing => r == NotFound && View() == before
      case Full => r == NoSpace
    }

    method DirectBlock(f: nat, i: nat, allow: bool) returns (r: Reply)
      requires Valid() && f < |inodes| && i < DIRECT
      modifies this, bmap, disk
      ensures Valid() && Answers(EnsurePtr(old(View()), f, DirectPtr(i), allow), r, old(View()))
    {
      var b := inodes[f].direct[i];
      if b == 0 {
        if !allow {
          return NotFound;
        }
        var nb := EnlargeFile(inodes[f].adr);
        if nb == None {
          return NoSpace;
        }
        b := nb.value;
        inodes := inodes[f := inodes[f].(direct := inodes[f].direct[i := b])];
      }
      return Block(b);
    }

    method SingleIndirect(f: nat, allow: bool) returns (r: Reply)
      requires Valid() && f < |inodes|
      modifies this, bmap, disk
      ensures Valid() && Answers(EnsurePtr(old(View()), f, SinglePtr, allow), r, old(View()))
    {
      var sip := inodes[f].single;
      if sip == 0 {
        if !allow {
          return NotFound;
        }
        var nb := EnlargeFile(inodes[f].adr);
        if nb == None {
          return NoSpace;
        }
        sip := nb.value;
        inodes := inodes[f := inodes[f].(single := sip)];
      }
      return Block(sip);
    }

    method DoubleIndirect(f: nat, allow: bool) returns (r: Reply)
      requires Valid() && f < |inodes|
      modifies this, bmap, disk
      ensures Valid() && Answers(EnsurePtr(old(View()), f, DoublePtr, allow), r, old(View()))
    {
      var dip := inodes[f].double;
      if dip == 0 {
        if !allow {
          return NotFound;
        }
        var nb := EnlargeFile(inodes[f].adr);
        if nb == None {
          return NoSpace;
        }
        dip := nb.value;
        inodes := inodes[f := inodes[f].(double := dip)];
      }
      return Block(dip);
    }

    /** Looks up entry k of an address block in addr_cache; allocating goes through the other caches meanwhile. */
    method EntryBlock(parent: nat, k: nat, start: nat, allow: bool) returns (r: Reply)
      requires Valid() && k < ADDRS
      modifies this, bmap, disk, addrCache
      ensures Valid() && Answers(EnsureEntry(old(View()), parent, k, start, allow), r, old(View()))
    {
      LoadAddrs(parent);
      var b := addrCache[k];
      if b == 0 {
        if !allow {
          return NotFound;
        }
        var nb := EnlargeFile(start);
        if nb == None {
          return NoSpace;
        }
        b := nb.value;
        ghost var before := addrCache[..];
        addrCache[k] := b;
        assert addrCache[..] == before[k := b];
        WriteBlock(parent, AddrBlock(addrCache[..]));
      }
      return Block(b);
    }

    method LocateBlock(f: nat, n: nat, allow: bool) returns (r: Reply)
      requires Valid() && f < |inodes|
      modifies this, bmap, disk, addrCache
      ensures Valid() && Answers(Locate(old(View()), f, n, allow), r, old(View()))
    {
      hide EnsurePtr, EnsureEntry;
      if n < DIRECT {
        r := DirectBlock(f, n, allow);
      } else if n < DIRECT + ADDRS {
        r := SingleIndirect(f, allow);
        if r.Block? {
          var sip := r.nr;
          r := EntryBlock(sip, n - DIRECT, sip, allow);
        }
      } else if n < MAX_BLOCKS {
        r := DoubleIndirect(f, allow);
        if r.Block? {
          var dip, m := r.nr, n - DIRECT - ADDRS;
          r := EntryBlock(dip, m / ADDRS, dip, allow);
          if r.Block? {
            r := EntryBlock(r.nr, m % ADDRS, dip, allow);
          }
        }
      } else {
        r := NotFound;
      }
    }

    /** get_data_block */
    method GetDataBlock(f: nat, pos: nat, allow: bool) returns (r: Reply)
      requires Valid() && f < |inodes|
      modifies this, bmap, disk, addrCache
      ensures Valid() && Answers(FsVolume.GetDataBlock(old(View()), f, pos, allow), r, old(View()))
    {
      r := LocateBlock(f, pos / BLOCK_SIZE, allow);
      if r.Block? {
        WriteInode(f);
      }
    }

    // ---- fs_read and fs_write ----

    /** A buffer of the caller, which is none of this object's arrays. */
    ghost predicate Outside(buf: array<byte>)
      reads this
    {
      buf as object != disk as object && buf as object != bmap as object && buf as object != addrCache as object
    }

    /** The buffer's content with `bytes` put in at `at`. */
    static function Patched(s: seq<byte>, at: nat, bytes: seq<byte>): seq<byte>
      requires at + |bytes| <= |s|
    {
      s[..at] + bytes + s[at + |bytes|..]
    }

    static lemma PatchedTwice(s: seq<byte>, at: nat, a: seq<byte>, b: seq<byte>)
      requires at + |a| + |b| <= |s|
      ensures Patched(Patched(s, at, a), at + |a|, b) == Patched(s, at, a + b)
    {
    }

    method CopyOut(buf: array<byte>, at: nat, bytes: seq<byte>)
      requires at + |bytes| <= buf.Length
      modifies buf
      ensures buf[..] == Patched(old(buf[..]), at, bytes)
    {
      for i := 0 to |bytes|
        invariant forall k :: 0 <= k < i ==> buf[at + k] == bytes[k]
        invariant forall k :: 0 <= k < at || at + i <= k < buf.Length ==> buf[k] == old(buf[k])
      {
        buf[at + i] := bytes[i];
      }
      assert buf[..] == Patched(old(buf[..]), at, bytes);
    }

    /** fs_read into buf from `at` on: the number of bytes read. */
    method Read(buf: array<byte>, at: nat, f: nat, count: nat, pos: nat, allow: bool) returns (r: Option<nat>)
      requires Valid() && f < |inodes| && Outside(buf) && at + count <= buf.Length
      modifies this, bmap, disk, addrCache, buf
      ensures Valid()
      ensures match FsVolume.Read(old(View()), f, count, pos, allow)
              case None => r == None
              case Some((v, bytes)) =>
                && r == Some(|bytes|) && View() == v
                && |bytes| <= count && buf[..] == Patched(old(buf[..]), at, bytes)
      decreases count
    {
      hide FsVolume.GetDataBlock, Shape, At, Patched;
      PatchNothing(buf[..], at);
      if (pos > inodes[f].size && !allow) || count == 0 {
        return Some(0);
      }
      var b := GetDataBlock(f, pos, allow);
      if b == NotFound {
        return Some(0);
      }
      if b == NoSpace {
        return None;
      }
      CacheBlock(b.nr);
      var content := readCache.1;
      var offset := pos % BLOCK_SIZE;
      ghost var before := buf[..];
      if offset + count <= BLOCK_SIZE {
        CopyOut(buf, at, content[offset..offset + count]);
        return Some(count);
      }
      var here := BLOCK_SIZE - offset;
      ghost var v := View();
      CopyOut(buf, at, content[offset..]);
      r := Read(buf, at + here, f, count - here, pos + here, allow);
      if r.Some? {
        PatchedTwice(before, at, content[offset..], FsVolume.Read(v, f, count - here, pos + here, allow).value.1);
        r := Some(here + r.value);
      }
    }

    static lemma PatchNothing(s: seq<byte>, at: nat)
      requires at <= |s|
      ensures Patched(s, at, []) == s
    {
    }

    /** fs_write: the number of bytes written. */
    method Write(f: nat, bytes: seq<byte>, pos: nat, allow: bool) returns (r: Option<nat>)
      requires Valid() && f < |inodes| && pos + |bytes| < WORD
      modifies this, bmap, disk, addrCache
      ensures Valid()
      ensures match FsVolume.Write(old(View()), f, bytes, pos, allow)
              case None => r == None
              case Some((v, n)) => r == Some(n) && View() == v
      decreases |bytes|
    {
      hide FsVolume.GetDataBlock, SaveInode, PutBytes, Extend;
      if (pos > inodes[f].size && !allow) || bytes == [] {
        return Some(0);
      }
      var b := GetDataBlock(f, pos, allow);
      if b == NotFound {
        return Some(0);
      }
      if b == NoSpace {
        return None;
      }
      var offset := pos % BLOCK_SIZE;
      if offset + |bytes| <= BLOCK_SIZE {
        Overwrite(b.nr, offset, bytes);
        ExtendTo(f, pos + |bytes|);
        WriteInode(f);
        return Some(|bytes|);
      }
      var here := BLOCK_SIZE - offset;
      Overwrite(b.nr, offset, bytes[..here]);
      r := Write(f, bytes[here..], pos + here, allow);
      if r.Some? {
        r := Some(here + r.value);
      }
    }

    /** Part of a block is overwritten in read_cache and the block written back. */
    method Overwrite(b: nat, offset: nat, chunk: seq<byte>)
      requires Valid() && offset + |chunk| <= BLOCK_SIZE
      modifies this`readCache, this`writeCache, disk
      ensures Valid() && View() == PutBytes(old(View()), b, offset, chunk)
    {
      CacheBlock(b);
      readCache := (readCache.0, Splice(readCache.1, offset, chunk));
      WriteBlock(readCache.0, readCache.1);
    }

    method ExtendTo(f: nat, end: nat)
      requires Valid() && f < |inodes| && end < WORD
      modifies this`inodes
      ensures Valid() && View() == Extend(old(View()), f, end)
    {
      if inodes[f].size < end {
        inodes := inodes[f := inodes[f].(size := end)];
      }
    }

    // ---- fs_truncate ----

    /** mark_block(b, FALSE); a block number beyond the disk, which no slot holds, is ignored. */
    method FreeBlock(b: nat)
      requires Valid()
      modifies this`writeCache, bmap, disk
      ensures Valid() && View() == Unmark(old(View()), b)
    {
      if b < disk.Length {
        MarkBlock(b, false);
      }
    }

    method FreeDirectPointers(f: nat, start: nat)
      requires Valid() && f < |inodes|
      modifies this`inodes, this`writeCache, bmap, disk
      ensures Valid() && View() == FreeDirect(old(View()), f, start)
    {
      var i := start;
      while i < DIRECT
        invariant Valid() && f < |inodes|
        invariant FreeDirect(old(View()), f, start) == FreeDirect(View(), f, i)
      {
        var b := inodes[f].direct[i];
        if b != 0 {
          FreeBlock(b);
          inodes := inodes[f := inodes[f].(direct := inodes[f].direct[i := 0])];
        }
        i := i + 1;
      }
    }

    /** The loop of shrink_file over its copy of the addresses. */
    method FreeEntriesFrom(all: seq<nat>, start: nat) returns (addrs: seq<nat>)
      requires Valid() && IsAddrs(all) && start < ADDRS
      modifies this`writeCache, bmap, disk
      ensures Valid() && View() == FreeEntries(old(View()), all, start) && addrs == Cut(all, start)
    {
      addrs := all;
      var i := start;
      while i < ADDRS
        invariant start <= i <= ADDRS && Valid() && IsAddrs(addrs)
        invariant forall k :: 0 <= k < ADDRS ==> addrs[k] == if start <= k < i then 0 else all[k]
        invariant FreeEntries(old(View()), all, start) == FreeEntries(View(), all, i)
      {
        if addrs[i] != 0 {
          FreeBlock(addrs[i]);
          addrs := addrs[i := 0];
        }
        i := i + 1;
      }
      assert addrs == Cut(all, start);
    }

    /** shrink_file: what becomes of the pointer to address block b. */
    method ShrinkFile(b: nat, start: nat) returns (nb: nat)
      requires Valid()
      modifies this`readCache, this`writeCache, bmap, disk
      ensures Valid() && (View(), nb) == Shrink(old(View()), b, start)
    {
      if start >= ADDRS {
        return b;
      }
      hide FreeEntries, Cut, AddrBlock, At, Addrs;
      CacheBlock(b);
      var addrs := Addrs(readCache.1);
      addrs := FreeEntriesFrom(addrs, start);
      if start != 0 {
        WriteBlock(b, AddrBlock(addrs));
        return b;
      } else {
        FreeBlock(b);
        return 0;
      }
    }

    method ShrinkSingle(f: nat, start: nat)
      requires Valid() && f < |inodes|
      modifies this, bmap, disk
      ensures Valid() && View() == FreeSingle(old(View()), f, start)
    {
      var sip := inodes[f].single;
      if sip != 0 && start < DIRECT + ADDRS {
        var b := ShrinkFile(sip, if start < DIRECT then 0 else start - DIRECT);
        inodes := inodes[f := inodes[f].(single := b)];
      }
    }

    method ShrinkDouble(f: nat, start: nat)
      requires Valid() && f < |inodes|
      modifies this, bmap, disk, addrCache
      ensures Valid() && View() == FreeDouble(old(View()), f, start)
    {
      hide FreeMids, AddrBlock, Unmark;
      var dip := inodes[f].double;
      if dip != 0 {
        LoadAddrs(dip);
        ShrinkMids(FirstMid(start), start);
        if start < DIRECT + ADDRS {
          FreeBlock(dip);
          inodes := inodes[f := inodes[f].(double := 0)];
        } else {
          WriteBlock(dip, AddrBlock(addrCache[..]));
        }
      }
    }

    /** The loop over the address blocks listed in addr_cache; shrink_file goes through the other caches meanwhile. */
    method ShrinkMids(first: nat, start: nat)
      requires Valid()
      modifies this`readCache, this`writeCache, bmap, disk, addrCache
      ensures Valid() && (View(), addrCache[..]) == FreeMids(old(View()), old(addrCache[..]), first, start)
    {
      hide Shrink, FirstEntry;
      ghost var v, all := View(), addrCache[..];
      var k := first;
      while k < ADDRS && addrCache[k] != 0
        invariant Valid()
        invariant FreeMids(v, all, first, start) == FreeMids(View(), addrCache[..], k, start)
        decreases ADDRS - k
      {
        ghost var before := addrCache[..];
        var b := ShrinkFile(addrCache[k], FirstEntry(start, k));
        addrCache[k] := b;
        assert addrCache[..] == before[k := b];
        k := k + 1;
      }
    }

    /** fs_truncate on the inode, to a size not beyond the present one. */
    method Truncate(f: nat, size: nat) returns (done: bool)
      requires Valid() && f < |inodes| && size < WORD
      modifies this, bmap, disk, addrCache
      ensures Valid()
      ensures match FsTruncate.Truncate(old(View()), f, size)
              case None => !done
              case Some(v) => done && View() == v
    {
      hide FreeAll, FsVolume.GetDataBlock, FreeDirect, FreeSingle, FreeDouble, InodeBlock;
      if size < inodes[f].size {
        Free(f, BlocksFor(size));
      } else if size > inodes[f].size {
        var r := GetDataBlock(f, size, true);
        if r == NoSpace {
          return false;
        }
      }
      inodes := inodes[f := inodes[f].(size := size)];
      WriteInode(f);
      done := true;
    }

    method Free(f: nat, start: nat)
      requires Valid() && f < |inodes|
      modifies this, bmap, disk, addrCache
      ensures Valid() && View() == FreeAll(old(View()), f, start)
    {
      hide FreeDirect, FreeSingle, FreeDouble;
      FreeDirectPointers(f, start);
      ShrinkSingle(f, start);
      ShrinkDouble(f, start);
    }

    // ---- a file comes into being ----

    /** The parts of insert_file_into_dir and fs_create_delete that touch the volume. */
    method CreateFile(d: nat, pos: nat, entries: FsLayout.Block, mode: nat, stamps: seq<byte>) returns (done: bool)
      requires Valid() && d < |inodes| && pos + BLOCK_SIZE < WORD && mode < 0x1_0000 && |stamps| == 16
      modifies this, bmap, disk, addrCache
      ensures Valid()
      ensures match FsLifetime.CreateFile(old(View()), d, pos, entries, mode, stamps)
              case None => !done
              case Some(v) => done && View() == v
    {
      hide FsVolume.GetDataBlock, FirstFree, Named, AddFile;
      var r := GetDataBlock(d, pos, true);
      if !r.Block? {
        return false;
      }
      var nb := GetFreeBlock(r.nr);
      if nb == None {
        return false;
      }
      NameFile(d, pos, r.nr, nb.value, entries, stamps);
      StartFile(nb.value, mode, stamps);
      done := true;
    }

    method NameFile(d: nat, pos: nat, eb: nat, nb: nat, entries: FsLayout.Block, stamps: seq<byte>)
      requires Valid() && d < |inodes| && pos + BLOCK_SIZE < WORD && |stamps| == 16 && nb < disk.Length
      modifies this, bmap, disk
      ensures Valid() && View() == Named(old(View()), d, pos, eb, nb, entries, stamps)
    {
      hide Mark, InodeBlock, Put;
      MarkBlock(nb, true);
      var size := if inodes[d].size < pos + BLOCK_SIZE then pos + BLOCK_SIZE else inodes[d].size;
      inodes := inodes[d := Edited(inodes[d], size, stamps)];
      WriteInode(d);
      WriteBlock(eb, entries);
      ClearBlock(nb);
    }

    /** new_minode and write_inode. */
    method StartFile(nb: nat, mode: nat, stamps: seq<byte>)
      requires Valid() && mode < 0x1_0000 && |stamps| == 16
      modifies this`inodes, this`writeCache, disk
      ensures Valid() && View() == AddFile(old(View()), nb, mode, stamps)
    {
      inodes := inodes + [NewInode(nb, mode, stamps)];
      WriteInode(|inodes| - 1);
    }

    // ---- a file goes ----

    /** The parts of fs_create_delete and delete_file_from_dir that touch the volume; fs_truncate closes the file, and
        with that its inode leaves the memory. */
    method DeleteFile(d: nat, pos: nat, entries: FsLayout.Block, stamps: seq<byte>, f: nat) returns (done: bool)
      requires Valid() && f < |inodes| && d < |inodes| && d != f && |stamps| == 16
      modifies this, bmap, disk, addrCache
      ensures Valid()
      ensures match FsDeletion.DeleteFile(old(View()), d, pos, entries, stamps, f)
              case None => !done
              case Some(v) => done && View() == v
    {
      hide TruncateTo, Unname;
      var adr := inodes[f].adr;
      var truncated := Truncate(f, 0);
      ghost var u := View();
      inodes := inodes[..f] + inodes[f + 1..];
      assert View() == Forget(u, f);
      done := DeleteName(Closed(f, d), pos, adr, entries, stamps);
    }

    /** delete_file_from_dir */
    method DeleteName(d: nat, pos: nat, adr: nat, entries: FsLayout.Block, stamps: seq<byte>) returns (done: bool)
      requires Valid() && d < |inodes| && |stamps| == 16
      modifies this, bmap, disk, addrCache
      ensures Valid()
      ensures match Unname(old(View()), d, pos, adr, entries, stamps)
              case None => !done
              case Some(v) => done && View() == v
    {
      hide FsVolume.GetDataBlock, Unmark, InodeBlock;
      var r := GetDataBlock(d, pos, false);
      if !r.Block? {
        return false;
      }
      FreeBlock(adr);
      WriteBlock(r.nr, entries);
      inodes := inodes[d := Edited(inodes[d], inodes[d].size, stamps)];
      WriteInode(d);
      done := true;
    }
  }
}
