/** Directory operations as they run: entry block by entry block, through one cache. */
module FsDirectoryDriver {
  import opened Options
  import opened FsDirectory

  class Directory {
    var entries: seq<Entry>       // on disk, block by block
    var used: set<nat>            // the bitmap
    const start: nat
    const cache: array<Entry>     // dir_cache

    constructor (start: nat)
      ensures Shape() && View() == Dir([], {}, start) && fresh(cache)
    {
      entries, used := [], {};
      this.start := start;
      cache := new Entry[PER_BLOCK](_ => FREE);
    }

    function View(): Dir
      reads this
    {
      Dir(entries, used, start)
    }

    predicate Shape()
      reads this
    {
      |entries| % PER_BLOCK == 0 && cache.Length == PER_BLOCK
    }

    /** fs_read of entry block k into the cache. */
    method ReadBlock(k: nat) returns (ok: bool)
      requires Shape()
      modifies cache
      ensures ok <==> PER_BLOCK * k < |entries|
      ensures ok ==>
                PER_BLOCK * k + PER_BLOCK <= |entries| &&
                cache[..] == entries[PER_BLOCK * k..PER_BLOCK * k + PER_BLOCK]
    {
      if |entries| <= PER_BLOCK * k {
        return false;
      }
      var blocks := |entries| / PER_BLOCK;
      assert |entries| == PER_BLOCK * blocks && k < blocks;
      for i := 0 to PER_BLOCK
        invariant forall j :: 0 <= j < i ==> cache[j] == entries[PER_BLOCK * k + j]
      {
        cache[i] := entries[PER_BLOCK * k + i];
      }
      ok := true;
    }

    /** wrt_block of the cache to entry block k. */
    method WriteBlock(k: nat)
      requires Shape() && PER_BLOCK * k + PER_BLOCK <= |entries|
      modifies this`entries
      ensures Shape() && entries ==
          old(entries)[..PER_BLOCK * k] + cache[..] + old(entries)[PER_BLOCK * k + PER_BLOCK..]
    {
      entries := entries[..PER_BLOCK * k] + cache[..] + entries[PER_BLOCK * k + PER_BLOCK..];
    }

    /** find_filename; the empty name finds the first free entry. */
    method FindFilename(name: string) returns (i: nat)
      requires Shape()
      ensures i == First(cache[..], name)
    {
      i := 0;
      while i < PER_BLOCK
        invariant i <= PER_BLOCK && forall j :: 0 <= j < i ==> cache[j].name != name
      {
        if cache[i].name == name {
          break;
        }
        i := i + 1;
      }
      FirstUnique(cache[..], name, i);
    }

    /** create_entry: where the name was put, if there was room. */
    method CreateEntry(b: nat, name: string) returns (i: nat)
      requires Shape()
      modifies cache
      ensures i == First(old(cache[..]), "")
      ensures cache[..] == if i < PER_BLOCK then old(cache[..])[i := Entry(b, name)] else old(cache[..])
    {
      i := FindFilename("");
      if i < PER_BLOCK {
        cache[i] := Entry(b, name);
      }
    }

    /** delete_entry. */
    method DeleteEntry(name: string) returns (i: nat)
      requires Shape()
      modifies cache, this`used
      ensures i == First(old(cache[..]), name)
      ensures cache[..] == if i < PER_BLOCK then old(cache[..])[i := FREE] else old(cache[..])
      ensures used == if i < PER_BLOCK then old(used) - {old(cache[..])[i].inode} else old(used)
    {
      i := FindFilename(name);
      if i < PER_BLOCK {
        used := used - {cache[i].inode};
        cache[i] := FREE;
      }
    }

    /** alloc_block. */
    method AllocBlock() returns (b: nat)
      modifies this`used
      ensures b == LowestFree(old(used), start) && used == old(used) + {b}
    {
      var bmap := used;
      b := start;
      while b in bmap
        invariant LowestFree(bmap, start) == LowestFree(bmap, b)
        decreases |Above(bmap, b)|
      {
        AboveShrinks(bmap, b);
        b := b + 1;
      }
      used := bmap + {b};
    }

    /** rfsearch, for one name. */
    method Search(name: string) returns (r: Option<nat>)
      requires Shape()
      modifies cache
      ensures r == Lookup(View(), name)
    {
      var k := 0;
      while true
        invariant PER_BLOCK * k <= |entries| && First(entries, name) >= PER_BLOCK * k
        decreases |entries| - PER_BLOCK * k
      {
        var ok := ReadBlock(k);
        if !ok {
          return None;
        }
        FirstInBlock(entries, k, name);
        var i := FindFilename(name);
        if i < PER_BLOCK {
          return Some(cache[i].inode);
        }
        k := k + 1;
      }
    }

    /** delete_file_from_dir. */
    method DeleteFile(name: string) returns (ok: bool)
      requires Shape()
      modifies this`entries, this`used, cache
      ensures Shape() && (View(), ok) == Delete(old(View()), name)
    {
      var k := 0;
      while true
        invariant PER_BLOCK * k <= |entries| && First(entries, name) >= PER_BLOCK * k
        invariant Shape() && View() == old(View())
        decreases |entries| - PER_BLOCK * k
      {
        ok := ReadBlock(k);
        if !ok {
          return;
        }
        FirstInBlock(entries, k, name);
        var i := DeleteEntry(name);
        if i < PER_BLOCK {
          BlockChanged(entries, k, i, FREE);
          WriteBlock(k);
          return;
        }
        k := k + 1;
      }
    }

    /** The loop of insert_file_into_dir for one entry block. */
    method TryBlock(name: string, k: nat) returns (done: bool, r: Option<nat>)
      requires Shape() && IsName(name) && PER_BLOCK * k + PER_BLOCK <= |entries|
      requires First(entries, name) >= PER_BLOCK * k && First(entries, "") >= PER_BLOCK * k
      modifies this`entries, this`used, cache
      ensures Shape()
      ensures var (at, free, end) := (First(old(entries), name), First(old(entries), ""), PER_BLOCK * k + PER_BLOCK);
              && (done <==> at < end || free < end)
              && (if at >= end && free < end then (View(), r) == Placed(old(View()), free, name)
                  else View() == old(View()) && r == None)
    {
      hide First, LowestFree;
      var ok := ReadBlock(k);
      FirstInBlock(entries, k, name);
      FirstInBlock(entries, k, "");
      r := None;
      var found := FindFilename(name);
      if found < PER_BLOCK {
        return true, None;
      }
      var b := AllocBlock();
      var i := CreateEntry(b, name);
      if i < PER_BLOCK {
        BlockChanged(entries, k, i, Entry(b, name));
        WriteBlock(k);
        return true, Some(b);
      }
      used := used - {b};
      done := false;
    }

    /** insert_file_into_dir. */
    method InsertFile(name: string) returns (r: Option<nat>)
      requires Shape() && IsName(name)
      modifies this`entries, this`used, cache
      ensures Shape() && (View(), r) == Insert(old(View()), name)
    {
      hide First, LowestFree, Placed, AddBlock;
      ghost var d := View();
      NoFreeInBlocks(d);
      var k, done := 0, false;
      while PER_BLOCK * k < |entries|
        invariant PER_BLOCK * k <= |entries| && Shape() && View() == d
        invariant First(entries, name) >= PER_BLOCK * k && First(entries, "") >= PER_BLOCK * k
        decreases |entries| - PER_BLOCK * k
      {
        BlockFits(|entries|, k);
        done, r := TryBlock(name, k);
        if done {
          InsertIs(d, name, k);
          return;
        }
        k := k + 1;
      }
      InsertIs(d, name, k);
      NewBlockIsFree(d, name);
      AddEntryBlock();
      done, r := TryBlock(name, k);
    }

    /** get_data_block past the end, which adds a zeroed entry block. */
    method AddEntryBlock()
      requires Shape()
      modifies this`entries, this`used
      ensures Shape() && View() == AddBlock(old(View()))
    {
      var _ := AllocBlock();
      entries := entries + FreeBlock();
    }

    /** fs_create_delete with CREATE, in this directory. */
    method CreateFile(name: string) returns (r: Option<nat>)
      requires Shape() && IsName(name)
      modifies this`entries, this`used, cache
      ensures Shape() && (View(), r) == Create(old(View()), name)
    {
      r := Search(name);
      if r.Some? {
        return None;
      }
      r := InsertFile(name);
    }
  }

  /** The name is put into a free entry, with a fresh block. */
  function Placed(d: Dir, free: nat, name: string): (Dir, Option<nat>)
    requires free < |d.entries|
  {
    var b := LowestFree(d.used, d.start);
    (d.(entries := d.entries[free := Entry(b, name)], used := d.used + {b}), Some(b))
  }

  lemma BlockFits(n: nat, k: nat)
    requires n % PER_BLOCK == 0 && PER_BLOCK * k < n
    ensures PER_BLOCK * k + PER_BLOCK <= n
  {
    assert n == PER_BLOCK * (n / PER_BLOCK);
  }

  /** Insert, seen from block k on, if name and first free entry are not in a block before. */
  lemma InsertIs(d: Dir, name: string, k: nat)
    requires PER_BLOCK * k <= |d.entries| && |d.entries| % PER_BLOCK == 0
    requires First(d.entries, name) >= PER_BLOCK * k && First(d.entries, "") >= PER_BLOCK * k
    ensures |AddBlock(d).entries| == |d.entries| + PER_BLOCK
    ensures var (at, free, end) := (First(d.entries, name), First(d.entries, ""), PER_BLOCK * k + PER_BLOCK);
            && (PER_BLOCK * k < |d.entries| && at < end ==> Insert(d, name) == (d, None))
            && (PER_BLOCK * k < |d.entries| && at >= end && free < end ==> Insert(d, name) == Placed(d, free, name))
            && (PER_BLOCK * k == |d.entries| ==> Insert(d, name) == Placed(AddBlock(d), free, name))
  {
    hide First, LowestFree;
    var free := First(d.entries, "");
    NoFreeInBlocks(d);
    var end := if BlockEnd(free) <= |d.entries| then BlockEnd(free) else |d.entries|;
    FirstInPrefix(d.entries, end, name);
    if PER_BLOCK * k < |d.entries| {
      BlockFits(|d.entries|, k);
      if free < PER_BLOCK * k + PER_BLOCK {
        assert free / PER_BLOCK == k;
      } else {
        assert BlockEnd(free) >= PER_BLOCK * k + PER_BLOCK;
      }
    }
  }

  lemma FirstUnique(es: seq<Entry>, name: string, i: nat)
    requires i <= |es| && (i < |es| ==> es[i].name == name)
    requires forall j :: 0 <= j < i ==> es[j].name != name
    ensures First(es, name) == i
  {
  }

  /** The first entry with a name, looked for block by block. */
  lemma FirstInBlock(es: seq<Entry>, k: nat, name: string)
    requires PER_BLOCK * k + PER_BLOCK <= |es| && First(es, name) >= PER_BLOCK * k
    ensures var i := First(es[PER_BLOCK * k..PER_BLOCK * k + PER_BLOCK], name);
            if i < PER_BLOCK then First(es, name) == PER_BLOCK * k + i else First(es, name) >= PER_BLOCK * k + PER_BLOCK
  {
    var block := es[PER_BLOCK * k..PER_BLOCK * k + PER_BLOCK];
    var i := First(block, name);
    if i < PER_BLOCK {
      forall j | 0 <= j < PER_BLOCK * k + i ensures es[j].name != name {
        if j >= PER_BLOCK * k {
          assert es[j] == block[j - PER_BLOCK * k];
        }
      }
      FirstUnique(es, name, PER_BLOCK * k + i);
    } else {
      forall j | PER_BLOCK * k <= j < PER_BLOCK * k + PER_BLOCK ensures es[j].name != name {
        assert es[j] == block[j - PER_BLOCK * k];
      }
    }
  }

  lemma BlockChanged(es: seq<Entry>, k: nat, i: nat, e: Entry)
    requires PER_BLOCK * k + PER_BLOCK <= |es| && i < PER_BLOCK
    ensures var at := PER_BLOCK * k;
            es[..at] + es[at..at + PER_BLOCK][i := e] + es[at + PER_BLOCK..] == es[at + i := e]
  {
  }

  /** In an added block every entry is free. */
  lemma NewBlockIsFree(d: Dir, name: string)
    requires name != ""
    ensures var g := AddBlock(d);
            |g.entries| == |d.entries| + PER_BLOCK
            && (First(d.entries, name) == |d.entries| ==> First(g.entries, name) == |g.entries|)
            && (First(d.entries, "") == |d.entries| ==> First(g.entries, "") == |d.entries|)
  {
    var g := AddBlock(d);
    forall i | |d.entries| <= i < |g.entries| ensures g.entries[i] == FREE {
    }
    FirstInPrefix(g.entries, |d.entries|, name);
    FirstInPrefix(g.entries, |d.entries|, "");
    assert g.entries[..|d.entries|] == d.entries;
    assert g.entries[|d.entries|].name == "";
  }
}
