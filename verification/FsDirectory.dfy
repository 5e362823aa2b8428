/** Directories: entry blocks of sixteen names each, and the finite map they stand for. */
module FsDirectory {
  import opened Options

  const PER_BLOCK := 16         // DIR_ENTRIES_PER_BLOCK
  const NAME_SIZE := 28

  /** An entry without a name is free. */
  datatype Entry = Entry(inode: nat, name: string)

  const FREE := Entry(0, "")

  /** The entries of all entry blocks, one block after the other; the blocks of the disk that are marked as used; and
      where the search for a free block starts. */
  datatype Dir = Dir(entries: seq<Entry>, used: set<nat>, start: nat)

  /** Names are stored in 28 characters with a terminator, and the empty name marks a free entry. */
  predicate IsName(name: string) { 0 < |name| < NAME_SIZE }

  // ---- what a name leads to ----

  /** The first entry with that name, |es| if there is none. */
  function First(es: seq<Entry>, name: string): (i: nat)
    ensures i <= |es| && (i < |es| ==> es[i].name == name)
    ensures forall j :: 0 <= j < i ==> es[j].name != name
  {
    if es == [] || es[0].name == name then 0 else 1 + First(es[1..], name)
  }

  function Lookup(d: Dir, name: string): Option<nat> {
    var i := First(d.entries, name);
    if i < |d.entries| then Some(d.entries[i].inode) else None
  }

  ghost predicate Distinct(es: seq<Entry>) {
    forall i, j :: 0 <= i < |es| && 0 <= j < |es| && es[i].name == es[j].name && es[i].name != "" ==> i == j
  }

  /** No name occurs twice, no inode block belongs to two names, and all of them are marked as used. */
  ghost predicate Valid(d: Dir) {
    && |d.entries| % PER_BLOCK == 0
    && Distinct(d.entries)
    && (forall i :: 0 <= i < |d.entries| && d.entries[i].name != "" ==> d.entries[i].inode in d.used)
    && (forall i, j :: 0 <= i < j < |d.entries| && d.entries[i].name != "" && d.entries[j].name != "" ==>
          d.entries[i].inode != d.entries[j].inode)
  }

  // ---- blocks ----

  /** alloc_block, on a disk with room: the first free block from start on. */
  function LowestFree(used: set<nat>, start: nat): (b: nat)
    ensures start <= b && b !in used && forall k :: start <= k < b ==> k in used
    decreases |Above(used, start)|
  {
    if start !in used then start
    else
      AboveShrinks(used, start);
      LowestFree(used, start + 1)
  }

  function Above(used: set<nat>, start: nat): set<nat> { set b | b in used && start <= b }

  lemma AboveShrinks(used: set<nat>, start: nat)
    requires start in used
    ensures |Above(used, start + 1)| < |Above(used, start)|
  {
    assert Above(used, start) == Above(used, start + 1) + {start};
  }

  function FreeBlock(): seq<Entry> { seq(PER_BLOCK, _ => FREE) }

  /** get_data_block past the last entry block: a zeroed block is added. */
  function AddBlock(d: Dir): Dir {
    d.(entries := d.entries + FreeBlock(), used := d.used + {LowestFree(d.used, d.start)})
  }

  // ---- the operations ----

  /** The end of the entry block in which entry i lies. */
  function BlockEnd(i: nat): nat { i / PER_BLOCK * PER_BLOCK + PER_BLOCK }

  /** insert_file_into_dir: the first free entry is taken, in a new entry block if need be. The name is looked for
      only in the blocks up to that entry's. */
  function Insert(d: Dir, name: string): (r: (Dir, Option<nat>)) {
    var free := First(d.entries, "");
    var end := if BlockEnd(free) <= |d.entries| then BlockEnd(free) else |d.entries|;
    if First(d.entries[..end], name) < end then (d, None)
    else
      var g := if free < |d.entries| then d else AddBlock(d);
      var b := LowestFree(g.used, d.start);
      if free < |g.entries| then
        (g.(entries := g.entries[free := Entry(b, name)], used := g.used + {b}), Some(b))
      else (g, None)
  }

  /** delete_file_from_dir. */
  function Delete(d: Dir, name: string): (Dir, bool) {
    var i := First(d.entries, name);
    if i == |d.entries| then (d, false)
    else (d.(entries := d.entries[i := FREE], used := d.used - {d.entries[i].inode}), true)
  }

  /** fs_create_delete: creating starts with a search of the whole directory. */
  function Create(d: Dir, name: string): (Dir, Option<nat>) {
    if Lookup(d, name).Some? then (d, None) else Insert(d, name)
  }

  // ---- a directory is a finite map ----

  lemma FirstIsIt(es: seq<Entry>, i: nat)
    requires Distinct(es) && i < |es| && es[i].name != ""
    ensures First(es, es[i].name) == i
  {
  }

  lemma FirstInPrefix(es: seq<Entry>, end: nat, name: string)
    requires end <= |es|
    ensures First(es[..end], name) == if First(es, name) < end then First(es, name) else end
  {
    var i, j := First(es[..end], name), First(es, name);
    if i < end {
      assert es[..end][i] == es[i];
    }
    if j < end {
      assert es[..end][j] == es[j];
    }
  }

  /** Changing one entry: what it meant is gone, what it means now is there, and all other names mean what they did. */
  lemma EntryChanged(d: Dir, g: Dir, i: nat, e: Entry)
    requires i < |d.entries| && g.entries == d.entries[i := e] && Distinct(d.entries)
    requires e.name == "" || First(d.entries, e.name) == |d.entries|
    ensures Distinct(g.entries)
    ensures e.name != "" ==> Lookup(g, e.name) == Some(e.inode)
    ensures forall n :: n != "" && n != e.name && n != d.entries[i].name ==> Lookup(g, n) == Lookup(d, n)
    ensures d.entries[i].name != "" && d.entries[i].name != e.name ==> Lookup(g, d.entries[i].name) == None
  {
    hide First;
    if e.name != "" {
      FirstIsIt(g.entries, i);
    }
    forall n | n != "" && n != e.name && n != d.entries[i].name ensures Lookup(g, n) == Lookup(d, n) {
      SameFirst(d.entries, g.entries, i, n);
    }
    if d.entries[i].name != "" && d.entries[i].name != e.name {
      GoneFirst(d.entries, i, e);
    }
  }

  lemma SameFirst(es: seq<Entry>, fs: seq<Entry>, i: nat, n: string)
    requires i < |es| == |fs| && (forall j :: 0 <= j < |es| && j != i ==> es[j] == fs[j])
    requires es[i].name != n && fs[i].name != n
    ensures First(es, n) == First(fs, n)
    ensures First(es, n) < |es| ==> es[First(es, n)] == fs[First(es, n)]
  {
  }

  lemma GoneFirst(es: seq<Entry>, i: nat, e: Entry)
    requires Distinct(es) && i < |es| && es[i].name != "" && e.name != es[i].name
    ensures First(es[i := e], es[i].name) == |es|
  {
  }

  lemma AddedBlock(d: Dir)
    requires Valid(d)
    ensures Valid(AddBlock(d)) && forall n :: n != "" ==> Lookup(AddBlock(d), n) == Lookup(d, n)
    ensures First(AddBlock(d).entries, "") == First(d.entries, "")
  {
    var g := AddBlock(d);
    forall i | |d.entries| <= i < |g.entries| ensures g.entries[i] == FREE {
    }
    forall n ensures n != "" ==> Lookup(g, n) == Lookup(d, n)
             ensures First(g.entries, n) < |d.entries| || First(d.entries, n) == |d.entries| {
      FirstInPrefix(g.entries, |d.entries|, n);
      assert g.entries[..|d.entries|] == d.entries;
      var i := First(g.entries, n);
    }
    FirstInPrefix(g.entries, |d.entries|, "");
    assert g.entries[|d.entries|].name == "";
  }

  lemma PlacedIsValid(d: Dir, i: nat, name: string, b: nat)
    requires Valid(d) && i < |d.entries| && d.entries[i].name == "" && IsName(name) && b !in d.used
    requires First(d.entries, name) == |d.entries|
    ensures var g := d.(entries := d.entries[i := Entry(b, name)], used := d.used + {b});
            && Valid(g) && Lookup(g, name) == Some(b)
            && forall n :: n != "" && n != name ==> Lookup(g, n) == Lookup(d, n)
  {
    hide First;
    EntryChanged(d, d.(entries := d.entries[i := Entry(b, name)], used := d.used + {b}), i, Entry(b, name));
  }

  lemma NoFreeInBlocks(d: Dir)
    requires |d.entries| % PER_BLOCK == 0
    ensures First(d.entries, "") < |d.entries| ==> BlockEnd(First(d.entries, "")) <= |d.entries|
  {
    var i := First(d.entries, "");
    if i < |d.entries| {
      assert i / PER_BLOCK < |d.entries| / PER_BLOCK;
    }
  }

  /** Creating an absent name adds it to the map with a block that was free, and changes no other name; creating one
      that is there changes nothing. */
  lemma CreateAddsName(d: Dir, name: string)
    requires Valid(d) && IsName(name)
    ensures var (g, r) := Create(d, name);
            && Valid(g) && (r.Some? <==> Lookup(d, name) == None)
            && (forall n :: n != "" && n != name ==> Lookup(g, n) == Lookup(d, n))
            && (r.Some? ==> Lookup(g, name) == r && r.value !in d.used && r.value in g.used && d.used <= g.used)
            && (r.None? ==> g == d)
  {
    hide First, LowestFree, AddBlock;
    if Lookup(d, name) == None {
      NoFreeInBlocks(d);
      var free := First(d.entries, "");
      FirstInPrefix(d.entries, if BlockEnd(free) <= |d.entries| then BlockEnd(free) else |d.entries|, name);
      var g := if free < |d.entries| then d else AddBlock(d);
      AddedBlock(d);
      AddedSize(d);
      assert Lookup(g, name) == None;
      PlacedIsValid(g, free, name, LowestFree(g.used, d.start));
    }
  }

  lemma AddedSize(d: Dir)
    ensures |AddBlock(d).entries| == |d.entries| + PER_BLOCK && d.used <= AddBlock(d).used
  {
  }

  /** Deleting a name removes it from the map, frees its inode block and no other, and changes no other name. */
  lemma DeleteRemovesName(d: Dir, name: string)
    requires Valid(d) && IsName(name)
    ensures var (g, ok) := Delete(d, name);
            && Valid(g) && (ok <==> Lookup(d, name).Some?) && Lookup(g, name) == None
            && (forall n :: n != "" && n != name ==> Lookup(g, n) == Lookup(d, n))
            && g.used == (if ok then d.used - {Lookup(d, name).value} else d.used)
  {
    hide First;
    var i := First(d.entries, name);
    if i < |d.entries| {
      EntryChanged(d, Delete(d, name).0, i, FREE);
    }
  }

  /** The insertion alone, without the search before it, keeps names unique exactly if the name is not in a block
      behind the one with the first free entry. */
  lemma InsertKeepsNamesUniqueIff(d: Dir, name: string)
    requires Valid(d) && IsName(name)
    ensures Distinct(Insert(d, name).0.entries)
       <==> !(BlockEnd(First(d.entries, "")) <= First(d.entries, name) < |d.entries|)
  {
    hide LowestFree, AddBlock;
    NoFreeInBlocks(d);
    AddedBlock(d);
    AddedSize(d);
    var free, at := First(d.entries, ""), First(d.entries, name);
    var end := if BlockEnd(free) <= |d.entries| then BlockEnd(free) else |d.entries|;
    FirstInPrefix(d.entries, end, name);
    var g := Insert(d, name).0;
    if BlockEnd(free) <= at < |d.entries| {
      assert g.entries[free].name == name && g.entries[at].name == name;
    } else if at == |d.entries| {
      CreateAddsName(d, name);
    }
  }

  // ---- names as they are stored ----

  /** strcmp: the text up to the terminator. */
  function TextOf(bytes: string): string {
    if bytes == [] || bytes[0] == '\0' then [] else [bytes[0]] + TextOf(bytes[1..])
  }

  /** A name copied with whatever lies behind its terminator is read back as it was. */
  lemma {:induction false} StoredNameIsRead(name: string, behind: string)
    requires '\0' !in name
    ensures TextOf(name + ['\0'] + behind) == name
  {
    if name == [] {
      assert ([] + ['\0'] + behind)[0] == '\0';
    } else {
      assert (name + ['\0'] + behind)[1..] == name[1..] + ['\0'] + behind;
      StoredNameIsRead(name[1..], behind);
    }
  }
}
