/** The directory of a CMS disk and the cache of directory addresses by file name. */
module NameCache {
  import opened Arith
  import opened Options
  import opened Writer
  import opened PointerTree

  /** One directory slot: unused, the entry of the directory itself or of the allocation map, or a file with the rest
      of its directory entry. */
  datatype Entry = Free | Special | File(name: string, data: int)

  /** The disk address of a slot. */
  datatype Slot = Slot(blk: int, off: nat)

  /** A place in the directory: directory block and slot number. */
  datatype Place = Place(b: nat, s: nat)

  /** Slots per block, the blocks on disk, and the directory blocks in their order. */
  datatype Tab = Tab(k: nat, disk: map<int, seq<Entry>>, dblocks: seq<int>)

  /** The directory, pointers per block and depth of its pointer tree, the cache and the number of files.  A name can be
      cached without an address. */
  datatype Dir = Dir(tab: Tab, ppb: nat, dir_levels: nat,
                     cache: map<string, Option<Slot>>, fcache_max: int, files: int) {
    /** How many directory blocks the pointer tree leads to: all, or the first ones. */
    function Seen(): (n: int)
      ensures n <= |tab.dblocks|
    {
      Min(|tab.dblocks|, Power(ppb, dir_levels))
    }

    /** The pointer tree leads to every directory block. */
    predicate Reached() {
      |tab.dblocks| <= Power(ppb, dir_levels)
    }
  }

  ghost predicate BlocksOk(d: Tab) {
    && 3 <= d.k && 0 < |d.dblocks| && 0 !in d.disk
    && (forall b {:trigger d.dblocks[b]} :: 0 <= b < |d.dblocks|
          ==> d.dblocks[b] in d.disk && |d.disk[d.dblocks[b]]| == d.k)
    && Distinct(d.dblocks, |d.dblocks|)
  }

  ghost predicate InDir(d: Tab, p: Place) {
    p.b < |d.dblocks| && p.s < d.k
  }

  ghost function At(d: Tab, p: Place): Entry
    requires BlocksOk(d) && InDir(d, p)
  {
    d.disk[d.dblocks[p.b]][p.s]
  }

  function AddrOf(d: Tab, p: Place): Slot
    requires p.b < |d.dblocks|
  {
    Slot(d.dblocks[p.b], p.s)
  }

  /** Used slots come first; only the last block has free ones, behind `fill` used ones. */
  ghost predicate Packed(d: Tab, fill: nat)
    requires BlocksOk(d)
  {
    && fill <= d.k
    && (forall p {:trigger At(d, p)} :: InDir(d, p) ==> (At(d, p) == Free <==> p.b == |d.dblocks| - 1 && fill <= p.s))
    && (forall p {:trigger At(d, p)} :: InDir(d, p) ==> (At(d, p) == Special <==> p.b == 0 && p.s < 2))
  }

  /** where tells the place of every file, and there is no other entry for its name. */
  ghost predicate Located(d: Tab, where: map<string, Place>)
    requires BlocksOk(d)
  {
    && (forall n {:trigger where[n]} :: n in where ==>
          InDir(d, where[n]) && At(d, where[n]).File? && At(d, where[n]).name == n)
    && (forall p {:trigger At(d, p)} :: InDir(d, p) && At(d, p).File?
          ==> At(d, p).name in where && where[At(d, p).name] == p)
  }

  /** Every cached address is the address of the slot that holds that name. */
  ghost predicate CacheOk(d: Tab, cache: map<string, Option<Slot>>, where: map<string, Place>) {
    forall n {:trigger cache[n]} :: n in cache && cache[n].Some?
           ==> n in where && where[n].b < |d.dblocks| && cache[n].value == AddrOf(d, where[n])
  }

  /** Directory blocks, cache and count as they have been written, whether or not the pointer tree leads to all
      blocks. */
  ghost predicate Laid(d: Dir, where: map<string, Place>, fill: nat) {
    && 2 <= d.ppb && BlocksOk(d.tab) && 0 < fill && Packed(d.tab, fill) && Located(d.tab, where)
       && CacheOk(d.tab, d.cache, where)
    && d.files == |where| && 10 <= d.fcache_max
  }

  ghost predicate DirOk(d: Dir, where: map<string, Place>, fill: nat) {
    Laid(d, where, fill) && d.Reached()
  }

  /** The pointer tree stays as deep as it was while the number of directory blocks does; otherwise it is as deep as
      update_dir_levels says. */
  ghost predicate DepthFollows(d: Dir, d': Dir) {
    && d'.ppb == d.ppb
    && if |d'.tab.dblocks| == |d.tab.dblocks| then d'.dir_levels == d.dir_levels
       else LeastLevels(d.ppb, |d'.tab.dblocks|, d'.dir_levels)
  }

  // ----- the cache ------------------------------------------------------------------------------------------------

  /** max_cache_entries. */
  function MaxCacheEntries(files: nat): int {
    files + 10 + files / 4
  }

  /** cache_fst_addr: a name that is cached already, even without address, is left alone; a full cache is emptied
      first. */
  method CacheAddr(d: Dir, a: Slot, name: string, ghost where: map<string, Place>) returns (d': Dir)
    requires CacheOk(d.tab, d.cache, where) && name in where && where[name].b < |d.tab.dblocks|
             && a == AddrOf(d.tab, where[name]) && 0 <= d.files
    ensures CacheOk(d.tab, d'.cache, where) && d' == d.(cache := d'.cache, fcache_max := d'.fcache_max)
    ensures name in d'.cache && forall n :: n in d'.cache && n != name ==> n in d.cache && d'.cache[n] == d.cache[n]
    ensures 10 <= d.fcache_max ==> 10 <= d'.fcache_max
    ensures name in d.cache ==> d' == d
    ensures name !in d.cache && |d.cache| != d.fcache_max - 1 ==> d' == d.(cache := d.cache[name := Some(a)])
    ensures name !in d.cache && |d.cache| == d.fcache_max - 1 ==>
              d' == d.(cache := map[name := Some(a)], fcache_max := d.files + 10 + d.files / 4)
    ensures |d.cache| < d.fcache_max && 0 < d.fcache_max ==> |d'.cache| < d'.fcache_max
  {
    d' := d;
    if name !in d.cache {
      if |d.cache| == d.fcache_max - 1 {
        d' := d.(cache := map[], fcache_max := MaxCacheEntries(d.files));
      }
      d' := d'.(cache := d'.cache[name := Some(a)]);
    }
  }

  // ----- walking the directory ------------------------------------------------------------------------------------

  ghost predicate Earlier(p: Place, q: Place) {
    p.b < q.b || (p.b == q.b && p.s < q.s)
  }

  ghost predicate NotBefore(d: Tab, name: string, q: Place)
    requires BlocksOk(d)
  {
    forall p {:trigger At(d, p)} :: InDir(d, p) && Earlier(p, q) ==> !(At(d, p).File? && At(d, p).name == name)
  }

  /** walk_directory to look up a name: it sees the first n blocks, those that the pointer tree leads to. */
  method Walk(d: Tab, n: nat, name: string, ghost where: map<string, Place>, ghost fill: nat) returns (a: Option<Slot>)
    requires BlocksOk(d) && Packed(d, fill) && Located(d, where) && n <= |d.dblocks|
    ensures a == if name in where && where[name].b < n then Some(AddrOf(d, where[name])) else None
  {
    for b := 0 to n
      invariant NotBefore(d, name, Place(b, 0))
    {
      var s := 0;
      while s < d.k
        invariant 0 <= s <= d.k && NotBefore(d, name, Place(b, s))
      {
        var e := d.disk[d.dblocks[b]][s];
        assert e == At(d, Place(b, s));
        if e.File? && e.name == name {
          return Some(Slot(d.dblocks[b], s));
        }
        if e.Free? {
          assert NotBefore(d, name, Place(b, d.k));
          break;
        }
        s := s + 1;
      }
    }
    return None;
  }

  /** The name is cached with an address. */
  predicate Cached(d: Dir, name: string) {
    name in d.cache && d.cache[name].Some?
  }

  /** lookup_file: the cached address, or a walk.  On a directory whose blocks are all reached this is what a walk
      gives. */
  method Lookup(d: Dir, name: string, ghost where: map<string, Place>, ghost fill: nat)
    returns (d': Dir, a: Option<Slot>)
    requires Laid(d, where, fill)
    ensures a == if name in where && (Cached(d, name) || where[name].b < d.Seen()) then Some(AddrOf(d.tab, where[name]))
            else None
    ensures d.Reached() ==> a == if name in where then Some(AddrOf(d.tab, where[name])) else None
    ensures Laid(d', where, fill) && d' == d.(cache := d'.cache, fcache_max := d'.fcache_max)
    ensures if a.Some? then name in d'.cache && (name in d.cache ==> d' == d) else d' == d
  {
    if name in d.cache && d.cache[name].Some? {
      return d, d.cache[name];
    }
    PowerPositive(d.ppb, d.dir_levels);
    a := Walk(d.tab, d.Seen(), name, where, fill);
    d' := d;
    if a.Some? {
      d' := CacheAddr(d, a.value, name, where);
    }
  }

  /** Every file is found by a walk exactly when the pointer tree leads to every block. */
  lemma {:induction false} AllFoundIff(d: Dir, where: map<string, Place>, fill: nat)
    requires Laid(d, where, fill)
    ensures d.Reached() <==> forall n {:trigger where[n]} :: n in where ==> where[n].b < d.Seen()
  {
    PowerPositive(d.ppb, d.dir_levels);
    if !d.Reached() {
      var p := Place(|d.tab.dblocks| - 1, fill - 1);
      assert At(d.tab, p).File?;
      assert where[At(d.tab, p).name] == p;
    }
  }

  // ----- creating -------------------------------------------------------------------------------------------------

  function PutSlot(d: Tab, a: Slot, e: Entry): Tab {
    if a.blk in d.disk && a.off < |d.disk[a.blk]| then d.(disk := d.disk[a.blk := d.disk[a.blk][a.off := e]]) else d
  }

  function GetSlot(d: Tab, a: Slot): Entry {
    if a.blk in d.disk && a.off < |d.disk[a.blk]| then d.disk[a.blk][a.off] else Free
  }

  lemma {:induction false} PutAt(d: Tab, p: Place, e: Entry)
    requires BlocksOk(d) && InDir(d, p)
    ensures var d' := PutSlot(d, AddrOf(d, p), e);
            && BlocksOk(d') && d'.dblocks == d.dblocks && d'.k == d.k
            && forall q {:trigger At(d', q)} :: InDir(d', q) ==> At(d', q) == if q == p then e else At(d, q)
  {
    var d' := PutSlot(d, AddrOf(d, p), e);
    forall q | InDir(d, q)
      ensures d'.disk[d'.dblocks[q.b]][q.s] == if q == p then e else At(d, q)
    {
      BlockApart(d, p.b, q.b);
    }
  }

  lemma {:induction false} BlockApart(d: Tab, b: nat, c: nat)
    requires BlocksOk(d) && b < |d.dblocks| && c < |d.dblocks|
    ensures d.dblocks[b] == d.dblocks[c] <==> b == c
  {
    if b < c {
      DistinctAt(d.dblocks, |d.dblocks|, b, c);
    } else if c < b {
      DistinctAt(d.dblocks, |d.dblocks|, c, b);
    }
  }

  /** walk_directory to find a free slot on the first n blocks. */
  method LocateEmpty(d: Tab, n: nat, ghost fill: nat) returns (a: Option<Slot>)
    requires BlocksOk(d) && Packed(d, fill) && n <= |d.dblocks|
    ensures a == if n == |d.dblocks| && fill < d.k then Some(AddrOf(d, Place(|d.dblocks| - 1, fill))) else None
  {
    for b := 0 to n
      invariant b == |d.dblocks| ==> fill == d.k
    {
      var s := 0;
      while s < d.k
        invariant 0 <= s <= d.k && (b == |d.dblocks| - 1 ==> s <= fill)
      {
        assert At(d, Place(b, s)) == d.disk[d.dblocks[b]][s];
        if d.disk[d.dblocks[b]][s].Free? {
          return Some(Slot(d.dblocks[b], s));
        }
        s := s + 1;
      }
    }
    return None;
  }

  /** A new directory block behind the first n ones, which are the ones a walk collects. */
  method AddBlock(d: Tab, n: nat, ghost where: map<string, Place>) returns (d': Tab, a: Slot)
    requires BlocksOk(d) && Packed(d, d.k) && Located(d, where) && n == |d.dblocks|
    ensures BlocksOk(d') && Packed(d', 0) && Located(d', where) && d'.k == d.k && d.dblocks <= d'.dblocks
    ensures |d'.dblocks| == |d.dblocks| + 1 && a == AddrOf(d', Place(|d.dblocks|, 0)) && KeepsData(d, d', where, where)
  {
    ghost var top := BoundedAbove(d.disk.Keys);
    assert 0 < top + 1 && top + 1 !in d.disk;
    var blk :| 0 < blk && blk !in d.disk;
    assert d.dblocks[..n] == d.dblocks;
    d' := Tab(d.k, d.disk[blk := seq(d.k, _ => Free)], d.dblocks[..n] + [blk]);
    a := Slot(blk, 0);
    DistinctPrefix(d.dblocks, d'.dblocks, |d.dblocks|);
    assert forall p {:trigger At(d', p)} :: InDir(d', p) && p.b < |d.dblocks| ==> At(d', p) == At(d, p);
  }

  /** Every file of where' that was in where has the same entry as before. */
  ghost predicate KeepsData(d: Tab, d': Tab, where: map<string, Place>, where': map<string, Place>)
    requires BlocksOk(d) && BlocksOk(d')
  {
    forall n {:trigger where'[n]} :: n in where' && n in where ==>
      InDir(d', where'[n]) && InDir(d, where[n]) && At(d', where'[n]) == At(d, where[n])
  }

  /** The entry of a file. */
  ghost function EntryOf(d: Tab, where: map<string, Place>, name: string): Entry {
    if name in where && where[name].b < |d.dblocks| then GetSlot(d, AddrOf(d, where[name])) else Free
  }

  lemma {:induction false} Filled(d: Tab, where: map<string, Place>, fill: nat, name: string, data: int)
    requires BlocksOk(d) && Packed(d, fill) && Located(d, where) && name !in where && fill < d.k
             && (|d.dblocks| == 1 ==> 2 <= fill)
    ensures var p := Place(|d.dblocks| - 1, fill); var d' := PutSlot(d, AddrOf(d, p), File(name, data));
            && BlocksOk(d') && d'.dblocks == d.dblocks && Packed(d', fill + 1) && Located(d', where[name := p])
            && At(d', p) == File(name, data) && KeepsData(d, d', where, where[name := p])
  {
    PutAt(d, Place(|d.dblocks| - 1, fill), File(name, data));
  }

  /** The directory block 0 starts with two special entries. */
  lemma {:induction false} SpecialFill(d: Tab, fill: nat)
    requires BlocksOk(d) && Packed(d, fill) && |d.dblocks| == 1
    ensures 2 <= fill
  {
    assert At(d, Place(0, 0)) == Special && At(d, Place(0, 1)) == Special;
  }

  lemma {:induction false} CacheGrows(d: Tab, d': Tab,
                                      cache: map<string, Option<Slot>>, where: map<string, Place>,
                                      where': map<string, Place>)
    requires CacheOk(d, cache, where) && d.dblocks <= d'.dblocks
             && forall n :: n in where ==> n in where' && where'[n] == where[n]
    ensures CacheOk(d', cache, where')
  {
  }

  /** A free slot: the first one, or the first of a new block. */
  method FreeSlot(d: Tab, n: nat, ghost where: map<string, Place>, ghost fill: nat)
    returns (d': Tab, a: Slot, grown: bool, ghost fill': nat)
    requires BlocksOk(d) && Packed(d, fill) && Located(d, where) && n == |d.dblocks|
    ensures BlocksOk(d') && Packed(d', fill') && Located(d', where) && fill' < d'.k
            && (|d'.dblocks| == 1 ==> 2 <= fill')
    ensures d.dblocks <= d'.dblocks && a == AddrOf(d', Place(|d'.dblocks| - 1, fill')) && KeepsData(d, d', where, where)
    ensures grown == (fill == d.k) && |d'.dblocks| == |d.dblocks| + if grown then 1 else 0
  {
    var found := LocateEmpty(d, n, fill);
    grown := found.None?;
    if grown {
      d', a := AddBlock(d, n, where);
      fill' := 0;
    } else {
      if |d.dblocks| == 1 {
        SpecialFill(d, fill);
      }
      d', a, fill' := d, found.value, fill;
    }
  }

  lemma {:induction false} KeepsTrans(d: Tab, d1: Tab, d2: Tab, where: map<string, Place>, where1: map<string, Place>,
                                      where2: map<string, Place>)
    requires BlocksOk(d) && BlocksOk(d1) && BlocksOk(d2) && Located(d, where) && Located(d1, where1)
             && Located(d2, where2)
    requires KeepsData(d, d1, where, where1) && KeepsData(d1, d2, where1, where2)
             && forall n :: n in where && n in where2 ==> n in where1
    ensures KeepsData(d, d2, where, where2)
  {
  }

  /** The directory with one file more. */
  method AddEntry(d: Tab, n: nat, name: string, data: int, ghost where: map<string, Place>, ghost fill: nat)
    returns (d': Tab, a: Slot, grown: bool, ghost where': map<string, Place>, ghost fill': nat)
    requires BlocksOk(d) && Packed(d, fill) && Located(d, where) && name !in where && n == |d.dblocks|
    ensures BlocksOk(d') && 0 < fill' && Packed(d', fill') && Located(d', where') && d.dblocks <= d'.dblocks
    ensures name in where' && where' == where[name := where'[name]] && a == AddrOf(d', where'[name])
    ensures EntryOf(d', where', name) == File(name, data) && KeepsData(d, d', where, where')
    ensures where'[name] == Place(|d'.dblocks| - 1, fill' - 1) && |where'| == |where| + 1
    ensures grown == (fill == d.k) && |d'.dblocks| == |d.dblocks| + if grown then 1 else 0
  {
    var tab;
    tab, a, grown, fill' := FreeSlot(d, n, where, fill);
    Filled(tab, where, fill', name, data);
    where', fill' := where[name := Place(|tab.dblocks| - 1, fill')], fill' + 1;
    d' := PutSlot(tab, a, File(name, data));
    KeepsTrans(d, tab, d', where, where, where');
    GrownSize(where, name, where'[name]);
  }

  lemma {:induction false} GrownSize(where: map<string, Place>, name: string, p: Place)
    requires name !in where
    ensures where[name := p].Keys == where.Keys + {name} && |where[name := p]| == |where| + 1
  {
    assert where[name := p].Keys == where.Keys + {name};
  }

  /** rewrite_dblock_ptrs: the depth of the new pointer tree, which leads to every block exactly when the number of
      blocks is in none of the gaps that rounding down leaves. */
  method RewriteDirPointers(d: Dir) returns (d': Dir)
    requires 2 <= d.ppb
    ensures d' == d.(dir_levels := d'.dir_levels) && LeastLevels(d.ppb, |d.tab.dblocks|, d'.dir_levels)
    ensures d'.Reached() <==> Reachable(d.ppb, |d.tab.dblocks|)
  {
    var levels := UpdateLevels(d.ppb, |d.tab.dblocks|);
    ReachesAllIff(d.ppb, |d.tab.dblocks|, levels);
    d' := d.(dir_levels := levels);
  }

  /** The directory blocks as the data blocks of a pointer tree; its entries carry no record numbers of their own. */
  function AsBlocks(dblocks: seq<int>): (bl: seq<Block>)
    ensures |bl| == |dblocks| && forall b :: 0 <= b < |bl| ==> bl[b] == Block(dblocks[b], 0, 1)
  {
    seq(|dblocks|, b requires 0 <= b < |dblocks| => Block(dblocks[b], 0, 1))
  }

  /** rewrite_dir_ptr_block and cache_dblocks: the pointer tree written for the directory blocks, walked back, leads to
      as many of them as Seen says, in order. */
  method DirTree(d: Dir, m: Meta) returns (m': Meta, fop: int, seen: seq<Block>)
    requires 2 <= d.ppb && 0 < |d.tab.dblocks| && (|d.tab.dblocks| == 1 <==> d.dir_levels == 0)
    requires forall b :: 0 <= b < |d.tab.dblocks| ==> d.tab.dblocks[b] != 0
    ensures |seen| == d.Seen() && forall b :: 0 <= b < |seen| ==> seen[b].disk_addr == d.tab.dblocks[b]
    ensures m'.used - m.used == Nodes(m'.ptrs, d.dir_levels, fop) && m.used <= m'.used
  {
    var bl := AsBlocks(d.tab.dblocks);
    m', fop := RewritePointers(d.ppb, bl, m, d.dir_levels);
    seen := ReadPointers(d.ppb, m'.ptrs, d.dir_levels, fop, |bl|, bl);
  }

  /** 128 pointers fit a block of 512 bytes: the directory block number 16385 gets two levels, which lead to 16384
      blocks. */
  lemma {:induction false} DirGapExample()
    ensures LeastLevels(128, 16385, 2) && InGap(128, 16385, 2) && !Reachable(128, 16385) && Power(128, 2) == 16384
  {
    TimesIsMul(128, 128);
    TimesIsMul(129, 128);
    TimesOne(128);
    TimesOne(129);
    assert Power(128, 1) == 128;
    assert InGap(128, 16385, 2);
  }

  method WithTab(d: Dir, tab: Tab, grown: bool) returns (d': Dir)
    requires 2 <= d.ppb && d.Reached() && |tab.dblocks| == |d.tab.dblocks| + if grown then 1 else 0
    ensures d' == d.(tab := tab, dir_levels := d'.dir_levels) && DepthFollows(d, d')
    ensures d'.Reached() <==> (grown ==> Reachable(d.ppb, |d.tab.dblocks| + 1))
  {
    d' := d.(tab := tab);
    if grown {
      d' := RewriteDirPointers(d');
    }
  }

  /** The entry of a new file, and the pointer tree if there is a new block for it.  Cache and count do not know of the
      file yet. */
  method CreateEntry(d: Dir, name: string, data: int, ghost where: map<string, Place>, ghost fill: nat)
    returns (d': Dir, a: Slot, ghost where': map<string, Place>, ghost fill': nat)
    requires DirOk(d, where, fill) && name !in where
    ensures Laid(d'.(files := d'.files + 1), where', fill') && d' == d.(tab := d'.tab, dir_levels := d'.dir_levels)
    ensures where' == where[name := Place(|d'.tab.dblocks| - 1, fill' - 1)] && DepthFollows(d, d')
    ensures a == AddrOf(d'.tab, where'[name])
    ensures KeepsData(d.tab, d'.tab, where, where') && EntryOf(d'.tab, where', name) == File(name, data)
    ensures |d'.tab.dblocks| == |d.tab.dblocks| + if fill == d.tab.k then 1 else 0
    ensures d'.Reached() <==> (fill == d.tab.k ==> Reachable(d.ppb, |d.tab.dblocks| + 1))
  {
    var tab, grown;
    tab, a, grown, where', fill' := AddEntry(d.tab, d.Seen(), name, data, where, fill);
    CacheGrows(d.tab, tab, d.cache, where, where');
    d' := WithTab(d, tab, grown);
  }

  /** The file is entered at place p unless it was there already; every other file is where it was. */
  ghost predicate Entered(where: map<string, Place>, where': map<string, Place>, existed: bool, name: string,
                          p: Place) {
    && where'.Keys == where.Keys + {name}
    && (forall n {:trigger where'[n]} :: n in where' ==> where'[n] == if n in where then where[n] else p)
    && (!existed ==> name !in where)
  }

  lemma {:induction false} EnteredNew(where: map<string, Place>, name: string, p: Place)
    requires name !in where
    ensures Entered(where, where[name := p], false, name, p)
  {
  }

  /** The part of cmsfs_create for a name that is not in the directory. */
  method CreateNew(d: Dir, name: string, data: int, ghost where: map<string, Place>, ghost fill: nat)
    returns (d': Dir, ghost where': map<string, Place>, ghost fill': nat)
    requires DirOk(d, where, fill) && name !in where
    ensures Laid(d', where', fill') && Entered(where, where', false, name, Place(|d'.tab.dblocks| - 1, fill' - 1))
    ensures DepthFollows(d, d')
    ensures KeepsData(d.tab, d'.tab, where, where') && EntryOf(d'.tab, where', name) == File(name, data)
    ensures |d'.tab.dblocks| == |d.tab.dblocks| + if fill == d.tab.k then 1 else 0
    ensures d'.Reached() <==> (fill == d.tab.k ==> Reachable(d.ppb, |d.tab.dblocks| + 1))
  {
    var a;
    d', a, where', fill' := CreateEntry(d, name, data, where, fill);
    EnteredNew(where, name, Place(|d'.tab.dblocks| - 1, fill' - 1));
    d' := CacheAddr(d', a, name, where');
    d' := d'.(files := d'.files + 1);
  }

  /** What cmsfs_create has made of a directory. */
  ghost predicate Created(d: Dir, d': Dir, existed: bool, name: string, data: int,
                          where: map<string, Place>, where': map<string, Place>, fill: nat, fill': nat) {
    && Laid(d, where, fill) && Laid(d', where', fill') && DepthFollows(d, d')
    && Entered(where, where', existed, name, Place(|d'.tab.dblocks| - 1, fill' - 1))
    && |d'.tab.dblocks| == |d.tab.dblocks| + (if !existed && fill == d.tab.k then 1 else 0)
    && KeepsData(d.tab, d'.tab, where, where') && (!existed ==> EntryOf(d'.tab, where', name) == File(name, data))
  }

  /** cmsfs_create: an existing file stays as it is; a new one gets the first free slot, if need be on a new block.  The
      directory stays sound if and only if the pointer tree can lead to that block. */
  method Create(d: Dir, name: string, data: int, ghost where: map<string, Place>, ghost fill: nat)
    returns (d': Dir, existed: bool, ghost where': map<string, Place>, ghost fill': nat)
    requires DirOk(d, where, fill)
    ensures existed == (name in where) && Created(d, d', existed, name, data, where, where', fill, fill')
    ensures DirOk(d', where', fill') <==> (!existed && fill == d.tab.k ==> Reachable(d.ppb, |d.tab.dblocks| + 1))
  {
    var found;
    d', found := Lookup(d, name, where, fill);
    existed, where', fill' := found.Some?, where, fill;
    if !existed {
      d', where', fill' := CreateNew(d', name, data, where, fill);
    }
  }

  /** A file just created is found by a walk of the directory if and only if its block is one that the pointer tree
      leads to. */
  method CreateThenWalk(d: Dir, name: string, data: int, ghost where: map<string, Place>, ghost fill: nat)
    returns (a: Option<Slot>)
    requires DirOk(d, where, fill) && name !in where
    ensures a.Some? <==> (fill == d.tab.k ==> Reachable(d.ppb, |d.tab.dblocks| + 1))
  {
    var d', existed;
    ghost var where', fill';
    d', existed, where', fill' := Create(d, name, data, where, fill);
    PowerPositive(d'.ppb, d'.dir_levels);
    a := Walk(d'.tab, d'.Seen(), name, where', fill');
  }

  // ----- deleting ----------------------------------------------------------------------------------------------------

  ghost function LastPlace(d: Tab, fill: nat): Place
    requires 0 < |d.dblocks| && 0 < fill
  {
    Place(|d.dblocks| - 1, fill - 1)
  }

  /** In a directory with a file the last used slot is a file's. */
  lemma {:induction false} LastIsFile(d: Tab, where: map<string, Place>, fill: nat, name: string)
    requires BlocksOk(d) && 0 < fill && Packed(d, fill) && Located(d, where) && name in where
    ensures At(d, LastPlace(d, fill)).File?
  {
    assert At(d, where[name]).File?;
  }

  /** find_last_fdir_entry: the last file on the last of the n blocks that the pointer tree leads to. */
  method FindLast(d: Tab, n: nat, ghost fill: nat) returns (a: Slot)
    requires BlocksOk(d) && 0 < fill && Packed(d, fill) && At(d, LastPlace(d, fill)).File? && n == |d.dblocks|
    ensures a == AddrOf(d, LastPlace(d, fill))
  {
    var blk := d.dblocks[n - 1];
    var left := d.k;
    while left > 0
      invariant fill <= left <= d.k
    {
      left := left - 1;
      assert At(d, Place(|d.dblocks| - 1, left)) == d.disk[blk][left];
      if d.disk[blk][left].File? {
        return Slot(blk, left);
      }
    }
  }

  /** The last file has moved into the slot of the deleted one. */
  ghost function Moved(where: map<string, Place>, name: string, last: Place): map<string, Place>
    requires name in where
  {
    map n | n in where && n != name :: if where[n] == last then where[name] else where[n]
  }

  /** The file at the last place, unless it is the deleted one, is where that was; every other file is where it was. */
  ghost predicate MovedLast(where: map<string, Place>, where': map<string, Place>, name: string, last: Place)
    requires name in where
  {
    forall n {:trigger where'[n]} :: n in where' ==> n in where && where'[n] == PlaceAfter(where, name, last, n)
  }

  /** Where a file is once the file `gone`, if there is one, is deleted. */
  ghost function PlaceAfter(where: map<string, Place>, gone: string, last: Place, n: string): Place
    requires n in where
  {
    if gone in where && where[n] == last then where[gone] else where[n]
  }

  /** Copy up, then clear the last slot. */
  function CopyUp(d: Tab, kill: Slot, last: Slot): Tab {
    PutSlot(if last == kill then d else PutSlot(d, kill, GetSlot(d, last)), last, Free)
  }

  lemma {:induction false} SameSlot(d: Tab, p: Place, q: Place)
    requires BlocksOk(d) && InDir(d, p) && InDir(d, q)
    ensures AddrOf(d, p) == AddrOf(d, q) <==> p == q
  {
    BlockApart(d, p.b, q.b);
  }

  /** d' is d with the entry at `last` moved to p. */
  ghost predicate MovedUp(d: Tab, d': Tab, p: Place, last: Place)
    requires BlocksOk(d) && InDir(d, p) && InDir(d, last)
  {
    && BlocksOk(d') && d'.dblocks == d.dblocks && d'.k == d.k
    && forall q {:trigger At(d', q)} :: InDir(d', q) ==> At(d', q) == if q == last then Free
       else if q == p then At(d, last) else At(d, q)
  }

  lemma {:induction false} CopyUpAt(d: Tab, p: Place, last: Place)
    requires BlocksOk(d) && InDir(d, p) && InDir(d, last)
    ensures MovedUp(d, CopyUp(d, AddrOf(d, p), AddrOf(d, last)), p, last)
  {
    SameSlot(d, p, last);
    if p == last {
      PutAt(d, last, Free);
    } else {
      PutAt(d, p, At(d, last));
      PutAt(PutSlot(d, AddrOf(d, p), At(d, last)), last, Free);
    }
  }

  lemma {:induction false} MovedUpPacked(d: Tab, d': Tab, where: map<string, Place>, fill: nat, name: string)
    requires BlocksOk(d) && 0 < fill && Packed(d, fill) && Located(d, where) && name in where
    requires At(d, LastPlace(d, fill)).File? && MovedUp(d, d', where[name], LastPlace(d, fill))
    ensures Packed(d', fill - 1)
  {
    assert At(d, where[name]).File?;
  }

  lemma {:induction false} MovedUpLocated(d: Tab, d': Tab, where: map<string, Place>, last: Place, name: string)
    requires BlocksOk(d) && Located(d, where) && name in where && InDir(d, last)
    requires At(d, last).File? && MovedUp(d, d', where[name], last)
    ensures Located(d', Moved(where, name, last)) && KeepsData(d, d', where, Moved(where, name, last))
  {
    var where' := Moved(where, name, last);
    forall n | n in where'
      ensures InDir(d', where'[n]) && At(d', where'[n]) == At(d, where[n])
    {
      assert At(d, where[n]).name == n && At(d, where[name]).name == name;
    }
    forall q | InDir(d', q) && At(d', q).File?
      ensures At(d', q).name in where' && where'[At(d', q).name] == q
    {
      assert At(d, q).File? ==> where[At(d, q).name] == q;
    }
  }

  lemma {:induction false} CopyUpOk(d: Tab, where: map<string, Place>, fill: nat, name: string)
    requires BlocksOk(d) && 0 < fill && Packed(d, fill) && Located(d, where) && name in where
    ensures var last := LastPlace(d, fill); var d' := CopyUp(d, AddrOf(d, where[name]), AddrOf(d, last));
            && BlocksOk(d') && d'.dblocks == d.dblocks && Packed(d', fill - 1) && Located(d', Moved(where, name, last))
            && KeepsData(d, d', where, Moved(where, name, last))
  {
    var last := LastPlace(d, fill);
    var d' := CopyUp(d, AddrOf(d, where[name]), AddrOf(d, last));
    LastIsFile(d, where, fill, name);
    CopyUpAt(d, where[name], last);
    MovedUpPacked(d, d', where, fill, name);
    MovedUpLocated(d, d', where, last, name);
  }

  /** The last directory block, when it has become empty, is given back. */
  function DropBlock(d: Tab): Tab
    requires 0 < |d.dblocks|
  {
    d.(disk := d.disk - {d.dblocks[|d.dblocks| - 1]}, dblocks := d.dblocks[..|d.dblocks| - 1])
  }

  lemma {:induction false} DropBlockOk(d: Tab, where: map<string, Place>)
    requires BlocksOk(d) && Packed(d, 0) && Located(d, where)
    ensures var d' := DropBlock(d);
            BlocksOk(d') && Packed(d', d.k) && Located(d', where) && KeepsData(d, d', where, where)
  {
    assert At(d, Place(|d.dblocks| - 1, 0)) == Free;
    assert 1 < |d.dblocks|;
    var d' := DropBlock(d);
    DistinctPrefix(d.dblocks, d'.dblocks, |d'.dblocks|);
    assert BlocksOk(d');
    assert forall p {:trigger At(d', p)} :: InDir(d', p) ==> At(d', p) == At(d, p);
    assert forall p {:trigger At(d, p)} :: InDir(d, p) && At(d, p) != Free ==> InDir(d', p);
  }

  /** The cache after a delete: the name has no address, and the file that moved has its new one. */
  function Recached(cache: map<string, Option<Slot>>, name: string, moved: Option<string>, kill: Slot)
    : map<string, Option<Slot>>
  {
    var c := if name in cache then cache[name := None] else cache;
    if moved.Some? && moved.value in c then c[moved.value := Some(kill)] else c
  }

  lemma {:induction false} RecachedOk(d: Tab, d': Tab,
                                      cache: map<string, Option<Slot>>, where: map<string, Place>, fill: nat,
                                      name: string, moved: Option<string>)
    requires BlocksOk(d) && 0 < fill && Packed(d, fill) && Located(d, where) && CacheOk(d, cache, where)
             && name in where
    requires BlocksOk(d') && d'.dblocks <= d.dblocks && Located(d', Moved(where, name, LastPlace(d, fill)))
    requires moved == if where[name] == LastPlace(d, fill) then None else Some(At(d, LastPlace(d, fill)).name)
    ensures CacheOk(d', Recached(cache, name, moved, AddrOf(d, where[name])), Moved(where, name, LastPlace(d, fill)))
  {
  }

  /** delete_file on the directory: copy up the last entry, clear its slot, give back an empty block. */
  method RemoveEntry(d: Tab, kill: Slot, last: Slot, ghost where: map<string, Place>, ghost fill: nat,
                     ghost name: string)
    returns (d': Tab, shrunk: bool, ghost fill': nat)
    requires BlocksOk(d) && 0 < fill && Packed(d, fill) && Located(d, where) && name in where
    requires kill == AddrOf(d, where[name]) && last == AddrOf(d, LastPlace(d, fill))
    ensures BlocksOk(d') && 0 < fill' && Packed(d', fill') && Located(d', Moved(where, name, LastPlace(d, fill)))
            && d'.dblocks <= d.dblocks
    ensures KeepsData(d, d', where, Moved(where, name, LastPlace(d, fill)))
    ensures shrunk == (fill == 1) && |d'.dblocks| == |d.dblocks| - if shrunk then 1 else 0
  {
    ghost var where' := Moved(where, name, LastPlace(d, fill));
    CopyUpOk(d, where, fill, name);
    d' := CopyUp(d, kill, last);
    fill' := fill - 1;
    shrunk := last.off == 0;
    if shrunk {
      ghost var d1 := d';
      DropBlockOk(d', where');
      d' := DropBlock(d');
      fill' := d.k;
      KeepsTrans(d, d1, d', where, where', where');
    }
  }

  lemma {:induction false} MovedSize(where: map<string, Place>, name: string, last: Place)
    requires name in where
    ensures |Moved(where, name, last)| == |where| - 1 && Moved(where, name, last).Keys == where.Keys - {name}
  {
    assert Moved(where, name, last).Keys == where.Keys - {name};
  }

  /** delete_file: the file is gone, every other file is kept, and the cache follows the one that moved.  The directory
      stays sound if and only if, when a block is given back, the pointer tree can lead to the remaining ones. */
  method Delete(d: Dir, name: string, ghost where: map<string, Place>, ghost fill: nat)
    returns (d': Dir, existed: bool, ghost where': map<string, Place>, ghost fill': nat)
    requires DirOk(d, where, fill)
    ensures Laid(d', where', fill') && existed == (name in where) && where'.Keys == where.Keys - {name}
    ensures existed ==> MovedLast(where, where', name, LastPlace(d.tab, fill))
    ensures |d'.tab.dblocks| == |d.tab.dblocks| - (if existed && fill == 1 then 1 else 0) && DepthFollows(d, d')
    ensures KeepsData(d.tab, d'.tab, where, where') && (!existed ==> where' == where)
    ensures DirOk(d', where', fill') <==> (existed && fill == 1 ==> Reachable(d.ppb, |d.tab.dblocks| - 1))
  {
    var found;
    d', found := Lookup(d, name, where, fill);
    existed, where', fill' := found.Some?, where, fill;
    if existed {
      d', where', fill' := DeleteAt(d', found.value, name, where, fill);
    }
  }

  /** The part of delete_file for a file whose slot has been found. */
  method DeleteAt(d: Dir, kill: Slot, name: string, ghost where: map<string, Place>, ghost fill: nat)
    returns (d': Dir, ghost where': map<string, Place>, ghost fill': nat)
    requires DirOk(d, where, fill) && name in where && kill == AddrOf(d.tab, where[name])
    ensures Laid(d', where', fill') && where'.Keys == where.Keys - {name} && KeepsData(d.tab, d'.tab, where, where')
    ensures MovedLast(where, where', name, LastPlace(d.tab, fill))
    ensures |d'.tab.dblocks| == |d.tab.dblocks| - (if fill == 1 then 1 else 0) && DepthFollows(d, d')
    ensures d'.Reached() <==> (fill == 1 ==> Reachable(d.ppb, |d.tab.dblocks| - 1))
  {
    LastIsFile(d.tab, where, fill, name);
    var last := FindLast(d.tab, d.Seen(), fill);
    SameSlot(d.tab, where[name], LastPlace(d.tab, fill));
    var moved := if last == kill then None else Some(GetSlot(d.tab, last).name);
    var cache := Recached(d.cache, name, moved, kill);
    var tab, shrunk;
    tab, shrunk, fill' := RemoveEntry(d.tab, kill, last, where, fill, name);
    where' := Moved(where, name, LastPlace(d.tab, fill));
    MovedSize(where, name, LastPlace(d.tab, fill));
    RecachedOk(d.tab, tab, d.cache, where, fill, name, moved);
    d' := d.(tab := tab, cache := cache, files := d.files - 1);
    if shrunk {
      d' := RewriteDirPointers(d');
    }
  }

  // ----- renaming ----------------------------------------------------------------------------------------------------

  ghost function Renamed(where: map<string, Place>, name: string, new_name: string): map<string, Place>
    requires name in where
  {
    (where - {name})[new_name := where[name]]
  }

  lemma {:induction false} RenamedOk(d: Tab, where: map<string, Place>, fill: nat, name: string, new_name: string)
    requires BlocksOk(d) && Packed(d, fill) && Located(d, where) && name in where && new_name !in where
    ensures var e := File(new_name, At(d, where[name]).data); var d' := PutSlot(d, AddrOf(d, where[name]), e);
            && BlocksOk(d') && d'.dblocks == d.dblocks && Packed(d', fill)
               && Located(d', Renamed(where, name, new_name))
            && At(d', where[name]) == e && KeepsData(d, d', where, Renamed(where, name, new_name))
  {
    PutAt(d, where[name], File(new_name, At(d, where[name]).data));
    assert forall n :: n in where && n != name ==> where[n] != where[name];
  }

  lemma {:induction false} RenamedSize(where: map<string, Place>, name: string, new_name: string)
    requires name in where && new_name !in where
    ensures |Renamed(where, name, new_name)| == |where| && Renamed(where, name, new_name).Keys == where.Keys - {name}
            + {new_name}
  {
    var where' := Renamed(where, name, new_name);
    assert where'.Keys == where.Keys - {name} + {new_name};
    assert |where'.Keys| == |where.Keys - {name}| + 1;
  }

  lemma {:induction false} UncachedOk(d: Tab, d': Tab,
                                      cache: map<string, Option<Slot>>, where: map<string, Place>, name: string,
                                      new_name: string)
    requires CacheOk(d, cache, where) && name in where && new_name !in where && d'.dblocks == d.dblocks
    ensures CacheOk(d', if name in cache then cache[name := None] else cache, Renamed(where, name, new_name))
  {
  }

  /** The end of cmsfs_rename: the old name loses its cached address, the slot gets the new name. */
  method WriteName(d: Dir, a: Slot, name: string, new_name: string, ghost where: map<string, Place>, ghost fill: nat)
    returns (d': Dir, ghost where': map<string, Place>)
    requires Laid(d, where, fill) && name in where && new_name !in where && a == AddrOf(d.tab, where[name])
    ensures Laid(d', where', fill) && where' == Renamed(where, name, new_name)
            && KeepsData(d.tab, d'.tab, where, where')
    ensures d' == d.(tab := d'.tab, cache := d'.cache) && d'.tab.dblocks == d.tab.dblocks
    ensures new_name in where' && At(d'.tab, where'[new_name]) == File(new_name, At(d.tab, where[name]).data)
  {
    where' := Renamed(where, name, new_name);
    RenamedOk(d.tab, where, fill, name, new_name);
    RenamedSize(where, name, new_name);
    var tab := PutSlot(d.tab, a, File(new_name, GetSlot(d.tab, a).data));
    UncachedOk(d.tab, tab, d.cache, where, name, new_name);
    d' := d.(tab := tab, cache := if name in d.cache then d.cache[name := None] else d.cache);
  }

  /** Make room for the new name: a file of that name is deleted, and the old one is looked up again since it may have
      moved. */
  method MakeRoom(d: Dir, a: Slot, name: string, new_name: string, ghost where: map<string, Place>, ghost fill: nat)
    returns (d': Dir, at: Option<Slot>, ghost where': map<string, Place>, ghost fill': nat)
    requires DirOk(d, where, fill) && name in where && a == AddrOf(d.tab, where[name])
    ensures Laid(d', where', fill') && where'.Keys == where.Keys - {new_name} && KeepsData(d.tab, d'.tab, where, where')
    ensures DepthFollows(d, d') && if new_name in where then MovedLast(where, where', new_name, LastPlace(d.tab, fill))
            else where' == where
    ensures at.Some? ==> name != new_name && at.value == AddrOf(d'.tab, where'[name])
    ensures d'.Reached() && name != new_name ==> at.Some?
    ensures d'.Reached() <==> (new_name in where && fill == 1 ==> Reachable(d.ppb, |d.tab.dblocks| - 1))
  {
    var found;
    d', found := Lookup(d, new_name, where, fill);
    at, where', fill' := Some(a), where, fill;
    if found.Some? {
      d', where', fill' := DeleteAt(d', found.value, new_name, where, fill);
      d', at := Lookup(d', name, where', fill');
    }
  }

  lemma {:induction false} RenameKeeps(d: Tab, d1: Tab, d2: Tab, where: map<string, Place>, where1: map<string, Place>,
                                       name: string, new_name: string)
    requires BlocksOk(d) && BlocksOk(d1) && BlocksOk(d2) && Located(d, where) && Located(d1, where1)
    requires name in where1 && name in where && where1.Keys <= where.Keys
    requires KeepsData(d, d1, where, where1) && KeepsData(d1, d2, where1, Renamed(where1, name, new_name))
    ensures KeepsData(d, d2, where, Renamed(where1, name, new_name) - {new_name})
    ensures At(d1, where1[name]) == At(d, where[name])
  {
  }

  /** All files but the renamed one are where they are after a delete of a file with its new name. */
  ghost predicate OthersStay(where: map<string, Place>, where': map<string, Place>, new_name: string, last: Place) {
    forall n {:trigger where'[n]} :: n in where' && n != new_name ==>
      n in where && where'[n] == PlaceAfter(where, new_name, last, n)
  }

  lemma {:induction false} RenamedPlaces(where: map<string, Place>, where1: map<string, Place>, name: string,
                                         new_name: string, last: Place)
    requires name in where1 && name in where && name != new_name && where1.Keys <= where.Keys
    requires if new_name in where then MovedLast(where, where1, new_name, last) else where1 == where
    ensures OthersStay(where, where1, new_name, last)
    ensures OthersStay(where, Renamed(where1, name, new_name), new_name, last)
    ensures Renamed(where1, name, new_name)[new_name] == PlaceAfter(where, new_name, last, name)
  {
  }

  /** The end of cmsfs_rename, seen from its start. */
  method FinishRename(d: Dir, a: Slot, name: string, new_name: string, ghost tab: Tab, ghost where: map<string, Place>,
                      ghost where1: map<string, Place>, ghost fill: nat)
    returns (d': Dir, ghost where': map<string, Place>)
    requires BlocksOk(tab) && Located(tab, where) && name in where && name != new_name
    requires Laid(d, where1, fill) && where1.Keys == where.Keys - {new_name} && KeepsData(tab, d.tab, where, where1)
    requires a == AddrOf(d.tab, where1[name])
    ensures Laid(d', where', fill) && where'.Keys == where.Keys - {name} + {new_name}
    ensures where' == Renamed(where1, name, new_name)
    ensures d' == d.(tab := d'.tab, cache := d'.cache) && d'.tab.dblocks == d.tab.dblocks
    ensures KeepsData(tab, d'.tab, where, where' - {new_name})
    ensures At(d'.tab, where'[new_name]) == File(new_name, At(tab, where[name]).data)
  {
    d', where' := WriteName(d, a, name, new_name, where1, fill);
    RenameKeeps(tab, d.tab, d'.tab, where, where1, name, new_name);
  }

  /** cmsfs_rename.  A different name takes the file over with everything but its name, replacing a file of that name.
      The same name is a case that fails: the file is deleted to make room for itself, and the entry is then written to
      address 0, outside the directory.  The other one is a delete after which the pointer tree does not lead to every
      block. */
  method Rename(d: Dir, name: string, new_name: string, ghost where: map<string, Place>, ghost fill: nat)
    returns (d': Dir, existed: bool, written: bool, ghost where': map<string, Place>, ghost fill': nat)
    requires DirOk(d, where, fill)
    ensures Laid(d', where', fill') && existed == (name in where)
            && KeepsData(d.tab, d'.tab, where, where' - {new_name})
    ensures written ==> existed && name != new_name
    ensures d'.Reached() && existed && name != new_name ==> written
    ensures where'.Keys == if !existed then where.Keys else if written then where.Keys - {name} + {new_name}
            else where.Keys - {new_name}
    ensures written ==> At(d'.tab, where'[new_name]) == File(new_name, At(d.tab, where[name]).data)
    ensures (existed ==> OthersStay(where, where', new_name, LastPlace(d.tab, fill))) && DepthFollows(d, d')
    ensures written ==> where'[new_name] == PlaceAfter(where, new_name, LastPlace(d.tab, fill), name)
    ensures DirOk(d', where', fill') <==> (existed && new_name in where && fill == 1
            ==> Reachable(d.ppb, |d.tab.dblocks| - 1))
  {
    var found, at;
    d', found := Lookup(d, name, where, fill);
    existed, written, where', fill' := found.Some?, false, where, fill;
    if existed {
      d', at, where', fill' := MakeRoom(d', found.value, name, new_name, where, fill);
      written := at.Some?;
      if written {
        RenamedPlaces(where, where', name, new_name, LastPlace(d.tab, fill));
        d', where' := FinishRename(d', at.value, name, new_name, d.tab, where, where', fill');
      }
    }
  }

  /** A directory with the one file A.B. */
  function OneFile(): (d: Dir)
    ensures DirOk(d, map["A.B" := Place(0, 2)], 3)
  {
    var d := Dir(Tab(3, map[1 := [Special, Special, File("A.B", 7)]], [1]), 2, 0, map[], 10, 1);
    assert Distinct(d.tab.dblocks, 1) && BlocksOk(d.tab);
    d
  }

  /** A directory with the one file A.B, and that file renamed to A.B: it is gone. */
  method RenameSelfExample() returns (d: Dir, d': Dir, written: bool)
    ensures GetSlot(d.tab, Slot(1, 2)) == File("A.B", 7) && !written
    ensures BlocksOk(d'.tab) && forall p {:trigger At(d'.tab, p)} :: InDir(d'.tab, p) ==> !At(d'.tab, p).File?
  {
    d := OneFile();
    ghost var where := map["A.B" := Place(0, 2)];
    var existed;
    ghost var where', fill';
    d', existed, written, where', fill' := Rename(d, "A.B", "A.B", where, 3);
    assert where'.Keys == {};
  }

  // ----- listing, and whole runs -------------------------------------------------------------------------------------

  /** One slot of the listing: a file's name is noted and cached. */
  method ListSlot(d: Dir, p: Place, names: set<string>, ghost where: map<string, Place>, ghost fill: nat)
    returns (d': Dir, names': set<string>)
    requires Laid(d, where, fill) && InDir(d.tab, p)
    ensures Laid(d', where, fill) && d' == d.(cache := d'.cache, fcache_max := d'.fcache_max)
    ensures names' == if At(d.tab, p).File? then names + {At(d.tab, p).name} else names
  {
    d', names' := d, names;
    var e := d.tab.disk[d.tab.dblocks[p.b]][p.s];
    assert e == At(d.tab, p);
    if e.File? {
      d' := CacheAddr(d, AddrOf(d.tab, p), e.name, where);
      names' := names + {e.name};
    }
  }

  /** names are the files in front of q. */
  ghost predicate Listed(d: Tab, names: set<string>, where: map<string, Place>, q: Place)
    requires BlocksOk(d)
  {
    && (forall n {:trigger n in names} :: n in names ==> n in where && Earlier(where[n], q))
    && (forall p {:trigger At(d, p)} :: InDir(d, p) && Earlier(p, q) && At(d, p).File? ==> At(d, p).name in names)
  }

  lemma {:induction false} ListedStep(d: Tab, names: set<string>, where: map<string, Place>, p: Place)
    requires BlocksOk(d) && Located(d, where) && InDir(d, p) && Listed(d, names, where, p)
    ensures Listed(d, if At(d, p).File? then names + {At(d, p).name} else names, where, Place(p.b, p.s + 1))
  {
    forall q | InDir(d, q) && Earlier(q, Place(p.b, p.s + 1)) && At(d, q).File?
      ensures q == p || At(d, q).name in names
    {
    }
  }

  /** The end of a block is the start of the next. */
  lemma {:induction false} ListedNext(d: Tab, names: set<string>, where: map<string, Place>, b: nat)
    requires BlocksOk(d) && Listed(d, names, where, Place(b, d.k))
    ensures Listed(d, names, where, Place(b + 1, 0))
  {
  }

  /** The slots of one directory block. */
  method ListBlock(d: Dir, b: nat, names0: set<string>, ghost where: map<string, Place>, ghost fill: nat)
    returns (d': Dir, names: set<string>)
    requires Laid(d, where, fill) && b < |d.tab.dblocks| && Listed(d.tab, names0, where, Place(b, 0))
    ensures Laid(d', where, fill) && d' == d.(cache := d'.cache, fcache_max := d'.fcache_max)
    ensures Listed(d.tab, names, where, Place(b + 1, 0))
  {
    d', names := d, names0;
    for s := 0 to d.tab.k
      invariant Laid(d', where, fill) && d' == d.(cache := d'.cache, fcache_max := d'.fcache_max)
      invariant Listed(d.tab, names, where, Place(b, s))
    {
      ListedStep(d.tab, names, where, Place(b, s));
      d', names := ListSlot(d', Place(b, s), names, where, fill);
    }
    ListedNext(d.tab, names, where, b);
  }

  /** cmsfs_readdir: the files on the blocks that the pointer tree leads to, while the cache fills up and may be emptied
      on the way. */
  method Readdir(d: Dir, ghost where: map<string, Place>, ghost fill: nat) returns (d': Dir, names: set<string>)
    requires Laid(d, where, fill)
    ensures Laid(d', where, fill) && d' == d.(cache := d'.cache, fcache_max := d'.fcache_max)
    ensures forall n {:trigger n in names} :: n in names <==> n in where && where[n].b < d.Seen()
    ensures names == where.Keys <==> d.Reached()
  {
    d', names := d, {};
    PowerPositive(d.ppb, d.dir_levels);
    for b := 0 to d.Seen()
      invariant Laid(d', where, fill) && d' == d.(cache := d'.cache, fcache_max := d'.fcache_max)
      invariant Listed(d.tab, names, where, Place(b, 0))
    {
      d', names := ListBlock(d', b, names, where, fill);
    }
    forall n | n in where && where[n].b < d.Seen()
      ensures n in names
    {
      assert At(d.tab, where[n]).name == n;
    }
    AllFoundIff(d, where, fill);
  }

  /** The directory of a mounted disk.  As long as the pointer tree leads to every block, a lookup gives what a walk
      gives; the operations say exactly when that stays so. */
  class Directory {
    var dir: Dir

    /** The place of every file, and the number of used slots of the last block. */
    ghost var where: map<string, Place>
    ghost var fill: nat

    ghost predicate Valid()
      reads this
    {
      DirOk(dir, where, fill)
    }

    constructor (dir: Dir, ghost where: map<string, Place>, ghost fill: nat)
      requires DirOk(dir, where, fill)
      ensures Valid() && this.dir == dir && this.where == where && this.fill == fill
    {
      this.dir, this.where, this.fill := dir, where, fill;
    }

    method LookupFile(name: string) returns (a: Option<Slot>)
      requires Valid()
      modifies this`dir
      ensures Valid() && dir.tab == old(dir.tab) && where == old(where)
      ensures a == if name in where then Some(AddrOf(dir.tab, where[name])) else None
    {
      var d;
      d, a := Lookup(dir, name, where, fill);
      dir := d;
    }

    method CreateFile(name: string, data: int) returns (existed: bool)
      requires Valid()
      modifies this
      ensures existed == (name in old(where))
      ensures Created(old(dir), dir, existed, name, data, old(where), where, old(fill), fill)
      ensures Valid() <==> (!existed && old(fill == dir.tab.k) ==> Reachable(old(dir.ppb), old(|dir.tab.dblocks|) + 1))
    {
      var d;
      ghost var w, f;
      d, existed, w, f := Create(dir, name, data, where, fill);
      dir, where, fill := d, w, f;
    }

    method DeleteFile(name: string) returns (existed: bool)
      requires Valid()
      modifies this
      ensures Laid(dir, where, fill) && existed == (name in old(where)) && where.Keys == old(where.Keys) - {name}
      ensures existed ==> MovedLast(old(where), where, name, LastPlace(old(dir.tab), old(fill)))
      ensures KeepsData(old(dir.tab), dir.tab, old(where), where) && DepthFollows(old(dir), dir)
      ensures Valid() <==> (existed && old(fill) == 1 ==> Reachable(old(dir.ppb), old(|dir.tab.dblocks|) - 1))
    {
      var d;
      ghost var w, f;
      d, existed, w, f := Delete(dir, name, where, fill);
      dir, where, fill := d, w, f;
    }

    method RenameFile(name: string, new_name: string) returns (existed: bool, written: bool)
      requires Valid()
      modifies this
      ensures Laid(dir, where, fill) && existed == (name in old(where))
      ensures written ==> existed && name != new_name
      ensures Valid() && existed && name != new_name ==> written
      ensures where.Keys == if !existed then old(where.Keys) else if written then old(where.Keys) - {name} + {new_name}
                            else old(where.Keys) - {new_name}
      ensures KeepsData(old(dir.tab), dir.tab, old(where), where - {new_name})
      ensures existed ==> OthersStay(old(where), where, new_name, LastPlace(old(dir.tab), old(fill)))
      ensures DepthFollows(old(dir), dir)
      ensures written ==> At(dir.tab, where[new_name]) == File(new_name, At(old(dir.tab), old(where)[name]).data)
      ensures Valid() <==> (existed && new_name in old(where) && old(fill) == 1
              ==> Reachable(old(dir.ppb), old(|dir.tab.dblocks|) - 1))
    {
      var d;
      ghost var w, f;
      d, existed, written, w, f := Rename(dir, name, new_name, where, fill);
      dir, where, fill := d, w, f;
    }
  }
}
