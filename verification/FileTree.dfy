/** A variable file with its pointer tree: appends that keep the tree in step with the block list, and
    opening a file from its directory entry alone. */
module FileTree {
  import opened Arith
  import opened RecordStream
  import opened Writer
  import opened VarFile
  import opened FileSize
  import opened PointerTree

  /** An open file, the pointer blocks of the disk, and root and depth of the file's own tree.  Blocks in
      use are the keys of the disk; what a pointer block holds is found in ptrs. */
  datatype Volume = Volume(file: Fields, ptrs: Blocks, fop: int, levels: nat) {
    function Disk(): Disk { file.out.disk }

    function Blist(): seq<Block> { file.out.blist }

    /** The pointer blocks of the file. */
    ghost function Meta(): set<int> { Nodes(ptrs, levels, fop) }

    /** The blocks in use that are not the file's. */
    ghost function Foreign(): set<int> { Disk().Keys - Own(Blist()) - Meta() }
  }

  /** The tree shows the file's blocks, with their record numbers as far as it reaches all of them. */
  ghost predicate Shows(ppb: nat, v: Volume, shown: seq<Block>)
    requires 0 < ppb
  {
    && SameBlocks(v.Blist(), shown) && (|shown| <= Power(ppb, v.levels) ==> shown == v.Blist())
    && LeastLevels(ppb, |shown|, v.levels)
    && Rooted(ppb, v.ptrs, shown, v.levels, v.fop)
  }

  ghost predicate VolumeOk(ppb: nat, blksize: nat, lf: bool, v: Volume, f: seq<byte>, rs: seq<Record>,
                           shown: seq<Block>) {
    && 2 <= ppb && FileOk(blksize, lf, v.file, f, rs)
    && Shows(ppb, v, shown)
    && v.Meta() <= v.Disk().Keys - Own(v.Blist())
  }

  // ----- what the blocks of a file depend on -----------------------------------------------------

  lemma {:induction false} OwnHas(blist: seq<Block>, b: nat)
    requires b < |blist|
    ensures blist[b].disk_addr in Own(blist)
  {
    if b < |blist| - 1 {
      OwnHas(blist[..|blist| - 1], b);
    }
  }

  lemma {:induction false} OnDiskFrame(disk: Disk, disk': Disk, g: Geo, f: seq<byte>, n: nat, own: set<int>)
    requires n <= |g.addrs| && OnDiskTo(disk, g, f, n)
    requires forall b :: 0 <= b < n ==> g.addrs[b] in own
    requires forall a :: a in own && a in disk ==> a in disk' && disk'[a] == disk[a]
    ensures OnDiskTo(disk', g, f, n)
  {
    if n != 0 {
      OnDiskFrame(disk, disk', g, f, n - 1, own);
    }
  }

  /** disk' has the blocks of s as disk has them. */
  ghost predicate SameData(disk: Disk, disk': Disk, s: set<int>) {
    forall a :: a in s && a in disk ==> a in disk' && disk'[a] == disk[a]
  }

  lemma {:induction false} FileFrame(blksize: nat, lf: bool, s: Fields, disk': Disk, f: seq<byte>, rs: seq<Record>)
    requires FileOk(blksize, lf, s, f, rs) && 0 !in disk' && SameData(s.out.disk, disk', Own(s.out.blist))
    ensures FileOk(blksize, lf, s.(out := s.out.(disk := disk')), f, rs)
  {
    var bl := s.out.blist;
    var g := GeoOf(blksize, lf, bl);
    forall b | 0 <= b < |bl|
      ensures g.addrs[b] in Own(bl)
    {
      AddrsAt(bl, b);
      OwnHas(bl, b);
    }
    OnDiskFrame(s.out.disk, disk', g, f, |bl|, Own(bl));
  }

  lemma {:induction false} FileNoNull(blksize: nat, lf: bool, s: Fields, f: seq<byte>, rs: seq<Record>)
    requires FileOk(blksize, lf, s, f, rs)
    ensures NoNull(s.out.blist)
  {
    var g := GeoOf(blksize, lf, s.out.blist);
    AddrsNonZero(s.out.disk, g, f);
    forall b | 0 <= b < |s.out.blist|
      ensures s.out.blist[b].disk_addr != 0
    {
      AddrsAt(s.out.blist, b);
    }
  }

  /** The data blocks of a file are allocated. */
  lemma {:induction false} OwnOnDisk(disk: Disk, g: Geo, f: seq<byte>, blist: seq<Block>, n: nat)
    requires n <= |blist| && g.addrs == Addrs(blist) && OnDiskTo(disk, g, f, n)
    ensures Own(blist[..n]) <= disk.Keys
  {
    if n != 0 {
      OwnOnDisk(disk, g, f, blist, n - 1);
      AddrsAt(blist, n - 1);
      assert blist[..n][..n - 1] == blist[..n - 1];
    }
  }

  // ----- block numbers and displacements after an append that took no block ------------------------

  lemma {:induction false} DispUnique(blksize: nat, rs: seq<Record>, b: nat, d: int, d': int)
    requires DispOk(blksize, rs, b, d) && DispOk(blksize, rs, b, d') && Times(b, blksize) < Pos(rs, |rs|)
    ensures d == d'
  {
    var k := RecordAt(rs, Times(b, blksize), |rs|);
    if Pos(rs, k) == Times(b, blksize) {
      assert StartsAt(rs, k, Times(b, blksize));
    } else {
      assert Spans(rs, k, Times(b, blksize));
    }
  }

  /** Block b ends before the last record does: a further record does not change its record number. */
  lemma {:induction false} HiAppend(blksize: nat, rs: seq<Record>, r: Record, b: nat, hi: int)
    requires HiOk(blksize, rs, b, hi) && Times(b + 1, blksize) <= Pos(rs, |rs|)
    ensures HiOk(blksize, rs + [r], b, hi)
  {
    PosPrefix(rs, [r], hi);
    if 0 < hi {
      PosPrefix(rs, [r], hi - 1);
    }
  }

  /** The last block knows all records. */
  lemma {:induction false} HiLast(blksize: nat, rs: seq<Record>, nb: nat, hi: int)
    requires 0 < nb && Tight(blksize, nb, Pos(rs, |rs|)) && HiOk(blksize, rs, nb - 1, hi)
    ensures hi == |rs|
  {
    if hi < |rs| {
      PosMono(rs, hi, |rs|);
    }
  }

  /** An append that stays on the last block changes its record number and nothing else in the list. */
  lemma {:induction false} SameListButLast(blksize: nat, lf: bool, s: Fields, s': Fields, f: seq<byte>, f': seq<byte>,
                                           rs: seq<Record>, r: Record)
    requires FileOk(blksize, lf, s, f, rs) && FileOk(blksize, lf, s', f', rs + [r]) && Kept(s.out, s'.out)
    requires |s.out.blist| == |s'.out.blist|
    ensures 0 < |s.out.blist| && s'.out.blist == SetHi(s.out.blist, |s.out.blist| - 1, |rs| + 1)
  {
    var bl, bl', rs' := s.out.blist, s'.out.blist, rs + [r];
    PosPrefix(rs, [r], |rs|);
    var want := SetHi(bl, |bl| - 1, |rs| + 1);
    forall b | 0 <= b < |bl|
      ensures bl'[b] == want[b]
    {
      AddrsAt(bl, b);
      AddrsAt(bl', b);
      DispsAt(blksize, rs, bl, |bl|, b);
      DispsAt(blksize, rs', bl', |bl|, b);
      HisOkAt(blksize, rs, bl, |bl|, b);
      HisOkAt(blksize, rs', bl', |bl|, b);
      TimesMono(b, |bl| - 1, blksize);
      DispAppend(blksize, rs, r, b, bl[b].disp);
      DispUnique(blksize, rs', b, bl[b].disp, bl'[b].disp);
      if b == |bl| - 1 {
        HiLast(blksize, rs', |bl|, bl'[b].hi_record_nr);
      } else {
        TimesMono(b + 1, |bl| - 1, blksize);
        HiAppend(blksize, rs, r, b, bl[b].hi_record_nr);
        HiUnique(blksize, rs', b, bl[b].hi_record_nr, bl'[b].hi_record_nr);
      }
    }
  }

  // ----- appending ---------------------------------------------------------------------------------

  /** A step of this file: no block outside the file is taken, freed or written, and none is leaked. */
  ghost predicate Isolated(v: Volume, v': Volume) {
    && v'.Foreign() == v.Foreign()
    && SameData(v.Disk(), v'.Disk(), v.Foreign()) && Agree(v.ptrs, v'.ptrs, v.Foreign())
  }

  /** The disk with exactly the blocks of used; new ones hold pointers, not data. */
  function Refit(disk: Disk, used: set<int>): Disk {
    map a | a in used :: if a in disk then disk[a] else []
  }

  /** After the data has been appended. */
  lemma {:induction false} AppendIsolated(v: Volume, s: Fields)
    requires Kept(v.file.out, s.out) && v.Meta() <= v.Disk().Keys - Own(v.Blist())
    ensures var v1 := v.(file := s); Isolated(v, v1) && v1.Meta() <= v1.Disk().Keys - Own(v1.Blist())
  {
    var v1 := v.(file := s);
    var own, own' := Own(v.Blist()), Own(s.out.blist);
    assert forall a :: a in s.out.disk && a !in own' ==> a in (v.Disk() - own');
    assert forall a :: a in v.Disk() && a !in own' ==> a in (s.out.disk - own');
    forall a | a in v.Foreign()
      ensures a in s.out.disk && s.out.disk[a] == v.Disk()[a]
    {
      assert a !in own';
      assert (s.out.disk - own')[a] == (v.Disk() - own')[a];
    }
  }

  lemma {:induction false} IsolatedTrans(v: Volume, v1: Volume, v2: Volume)
    requires Isolated(v, v1) && Isolated(v1, v2)
    ensures Isolated(v, v2)
  {
  }

  /** New blocks: the old tree goes, a new one is written. */
  method ReplaceTree(ppb: nat, blksize: nat, v: Volume, ghost lf: bool, ghost f: seq<byte>, ghost rs: seq<Record>,
                     ghost shown: seq<Block>)
    returns (v': Volume)
    requires 2 <= ppb && FileOk(blksize, lf, v.file, f, rs)
    requires Rooted(ppb, v.ptrs, shown, v.levels, v.fop) && v.Meta() <= v.Disk().Keys - Own(v.Blist())
    ensures VolumeOk(ppb, blksize, lf, v', f, rs, v.Blist()) && v'.Blist() == v.Blist() && Isolated(v, v')
    ensures v'.file == v.file.(out := v'.file.out)
  {
    FileNoNull(blksize, lf, v.file, f, rs);
    var levels := UpdateLevels(ppb, |v.Blist()|);
    var m := DeletePointers(ppb, PointerTree.Meta(v.ptrs, v.Disk().Keys), v.levels, v.fop, shown);
    var m', fop := RewritePointers(ppb, v.Blist(), m, levels);
    var disk := Refit(v.Disk(), m'.used);
    v' := Volume(v.file.(out := v.file.out.(disk := disk)), m'.ptrs, fop, levels);
    Replaced(blksize, lf, v, v', m, m', f, rs);
  }

  /** Old tree freed, new tree written: data blocks and foreign blocks are as they were. */
  lemma {:induction false} Replaced(blksize: nat, lf: bool, v: Volume, v': Volume, m: PointerTree.Meta,
                                    m': PointerTree.Meta, f: seq<byte>, rs: seq<Record>)
    requires FileOk(blksize, lf, v.file, f, rs) && v.Meta() <= v.Disk().Keys - Own(v.Blist())
    requires m.ptrs == v.ptrs && m.used == v.Disk().Keys - v.Meta()
    requires m.used <= m'.used && Agree(m.ptrs, m'.ptrs, m.used) && (0 in m'.used ==> 0 in m.used)
    requires v'.file == v.file.(out := v.file.out.(disk := Refit(v.Disk(), m'.used))) && v'.ptrs == m'.ptrs
    requires v'.Meta() == m'.used - m.used
    ensures FileOk(blksize, lf, v'.file, f, rs) && v'.Meta() <= v'.Disk().Keys - Own(v'.Blist()) && Isolated(v, v')
  {
    assert Own(v.Blist()) <= v.Disk().Keys by {
      OwnOnDisk(v.Disk(), GeoOf(blksize, lf, v.Blist()), f, v.Blist(), |v.Blist()|);
      assert v.Blist()[..|v.Blist()|] == v.Blist();
    }
    assert v'.Disk().Keys == m'.used;
    FileFrame(blksize, lf, v.file, v'.Disk(), f, rs);
  }

  /** No new block: the record numbers in the last entries follow. */
  method TouchTree(ppb: nat, v: Volume, nr_records: int, ghost shown: seq<Block>)
    returns (v': Volume, ghost shown': seq<Block>)
    requires 2 <= ppb && 0 < |shown| && LeastLevels(ppb, |shown|, v.levels)
             && Rooted(ppb, v.ptrs, shown, v.levels, v.fop)
    ensures v' == v.(ptrs := v'.ptrs) && Rooted(ppb, v'.ptrs, shown', v.levels, v.fop)
    ensures shown' == SetHi(shown, Min(|shown|, Power(ppb, v.levels)) - 1, nr_records)
    ensures v'.Meta() == v.Meta() && OnlyIn(v.ptrs, v'.ptrs, v.Meta())
  {
    v' := v;
    PowerPositive(ppb, v.levels);
    shown' := SetHi(shown, Min(|shown|, Power(ppb, v.levels)) - 1, nr_records);
    if v.levels > 0 {
      FirstIsPower(ppb, v.levels, ppb);
      var ps := UpdateLast(ppb, v.ptrs, v.levels, v.fop, nr_records, shown, 0);
      v' := v.(ptrs := ps);
    }
  }

  /** An append without a new block, its tree touched. */
  lemma {:induction false} TouchedOk(ppb: nat, blksize: nat, lf: bool, v: Volume, v1: Volume, v': Volume, f: seq<byte>,
                                     f': seq<byte>,
                                     rs: seq<Record>, r: Record, shown: seq<Block>, shown': seq<Block>)
    requires VolumeOk(ppb, blksize, lf, v, f, rs, shown) && FileOk(blksize, lf, v1.file, f', rs + [r])
    requires v1 == v.(file := v1.file) && Isolated(v, v1) && v1.Meta() <= v1.Disk().Keys - Own(v1.Blist())
    requires 0 < |shown| && v1.Blist() == SetHi(v.Blist(), |v.Blist()| - 1, |rs| + 1)
    requires v' == v1.(ptrs := v'.ptrs) && Rooted(ppb, v'.ptrs, shown', v1.levels, v1.fop)
    requires 0 < Power(ppb, v.levels) && shown' == SetHi(shown, Min(|shown|, Power(ppb, v.levels)) - 1, |rs| + 1)
    requires v'.Meta() == v1.Meta() && OnlyIn(v1.ptrs, v'.ptrs, v1.Meta())
    ensures VolumeOk(ppb, blksize, lf, v', f', rs + [r], shown') && Isolated(v, v')
  {
    assert Shows(ppb, v', shown');
    assert Isolated(v1, v');
    IsolatedTrans(v, v1, v');
  }

  /** do_write with its pointers: one more record, the tree in step, nothing else on the disk touched. */
  method Append(ppb: nat, blksize: nat, linefeed: bool, v: Volume, buf: seq<byte>,
                ghost f: seq<byte>, ghost rs: seq<Record>, ghost r: Record, ghost shown: seq<Block>)
    returns (v': Volume, ghost f': seq<byte>, ghost shown': seq<Block>)
    requires VolumeOk(ppb, blksize, linefeed, v, f, rs, shown) && buf == r
    ensures VolumeOk(ppb, blksize, linefeed, v', f', rs + [r], shown') && Isolated(v, v')
    ensures v'.file.record_len == Max(v.file.record_len, |buf|)
  {
    var s;
    s, f' := DoWrite(blksize, linefeed, v.file, buf, f, rs, r);
    AppendIsolated(v, s);
    var v1 := v.(file := s);
    if |s.out.blist| != |v.Blist()| {
      v' := ReplaceTree(ppb, blksize, v1, linefeed, f', rs + [r], shown);
      shown' := v'.Blist();
      IsolatedTrans(v, v1, v');
    } else {
      SameListButLast(blksize, linefeed, v.file, s, f, f', rs, r);
      v', shown' := TouchTree(ppb, v1, s.nr_records, shown);
      PowerPositive(ppb, v.levels);
      TouchedOk(ppb, blksize, linefeed, v, v1, v', f, f', rs, r, shown, shown');
    }
  }

  // ----- from the directory entry --------------------------------------------------------------------

  /** What a directory entry says about its file. */
  datatype Fst = Fst(fop: int, levels: nat, nr_blocks: nat, nr_records: nat, record_len: int)

  /** The directory entry leads to a file with the blocks bl and the records rs. */
  ghost predicate Listed(ppb: nat, blksize: nat, disk: Disk, ptrs: Blocks, e: Fst, bl: seq<Block>, f: seq<byte>,
                         rs: seq<Record>) {
    && 2 <= ppb && e.nr_blocks == |bl| && LeastLevels(ppb, |bl|, e.levels) && Rooted(ppb, ptrs, bl, e.levels, e.fop)
    && Nodes(ptrs, e.levels, e.fop) <= disk.Keys - Own(bl)
    && OnDiskFile(disk, blksize, bl, e.nr_records, e.record_len, f, rs) && HisOk(blksize, rs, bl, |bl|)
  }

  /** update_fst: the entry a file leaves behind. */
  function Entry(v: Volume): Fst
    requires 0 <= v.file.nr_records
  {
    Fst(v.fop, v.levels, |v.Blist()|, v.file.nr_records, v.file.record_len)
  }

  lemma {:induction false} EntryListed(ppb: nat, blksize: nat, lf: bool, v: Volume, f: seq<byte>, rs: seq<Record>,
                                       shown: seq<Block>)
    requires VolumeOk(ppb, blksize, lf, v, f, rs, shown) && |v.Blist()| <= Power(ppb, v.levels)
    ensures Listed(ppb, blksize, v.Disk(), v.ptrs, Entry(v), v.Blist(), f, rs)
  {
    FileIsOnDisk(blksize, lf, v.file, f, rs);
  }

  /** The first block of a file starts with a header. */
  lemma {:induction false} FirstDisp(blksize: nat, rs: seq<Record>, bl: seq<Block>)
    requires 0 < |bl| && DispsOk(blksize, rs, bl, |bl|)
    ensures bl[0].disp == 0
  {
    DispsAt(blksize, rs, bl, |bl|, 0);
    assert DispOk(blksize, rs, 0, bl[0].disp);
    assert StartsAt(rs, 0, Times(0, blksize));
  }

  lemma {:induction false} OneBlock(blksize: nat, rs: seq<Record>, nb: nat)
    requires Tight(blksize, nb, Pos(rs, |rs|))
    ensures nb == 0 <==> |rs| == 0
  {
    PosMono(rs, 0, |rs|);
  }

  /** get_file_size_logical from the directory entry: down the back pointers to the last block, whose used
      bytes give the size.  An entry whose tree does not reach the last record is an I/O error. */
  method SizeOf(ppb: nat, blksize: nat, linefeed: bool, disk: Disk, ptrs: Blocks, e: Fst,
                ghost bl: seq<Block>, ghost f: seq<byte>, ghost rs: seq<Record>)
    returns (ok: bool, size: int)
    requires Listed(ppb, blksize, disk, ptrs, e, bl, f, rs) && |bl| <= Power(ppb, e.levels)
    ensures ok && size == FileStart(rs, |rs|, if linefeed then 1 else 0)
  {
    ghost var g := GeoOf(blksize, linefeed, bl);
    LinefeedFree(disk, blksize, linefeed, bl, f, |bl|);
    OneBlock(blksize, rs, |bl|);
    if e.nr_records == 0 {
      return true, 0;
    }
    AddrsNonZero(disk, GeoOf(blksize, false, bl), f);
    AddrsAt(bl, |bl| - 1);
    DispsAt(blksize, rs, bl, |bl|, |bl| - 1);
    HisOkAt(blksize, rs, bl, |bl|, |bl| - 1);
    HiLast(blksize, rs, |bl|, bl[|bl| - 1].hi_record_nr);
    var last, disp := e.fop, 0;
    if e.levels > 0 {
      FirstIsPower(ppb, e.levels, ppb);
      var vptr;
      ok, vptr := LocateLast(ppb, ptrs, e.levels, e.fop, e.nr_records, bl, 0);
      if !ok {
        return;
      }
      last, disp := vptr.next, vptr.disp;
    } else {
      FirstDisp(blksize, rs, bl);
    }
    size := FileSizeLogical(disk, blksize, linefeed, e.nr_records, e.nr_blocks, last, disp, g, f, rs);
    ok := true;
  }

  /** Opening a file: the tree is walked, the blocks are scanned, and the open file is the one that left the entry. */
  method OpenEntry(ppb: nat, blksize: nat, linefeed: bool, disk: Disk, ptrs: Blocks, e: Fst,
                   ghost bl: seq<Block>, ghost f: seq<byte>, ghost rs: seq<Record>)
    returns (v: Volume)
    requires Listed(ppb, blksize, disk, ptrs, e, bl, f, rs) && |bl| <= Power(ppb, e.levels)
    ensures VolumeOk(ppb, blksize, linefeed, v, f, rs, bl)
    ensures v.Disk() == disk && v.ptrs == ptrs && Entry(v) == e
  {
    if 0 < |bl| {
      FirstDisp(blksize, rs, bl);
    }
    var found := ReadPointers(ppb, ptrs, e.levels, e.fop, e.nr_blocks, bl);
    SameAddrs(bl, found);
    DispsSame(blksize, rs, bl, found, |bl|);
    var ok, size := SizeOf(ppb, blksize, linefeed, disk, ptrs, e, bl, f, rs);
    var s := Open(disk, blksize, linefeed, found, e.nr_records, e.record_len, size, f, rs);
    ListUnique(blksize, rs, bl, s.out.blist);
    v := Volume(s, ptrs, e.fop, e.levels);
  }

  // ----- deleting a file -------------------------------------------------------------------------------

  lemma {:induction false} OwnNot(bl: seq<Block>, x: int)
    requires forall b :: 0 <= b < |bl| ==> bl[b].disk_addr != x
    ensures x !in Own(bl)
  {
    if bl != [] {
      OwnNot(bl[..|bl| - 1], x);
    }
  }

  /** Own of the first n blocks and one more, which is none of them. */
  lemma {:induction false} OwnNext(bl: seq<Block>, n: nat)
    requires n < |bl| && Distinct(Addrs(bl), |bl|)
    ensures Own(bl[..n + 1]) == Own(bl[..n]) + {bl[n].disk_addr} && bl[n].disk_addr !in Own(bl[..n])
  {
    assert bl[..n + 1][..n] == bl[..n];
    forall b | 0 <= b < n
      ensures bl[..n][b].disk_addr != bl[n].disk_addr
    {
      DistinctAt(Addrs(bl), |bl|, b, n);
      AddrsAt(bl, b);
      AddrsAt(bl, n);
    }
    OwnNot(bl[..n], bl[n].disk_addr);
  }

  lemma {:induction false} OwnPrefix(bl: seq<Block>, n: nat)
    requires n <= |bl|
    ensures Own(bl[..n]) <= Own(bl)
  {
    if n < |bl| {
      assert bl[..|bl| - 1][..n] == bl[..n];
      OwnPrefix(bl[..|bl| - 1], n);
    } else {
      assert bl[..n] == bl;
    }
  }

  /** The first part of delete_file: every data block that the tree leads to is freed once, then every pointer block.
      The block list has no address for blocks that the tree does not lead to, and address 0 is not freed. */
  method DeleteBlocks(ppb: nat, m: PointerTree.Meta, e: Fst, ghost bl: seq<Block>) returns (m': PointerTree.Meta)
    requires 0 < ppb && Rooted(ppb, m.ptrs, bl, e.levels, e.fop) && e.nr_blocks == |bl|
             && (0 < |bl| ==> bl[0].disp == 0)
    requires NoNull(bl) && Distinct(Addrs(bl), |bl|)
    requires Own(bl) <= m.used && Nodes(m.ptrs, e.levels, e.fop) <= m.used - Own(bl)
    ensures m'.used == m.used - Own(bl[..Min(|bl|, Power(ppb, e.levels))]) - Nodes(m.ptrs, e.levels, e.fop)
  {
    m' := m;
    var found := ReadPointers(ppb, m.ptrs, e.levels, e.fop, e.nr_blocks, bl);
    ghost var n := |found|;
    for i := 0 to e.nr_blocks
      invariant m'.ptrs == m.ptrs && m'.used == m.used - Own(bl[..Min(i, n)])
    {
      var addr := if i < |found| then found[i].disk_addr else 0;
      if addr != 0 {
        OwnNext(bl, i);
        OwnPrefix(bl, i + 1);
        m' := FreeBlock(m', addr);
      }
    }
    OwnPrefix(bl, n);
    m' := DeletePointers(ppb, m', e.levels, e.fop, bl);
  }

  /** delete_file gives back exactly the data and pointer blocks of the file, and no other, if and only if its tree
      leads to all its blocks. */
  method DeleteFile(ppb: nat, blksize: nat, v: Volume, ghost lf: bool, ghost f: seq<byte>, ghost rs: seq<Record>,
                    ghost shown: seq<Block>)
    returns (used: set<int>)
    requires VolumeOk(ppb, blksize, lf, v, f, rs, shown)
    ensures v.Foreign() <= used <= v.Disk().Keys
    ensures used == v.Foreign() <==> Reachable(ppb, |v.Blist()|)
  {
    TreePrepared(ppb, blksize, lf, v, f, rs, shown);
    var m := DeleteBlocks(ppb, PointerTree.Meta(v.ptrs, v.Disk().Keys), Entry(v), shown);
    used := m.used;
    ghost var n := Min(|shown|, Power(ppb, v.levels));
    OwnPrefix(shown, n);
    ReachesAllIff(ppb, |shown|, v.levels);
    if n < |shown| {
      OwnNext(shown, n);
      OwnPrefix(shown, n + 1);
      assert shown[n].disk_addr in used;
    } else {
      assert shown[..n] == shown;
    }
  }

  lemma {:induction false} TreePrepared(ppb: nat, blksize: nat, lf: bool, v: Volume, f: seq<byte>, rs: seq<Record>,
                                        shown: seq<Block>)
    requires VolumeOk(ppb, blksize, lf, v, f, rs, shown)
    ensures 0 <= v.file.nr_records && NoNull(shown) && Distinct(Addrs(shown), |shown|)
            && (0 < |shown| ==> shown[0].disp == 0)
    ensures Own(shown) == Own(v.Blist()) && Own(shown) <= v.Disk().Keys && v.Meta() <= v.Disk().Keys - Own(shown)
  {
    SameAddrs(v.Blist(), shown);
    OwnIs(v.Blist(), shown);
    FileNoNull(blksize, lf, v.file, f, rs);
    if 0 < |shown| {
      FirstDisp(blksize, rs, v.Blist());
    }
    OwnOnDisk(v.Disk(), GeoOf(blksize, lf, v.Blist()), f, v.Blist(), |v.Blist()|);
    assert v.Blist()[..|v.Blist()|] == v.Blist();
  }

  // ----- a tree that is a level short ------------------------------------------------------------------

  /** A block is marked with the last record exactly when that record begins in front of its end. */
  lemma {:induction false} LastKnown(blksize: nat, bl: seq<Block>, rs: seq<Record>, n: nat)
    requires 0 < n <= |bl| && HisOk(blksize, rs, bl, |bl|) && Tight(blksize, |bl|, Pos(rs, |rs|))
    ensures 0 < |rs| && (bl[n - 1].hi_record_nr == |rs| <==> Pos(rs, |rs| - 1) < Times(n, blksize))
  {
    PosMono(rs, 0, |rs|);
    HisOkAt(blksize, rs, bl, |bl|, n - 1);
    var hi := bl[n - 1].hi_record_nr;
    if hi < |rs| {
      PosMono(rs, hi, |rs| - 1);
    }
  }

  /** What opening a file gives when update_levels has left its tree a level short.  The walk finds as many blocks
      as the tree reaches and no more.  The size check then ends in an I/O error unless the last of them is marked
      with the number of the last record; in a tree just written that is so exactly when the last record begins on
      such a block. */
  method OpenInGap(ppb: nat, blksize: nat, v: Volume, ghost lf: bool, ghost f: seq<byte>, ghost rs: seq<Record>,
                   ghost shown: seq<Block>)
    returns (found: seq<Block>, ok: bool)
    requires VolumeOk(ppb, blksize, lf, v, f, rs, shown) && !Reachable(ppb, |v.Blist()|)
    ensures 0 < |found| == Power(ppb, v.levels) < |v.Blist()| && PointerTree.Found(v.Blist(), found, |found|)
    ensures ok <==> shown[|found| - 1].hi_record_nr == |rs|
    ensures 0 < |rs| && (shown == v.Blist() ==> (ok <==> Pos(rs, |rs| - 1) < Times(|found|, blksize)))
  {
    ReachesAllIff(ppb, |shown|, v.levels);
    PowerPositive(ppb, v.levels);
    TreePrepared(ppb, blksize, lf, v, f, rs, shown);
    found := ReadPointers(ppb, v.ptrs, v.levels, v.fop, |v.Blist()|, shown);
    FirstIsPower(ppb, v.levels, ppb);
    var vptr;
    ok, vptr := LocateLast(ppb, v.ptrs, v.levels, v.fop, v.file.nr_records, shown, 0);
    LastKnown(blksize, v.Blist(), rs, |found|);
  }
}
