/** The record writer: an append lays one record, header first, behind the end of the
    file, block by block, with a state machine that carries a half-written header or
    record from one block to the next. */
module Writer {
  import opened Arith
  import opened RecordStream

  datatype Block = Block(disk_addr: int, disp: int, hi_record_nr: int)

  datatype BlockState = BlockNotInit | BlockNew | BlockUsed
  datatype RecordState = RecHeaderStarted | RecHeaderComplete | RecIncomplete | RecComplete

  /** Disk, block list, write pointer and write state of an open file. */
  datatype Out = Out(disk: Disk, blist: seq<Block>, write_ptr: Addr, block_state: BlockState, block_free: int,
                     var_record_state: RecordState, var_record_len: int)

  ghost function Addrs(blist: seq<Block>): (a: seq<int>)
    ensures |a| == |blist|
  {
    if blist == [] then [] else Addrs(blist[..|blist| - 1]) + [blist[|blist| - 1].disk_addr]
  }

  lemma {:induction false} AddrsAt(blist: seq<Block>, b: nat)
    requires b < |blist|
    ensures Addrs(blist)[b] == blist[b].disk_addr
  {
    if b < |blist| - 1 {
      AddrsAt(blist[..|blist| - 1], b);
    }
  }

  ghost function His(blist: seq<Block>): (h: seq<int>)
    ensures |h| == |blist|
  {
    if blist == [] then [] else His(blist[..|blist| - 1]) + [blist[|blist| - 1].hi_record_nr]
  }

  lemma {:induction false} HisAt(blist: seq<Block>, b: nat)
    requires b < |blist|
    ensures His(blist)[b] == blist[b].hi_record_nr
  {
    if b < |blist| - 1 {
      HisAt(blist[..|blist| - 1], b);
    }
  }

  ghost function GeoOf(blksize: nat, linefeed: bool, blist: seq<Block>): Geo {
    Geo(blksize, Addrs(blist), linefeed)
  }

  ghost predicate Apart(a: seq<int>, n: int)
    requires n < |a|
  {
    forall i :: 0 <= i < n ==> a[i] != a[n]
  }

  /** No two of the first n are the same. */
  ghost predicate Distinct(a: seq<int>, n: nat)
    requires n <= |a|
  {
    n == 0 || (Distinct(a, n - 1) && Apart(a, n - 1))
  }

  lemma {:induction false} DistinctAt(a: seq<int>, n: nat, b: nat, c: nat)
    requires n <= |a| && Distinct(a, n) && b < c < n
    ensures a[b] != a[c]
  {
    if c < n - 1 {
      DistinctAt(a, n - 1, b, c);
    }
  }

  lemma {:induction false} DistinctPrefix(a: seq<int>, a': seq<int>, n: nat)
    requires n <= |a| && n <= |a'| && Distinct(a, n) && forall i :: 0 <= i < n ==> a'[i] == a[i]
    ensures Distinct(a', n)
  {
    if n != 0 {
      DistinctPrefix(a, a', n - 1);
    }
  }

  /** f is what the file's blocks, all different, hold: the given bytes, then zeros. */
  ghost predicate Stored(disk: Disk, g: Geo, f: seq<byte>, data: seq<byte>) {
    && g.Valid() && 0 !in disk
    && OnDisk(disk, g, f) && Filled(f, data)
    && Distinct(g.addrs, |g.addrs|)
  }

  // ----- writing bytes ----------------------------------------------------------------

  /** s with x written at index i. */
  function Put(s: seq<byte>, i: int, x: seq<byte>): (r: seq<byte>)
    ensures |r| == |s|
  {
    seq(|s|, j requires 0 <= j < |s| => if i <= j < i + |x| then x[j - i] else s[j])
  }

  /** n elements of s from index i on. */
  function Slice(s: seq<byte>, i: nat, n: nat): (r: seq<byte>)
    requires i + n <= |s|
    ensures |r| == n
  {
    seq(n, j requires 0 <= j < n => s[i + j])
  }

  function WriteAt(disk: Disk, a: Addr, x: seq<byte>): Disk {
    if a.blk in disk then disk[a.blk := Put(disk[a.blk], a.off, x)] else disk
  }

  lemma {:induction false} PutFilled(f: seq<byte>, data: seq<byte>, x: seq<byte>)
    requires Filled(f, data) && |data| + |x| <= |f|
    ensures Filled(Put(f, |data|, x), data + x)
  {
  }

  /** Writing at p or later leaves the blocks before p as they are. */
  lemma {:induction false} WriteBefore(disk: Disk, disk': Disk, g: Geo, f: seq<byte>, p: nat, x: seq<byte>, last: int,
                                       n: nat)
    requires n <= |g.addrs| && OnDiskTo(disk, g, f, n)
    requires Times(n, g.blksize) <= p && p + |x| <= |f|
    requires last in disk' && disk' == disk[last := disk'[last]]
    requires forall i :: 0 <= i < n ==> g.addrs[i] != last
    ensures OnDiskTo(disk', g, Put(f, p, x), n)
  {
    if n != 0 {
      WriteBefore(disk, disk', g, f, p, x, last, n - 1);
    }
  }

  /** Writing behind the data, inside the last block, extends the data and nothing else. */
  lemma {:induction false} WriteStored(disk: Disk, g: Geo, f: seq<byte>, data: seq<byte>, off: nat, x: seq<byte>)
    requires Stored(disk, g, f, data) && 0 < |g.addrs|
    requires |data| == Times(|g.addrs| - 1, g.blksize) + off && off + |x| <= g.blksize
    ensures Stored(WriteAt(disk, Addr(g.addrs[|g.addrs| - 1], off), x), g, Put(f, |data|, x), data + x)
  {
    var n := |g.addrs| - 1;
    var last := g.addrs[n];
    assert BlockIs(disk, last, f, Times(n, g.blksize), g.blksize);
    var disk' := WriteAt(disk, Addr(last, off), x);
    PutFilled(f, data, x);
    WriteBefore(disk, disk', g, f, |data|, x, last, n);
  }

  lemma {:induction false} GrowBefore(disk: Disk, disk': Disk, g: Geo, g': Geo, f: seq<byte>, a: int, zero: seq<byte>,
                                      n: nat)
    requires n <= |g.addrs| && OnDiskTo(disk, g, f, n)
    requires g' == g.(addrs := g.addrs + [a]) && a !in disk && disk' == disk[a := zero]
    ensures OnDiskTo(disk', g', f + zero, n)
    ensures forall i :: 0 <= i < n ==> g.addrs[i] != a
  {
    if n != 0 {
      GrowBefore(disk, disk', g, g', f, a, zero, n - 1);
    }
  }

  /** A fresh zero block at the end of the file. */
  lemma {:induction false} GrowStored(disk: Disk, g: Geo, f: seq<byte>, data: seq<byte>, a: int)
    requires Stored(disk, g, f, data) && a !in disk && a != 0
    ensures Stored(disk[a := Zeros(g.blksize)], g.(addrs := g.addrs + [a]), f + Zeros(g.blksize), data)
  {
    var g' := g.(addrs := g.addrs + [a]);
    GrowBefore(disk, disk[a := Zeros(g.blksize)], g, g', f, a, Zeros(g.blksize), |g.addrs|);
    DistinctPrefix(g.addrs, g'.addrs, |g.addrs|);
  }

  // ----- where the writer stands --------------------------------------------------------

  ghost function Bytes(r: Record): seq<byte> {
    Header(|r|) + r
  }

  /** The stream with the first c bytes of one more record. */
  ghost function Sofar(rs: seq<Record>, r: Record, c: nat): (s: seq<byte>)
    requires c <= |r| + 2
    ensures |s| == Pos(rs, |rs|) + c
  {
    StreamLen(rs);
    var n := |Stream(rs)|;
    seq(n + c, p requires 0 <= p < n + c => if p < n then Stream(rs)[p] else Bytes(r)[p - n])
  }

  /** The record state machine after c bytes of a record of n bytes. */
  ghost predicate RecStateOk(o: Out, n: int, c: int) {
    if c == 0 || c == n + 2 then o.var_record_state == RecComplete && o.var_record_len == 0
    else if c == 1 then o.var_record_state == RecHeaderStarted && o.var_record_len == n
    else if c == 2 then o.var_record_state == RecHeaderComplete && o.var_record_len == n
    else o.var_record_state == RecIncomplete && o.var_record_len == n - (c - 2)
  }

  /** write_ptr and block_free for w bytes stored on the blocks of the file. */
  ghost predicate PtrOk(blksize: nat, o: Out, w: nat) {
    var nb := |o.blist|;
    if nb == 0 then w == 0 && o.write_ptr == NULL_ADDR else
      && Times(nb - 1, blksize) <= w <= Times(nb, blksize)
      && o.write_ptr == Addr(o.blist[nb - 1].disk_addr, w - Times(nb - 1, blksize))
      && (o.block_state != BlockNotInit ==> o.block_free == Times(nb, blksize) - w)
  }

  ghost predicate DispsOk(blksize: nat, rs: seq<Record>, blist: seq<Block>, nb: nat)
    requires nb <= |blist|
  {
    nb == 0 || (DispsOk(blksize, rs, blist, nb - 1) && DispOk(blksize, rs, nb - 1, blist[nb - 1].disp))
  }

  /** c bytes of record r are written behind the records rs; f is the file content.  Write state
      and displacements go with it; only a new block has no displacement yet. */
  ghost predicate Writing(blksize: nat, lf: bool, o: Out, f: seq<byte>, rs: seq<Record>, r: Record, c: nat) {
    && c <= |r| + 2
    && Stored(o.disk, GeoOf(blksize, lf, o.blist), f, Sofar(rs, r, c))
    && PtrOk(blksize, o, Pos(rs, |rs|) + c)
    && RecStateOk(o, |r|, c)
    && (o.block_state == BlockNew ==> |o.blist| > 0)
    && DispsOk(blksize, rs + [r], o.blist, if o.block_state == BlockNew then |o.blist| - 1 else |o.blist|)
  }

  /** Between two calls: the last block has been begun and has its displacement. */
  ghost predicate Paused(blksize: nat, lf: bool, o: Out, f: seq<byte>, rs: seq<Record>, r: Record, c: nat) {
    && Writing(blksize, lf, o, f, rs, r, c)
    && o.block_state != BlockNew
    && (|o.blist| > 0 ==> Times(|o.blist| - 1, blksize) < Pos(rs, |rs|) + c)
  }

  /** Within a call: there is room on the last block, which is new exactly when nothing is on it. */
  ghost predicate Opened(blksize: nat, lf: bool, o: Out, f: seq<byte>, rs: seq<Record>, r: Record, c: nat) {
    && Writing(blksize, lf, o, f, rs, r, c)
    && 0 < |o.blist|
    && Pos(rs, |rs|) + c < Times(|o.blist|, blksize)
    && (o.block_state == BlockNew <==> Times(|o.blist| - 1, blksize) == Pos(rs, |rs|) + c)
  }

  // ----- blocks -------------------------------------------------------------------------

  lemma {:induction false} BoundedAbove(s: set<int>) returns (m: nat)
    ensures forall a :: a in s ==> a <= m
  {
    if x :| x in s {
      var m' := BoundedAbove(s - {x});
      m := Max(m', x);
      assert forall a :: a in s ==> a == x || a in s - {x};
    } else {
      m := 0;
    }
  }

  /** Any block the disk does not use yet, filled with zeros. */
  method GetZeroBlock(disk: Disk, blksize: nat) returns (disk': Disk, addr: int)
    ensures 0 < addr && addr !in disk
    ensures disk' == disk[addr := Zeros(blksize)]
  {
    ghost var m := BoundedAbove(disk.Keys);
    assert 0 < m + 1 && m + 1 !in disk;
    addr :| 0 < addr && addr !in disk;
    disk' := disk[addr := Zeros(blksize)];
  }

  lemma {:induction false} DispsSame(blksize: nat, rs: seq<Record>, blist: seq<Block>, blist': seq<Block>, nb: nat)
    requires nb <= |blist| && nb <= |blist'| && DispsOk(blksize, rs, blist, nb)
    requires forall b :: 0 <= b < nb ==> blist'[b].disp == blist[b].disp
    ensures DispsOk(blksize, rs, blist', nb)
  {
    if nb != 0 {
      DispsSame(blksize, rs, blist, blist', nb - 1);
    }
  }

  /** A fresh block at the end turns a paused writer into one with room. */
  lemma {:induction false} NewBlock(blksize: nat, lf: bool, o: Out, addr: int,
                                    f: seq<byte>, rs: seq<Record>, r: Record, c: nat)
    requires 4 <= blksize && Paused(blksize, lf, o, f, rs, r, c)
    requires Pos(rs, |rs|) + c == Times(|o.blist|, blksize) && addr !in o.disk && addr != 0
    ensures Opened(blksize, lf,
                   o.(disk := o.disk[addr := Zeros(blksize)], blist := o.blist + [Block(addr, 0, 0)],
                      write_ptr := Addr(addr, 0), block_state := BlockNew, block_free := blksize),
                   f + Zeros(blksize), rs, r, c)
  {
    var blist := o.blist + [Block(addr, 0, 0)];
    GrowStored(o.disk, GeoOf(blksize, lf, o.blist), f, Sofar(rs, r, c), addr);
    assert blist[..|o.blist|] == o.blist;
    DispsSame(blksize, rs + [r], o.blist, blist, |o.blist|);
  }

  /** write_prepare_block: take a new block when the last one is full, and say how much room there is. */
  method WritePrepareBlock(blksize: nat, o: Out,
                           ghost lf: bool, ghost f: seq<byte>, ghost rs: seq<Record>, ghost r: Record, ghost c: nat)
    returns (o': Out, len: int, ghost f': seq<byte>)
    requires 4 <= blksize && Paused(blksize, lf, o, f, rs, r, c)
    ensures Opened(blksize, lf, o', f', rs, r, c)
    ensures len == Times(|o'.blist|, blksize) - (Pos(rs, |rs|) + c)
    ensures if Pos(rs, |rs|) + c == Times(|o.blist|, blksize) then
              && o'.write_ptr.blk !in o.disk && o'.disk == o.disk[o'.write_ptr.blk := Zeros(blksize)]
              && o'.blist == o.blist + [Block(o'.write_ptr.blk, 0, 0)] && 0 < o'.write_ptr.blk
            else o' == o
  {
    o', f' := o, f;
    if o.write_ptr.off == 0 || o.write_ptr.off == blksize {
      var disk, addr := GetZeroBlock(o.disk, blksize);
      NewBlock(blksize, lf, o, addr, f, rs, r, c);
      o' := o.(disk := disk, blist := o.blist + [Block(addr, 0, 0)], write_ptr := Addr(addr, 0),
               block_state := BlockNew, block_free := blksize);
      f' := f + Zeros(blksize);
      len := blksize;
    } else {
      len := blksize - o.write_ptr.off;
    }
  }

  /** Nothing but the block under the write pointer has been written. */
  ghost predicate OnlyLast(o: Out, o': Out) {
    && |o'.blist| == |o.blist| && Addrs(o'.blist) == Addrs(o.blist) && His(o'.blist) == His(o.blist)
    && o'.write_ptr.blk == o.write_ptr.blk
    && o'.disk.Keys == o.disk.Keys
    && o'.disk - {o.write_ptr.blk} == o.disk - {o.write_ptr.blk}
  }

  lemma {:induction false} OnlyLastTrans(o: Out, o1: Out, o2: Out)
    requires OnlyLast(o, o1) && OnlyLast(o1, o2)
    ensures OnlyLast(o, o2)
  {
  }

  // ----- bytes of the record ------------------------------------------------------------

  /** Store x at the write pointer and advance it. */
  function Emit(o: Out, x: seq<byte>): Out {
    o.(disk := WriteAt(o.disk, o.write_ptr, x), write_ptr := o.write_ptr.Plus(|x|), block_free := o.block_free - |x|)
  }

  /** There are n bytes of room behind the write pointer. */
  ghost predicate Room(blksize: nat, o: Out, rs: seq<Record>, c: nat, n: nat) {
    0 < |o.blist| && Pos(rs, |rs|) + c + n <= Times(|o.blist|, blksize)
  }

  /** Bytes of the record go out and the state machine follows. */
  lemma {:induction false} EmitWriting(blksize: nat, lf: bool, o: Out, f: seq<byte>, rs: seq<Record>, r: Record, c: nat,
                                       x: seq<byte>, s: RecordState, l: int)
    returns (f': seq<byte>)
    requires Writing(blksize, lf, o, f, rs, r, c) && Room(blksize, o, rs, c, |x|)
    requires c + |x| <= |r| + 2 && x == Slice(Bytes(r), c, |x|)
    requires RecStateOk(o.(var_record_state := s, var_record_len := l), |r|, c + |x|)
    ensures var o' := Emit(o, x).(var_record_state := s, var_record_len := l);
            && Writing(blksize, lf, o', f', rs, r, c + |x|)
            && OnlyLast(o, o')
  {
    f' := EmitStored(blksize, lf, o, f, rs, r, c, x);
  }

  lemma {:induction false} EmitStored(blksize: nat, lf: bool, o: Out, f: seq<byte>, rs: seq<Record>, r: Record, c: nat,
                                      x: seq<byte>)
    returns (f': seq<byte>)
    requires c + |x| <= |r| + 2 && x == Slice(Bytes(r), c, |x|)
    requires Stored(o.disk, GeoOf(blksize, lf, o.blist), f, Sofar(rs, r, c)) && PtrOk(blksize, o, Pos(rs, |rs|) + c)
    requires Room(blksize, o, rs, c, |x|)
    ensures Stored(Emit(o, x).disk, GeoOf(blksize, lf, o.blist), f', Sofar(rs, r, c + |x|))
  {
    var g := GeoOf(blksize, lf, o.blist);
    var data := Sofar(rs, r, c);
    AddrsAt(o.blist, |o.blist| - 1);
    WriteStored(o.disk, g, f, data, o.write_ptr.off, x);
    f' := Put(f, |data|, x);
    assert data + x == Sofar(rs, r, c + |x|);
  }

  /** store_displacement: the last block gets its displacement and counts as used. */
  function StoreDisplacement(o: Out, disp: int): Out
    requires 0 < |o.blist|
  {
    var last := |o.blist| - 1;
    o.(blist := o.blist[last := o.blist[last].(disp := disp)], block_state := BlockUsed)
  }

  lemma {:induction false} StoreWriting(blksize: nat, lf: bool, o: Out, f: seq<byte>, rs: seq<Record>, r: Record,
                                        c: nat, disp: int)
    requires Writing(blksize, lf, o, f, rs, r, c) && o.block_state == BlockNew && Room(blksize, o, rs, c, 0)
    requires DispOk(blksize, rs + [r], |o.blist| - 1, disp)
    ensures Writing(blksize, lf, StoreDisplacement(o, disp), f, rs, r, c)
    ensures OnlyLast(o, StoreDisplacement(o, disp))
  {
    var o' := StoreDisplacement(o, disp);
    var n := |o.blist| - 1;
    assert o'.blist[..n] == o.blist[..n];
    assert Addrs(o'.blist) == Addrs(o.blist) && His(o'.blist) == His(o.blist);
    DispsSame(blksize, rs + [r], o.blist, o'.blist, n);
  }

  /** As much of the header as is missing and fits on the block, and how many bytes that is. */
  function VarHeader(o: Out, len: int, vheader: int): (Out, int)
    requires 0 < len && 0 <= vheader <= MAX_RECORD_LEN && 0 < |o.blist|
  {
    if o.var_record_state == RecHeaderComplete || o.var_record_state == RecIncomplete then (o, 0)
    else if o.var_record_state == RecHeaderStarted then
      (Emit(o, [Lo(vheader)]).(var_record_state := RecHeaderComplete), 1)
    else
      var o1 := if o.block_state == BlockNew then StoreDisplacement(o, o.write_ptr.off) else o;
      if len >= 2 then
        (Emit(o1, Header(vheader)).(var_record_state := RecHeaderComplete, var_record_len := vheader), 2)
      else
        (Emit(o1, [Hi(vheader)]).(var_record_state := RecHeaderStarted, var_record_len := vheader), 1)
  }

  /** A header at the start of a block gives displacement 0. */
  lemma {:induction false} HeaderDisp(blksize: nat, lf: bool, o: Out, f: seq<byte>, rs: seq<Record>, r: Record)
    requires 0 < blksize && Opened(blksize, lf, o, f, rs, r, 0) && o.block_state == BlockNew
    ensures o.write_ptr.off == 0
    ensures Writing(blksize, lf, StoreDisplacement(o, 0), f, rs, r, 0)
    ensures OnlyLast(o, StoreDisplacement(o, 0))
  {
    PosPrefix(rs, [r], |rs|);
    DispHeader(blksize, rs + [r], |o.blist| - 1, |rs|);
    StoreWriting(blksize, lf, o, f, rs, r, 0, 0);
  }

  /** p is the writer, and the number of header bytes, after the missing header bytes went out at c. */
  ghost predicate HeaderOut(blksize: nat, lf: bool, o: Out, p: (Out, int), len: int, f': seq<byte>, rs: seq<Record>,
                            r: Record, c: nat) {
    && p.1 == (if c >= 2 then 0 else if c == 1 then 1 else Min(2, len))
    && 0 <= p.1 && Writing(blksize, lf, p.0, f', rs, r, c + p.1) && OnlyLast(o, p.0)
    && (p.0.block_state == BlockNew <==> o.block_state == BlockNew && c >= 1)
  }

  /** The first header bytes of a record, on a block that has its displacement. */
  lemma {:induction false} StartHeader(blksize: nat, lf: bool, o: Out, len: int, f: seq<byte>, rs: seq<Record>,
                                       r: Record)
    returns (f': seq<byte>)
    requires Writing(blksize, lf, o, f, rs, r, 0) && o.block_state != BlockNew
    requires 0 < len && Room(blksize, o, rs, 0, len)
    ensures HeaderOut(blksize, lf, o, VarHeader(o, len, |r|), len, f', rs, r, 0)
  {
    if len >= 2 {
      f' := EmitWriting(blksize, lf, o, f, rs, r, 0, Header(|r|), RecHeaderComplete, |r|);
    } else {
      f' := EmitWriting(blksize, lf, o, f, rs, r, 0, [Hi(|r|)], RecHeaderStarted, |r|);
    }
  }

  /** The first header bytes of a record, on a new block. */
  lemma {:induction false} StartHeaderNew(blksize: nat, lf: bool, o: Out, len: int, f: seq<byte>, rs: seq<Record>,
                                          r: Record)
    returns (f': seq<byte>)
    requires 4 <= blksize && Opened(blksize, lf, o, f, rs, r, 0) && o.block_state == BlockNew
    requires 0 < len && Room(blksize, o, rs, 0, len)
    ensures HeaderOut(blksize, lf, o, VarHeader(o, len, |r|), len, f', rs, r, 0)
  {
    HeaderDisp(blksize, lf, o, f, rs, r);
    var o1 := StoreDisplacement(o, 0);
    f' := StartHeader(blksize, lf, o1, len, f, rs, r);
    OnlyLastTrans(o, o1, VarHeader(o1, len, |r|).0);
  }

  /** The second byte of a header cut by the end of the block before, or nothing if the header is out. */
  lemma {:induction false} HeaderContinued(blksize: nat, lf: bool, o: Out, len: int, f: seq<byte>, rs: seq<Record>,
                                           r: Record, c: nat)
    returns (f': seq<byte>)
    requires 4 <= blksize && Opened(blksize, lf, o, f, rs, r, c) && 1 <= c < |r| + 2
    requires 0 < len && Room(blksize, o, rs, c, len)
    ensures HeaderOut(blksize, lf, o, VarHeader(o, len, |r| - DataOf(c)), len, f', rs, r, c)
  {
    f' := f;
    if c == 1 {
      f' := EmitWriting(blksize, lf, o, f, rs, r, c, [Lo(|r|)], RecHeaderComplete, |r|);
    }
  }

  lemma {:induction false} HeaderBegun(blksize: nat, lf: bool, o: Out, len: int, f: seq<byte>, rs: seq<Record>,
                                       r: Record)
    returns (f': seq<byte>)
    requires 4 <= blksize && Opened(blksize, lf, o, f, rs, r, 0)
    requires 0 < len && Room(blksize, o, rs, 0, len)
    ensures HeaderOut(blksize, lf, o, VarHeader(o, len, |r|), len, f', rs, r, 0)
  {
    if o.block_state == BlockNew {
      f' := StartHeaderNew(blksize, lf, o, len, f, rs, r);
    } else {
      f' := StartHeader(blksize, lf, o, len, f, rs, r);
    }
  }

  lemma {:induction false} HeaderWritten(blksize: nat, lf: bool, o: Out, len: int, f: seq<byte>, rs: seq<Record>,
                                         r: Record, c: nat)
    returns (f': seq<byte>)
    requires 4 <= blksize && Opened(blksize, lf, o, f, rs, r, c) && c < |r| + 2
    requires 0 < len && Room(blksize, o, rs, c, len)
    ensures HeaderOut(blksize, lf, o, VarHeader(o, len, |r| - DataOf(c)), len, f', rs, r, c)
  {
    if c == 0 {
      f' := HeaderBegun(blksize, lf, o, len, f, rs, r);
    } else {
      f' := HeaderContinued(blksize, lf, o, len, f, rs, r, c);
    }
  }

  /** How much data of the record is out after c of its bytes. */
  function DataOf(c: nat): nat {
    if c < 2 then 0 else c - 2
  }

  /** The displacement of a new block once the record under way has taken its share of it. */
  lemma {:induction false} DataDisp(blksize: nat, lf: bool, o: Out, f: seq<byte>, rs: seq<Record>, r: Record,
                                    c: nat, c': nat, vh_len: int, rlen: int)
    requires 4 <= blksize && Writing(blksize, lf, o, f, rs, r, c') && o.block_state == BlockNew
    requires Times(|o.blist| - 1, blksize) == Pos(rs, |rs|) + c && 1 <= c < |r| + 2
    requires c' == Min(|r| + 2, c + blksize)
    requires vh_len == (if c == 1 then 1 else 0) && rlen == c' - c - vh_len
    ensures var max := if vh_len == 1 then blksize - 1 else blksize;
            var disp := if rlen >= max then VAR_RECORD_SPANNED else o.write_ptr.off;
            && Writing(blksize, lf, StoreDisplacement(o, disp), f, rs, r, c')
            && OnlyLast(o, StoreDisplacement(o, disp))
  {
    var max := if vh_len == 1 then blksize - 1 else blksize;
    var disp := if rlen >= max then VAR_RECORD_SPANNED else o.write_ptr.off;
    PosPrefix(rs, [r], |rs|);
    DispPending(blksize, rs + [r], |o.blist| - 1, |rs|);
    StoreWriting(blksize, lf, o, f, rs, r, c', disp);
  }

  /** The data bytes of the record that fit behind what is on the block; the first write to a
      new block settles its displacement. */
  function RecordData(blksize: nat, o: Out, buf: seq<byte>, at: nat, rlen: nat, vh_len: int): Out
    requires 0 < |o.blist| && at + rlen <= |buf|
  {
    var left := o.var_record_len - rlen;
    var o1 := Emit(o, Slice(buf, at, rlen)).(var_record_len := left,
                                    var_record_state := if left == 0 then RecComplete else RecIncomplete);
    if o1.block_state == BlockNew then
      var max := if vh_len == 1 then blksize - 1 else blksize;
      StoreDisplacement(o1, if rlen >= max then VAR_RECORD_SPANNED else o1.write_ptr.off)
    else o1
  }

  lemma {:induction false} DataBytes(r: Record, c: nat, n: nat)
    requires 2 <= c && c + n <= |r| + 2
    ensures Slice(r, c - 2, n) == Slice(Bytes(r), c, n)
  {
  }

  /** Data on a block that has its displacement. */
  lemma {:induction false} DataEmitted(blksize: nat, lf: bool, o: Out, f: seq<byte>, rs: seq<Record>, r: Record, c: nat,
                                       rlen: nat)
    returns (f': seq<byte>)
    requires Writing(blksize, lf, o, f, rs, r, c) && 2 <= c && Room(blksize, o, rs, c, rlen)
    requires 0 < rlen && c + rlen <= |r| + 2
    ensures var left := o.var_record_len - rlen;
            var o' := Emit(o, Slice(r, c - 2, rlen)).(var_record_len := left,
                                                  var_record_state := if left == 0 then RecComplete else RecIncomplete);
            Writing(blksize, lf, o', f', rs, r, c + rlen) && OnlyLast(o, o')
  {
    var left := o.var_record_len - rlen;
    DataBytes(r, c, rlen);
    f' := EmitWriting(blksize, lf, o, f, rs, r, c, Slice(r, c - 2, rlen),
                      if left == 0 then RecComplete else RecIncomplete, left);
  }

  lemma {:induction false} DataWritten(blksize: nat, lf: bool, o: Out, f: seq<byte>, rs: seq<Record>, r: Record,
                                       c0: nat, vh_len: int, c: nat, rlen: nat)
    returns (f': seq<byte>)
    requires 4 <= blksize && Writing(blksize, lf, o, f, rs, r, c) && 2 <= c && Room(blksize, o, rs, c, rlen)
    requires 0 < rlen && c + rlen <= |r| + 2
    requires o.block_state == BlockNew ==>
               && Times(|o.blist| - 1, blksize) == Pos(rs, |rs|) + c0 && 1 <= c0 < |r| + 2
               && c + rlen == Min(|r| + 2, c0 + blksize)
               && vh_len == (if c0 == 1 then 1 else 0) && c == c0 + vh_len
    ensures var o' := RecordData(blksize, o, r, c - 2, rlen, vh_len);
            && Writing(blksize, lf, o', f', rs, r, c + rlen)
            && o'.block_state != BlockNew && OnlyLast(o, o')
  {
    f' := DataEmitted(blksize, lf, o, f, rs, r, c, rlen);
    if o.block_state == BlockNew {
      DataOnNewBlock(blksize, lf, o, f', rs, r, c0, vh_len, c, rlen);
    }
  }

  /** Data on a new block, which gets its displacement with it. */
  lemma {:induction false} DataOnNewBlock(blksize: nat, lf: bool, o: Out, f': seq<byte>, rs: seq<Record>, r: Record,
                                          c0: nat, vh_len: int, c: nat, rlen: nat)
    requires 4 <= blksize && 2 <= c && o.block_state == BlockNew && 0 < rlen && c + rlen <= |r| + 2
    requires var left := o.var_record_len - rlen;
             var o1 := Emit(o, Slice(r, c - 2, rlen)).(var_record_len := left,
                 var_record_state := if left == 0 then RecComplete else RecIncomplete);
             Writing(blksize, lf, o1, f', rs, r, c + rlen) && OnlyLast(o, o1)
    requires Times(|o.blist| - 1, blksize) == Pos(rs, |rs|) + c0 && 1 <= c0 < |r| + 2
    requires c + rlen == Min(|r| + 2, c0 + blksize) && vh_len == (if c0 == 1 then 1 else 0) && c == c0 + vh_len
    ensures var o' := RecordData(blksize, o, r, c - 2, rlen, vh_len);
            && Writing(blksize, lf, o', f', rs, r, c + rlen)
            && o'.block_state != BlockNew && OnlyLast(o, o')
  {
    var left := o.var_record_len - rlen;
    var o1 := Emit(o, Slice(r, c - 2, rlen)).(
      var_record_len := left, var_record_state := if left == 0 then RecComplete else RecIncomplete);
    DataDisp(blksize, lf, o1, f', rs, r, c0, c + rlen, vh_len, rlen);
    OnlyLastTrans(o, o1, RecordData(blksize, o, r, c - 2, rlen, vh_len));
  }

  /** write_var_header. */
  method WriteVarHeader(blksize: nat, o: Out, len: int, vheader: int,
                        ghost lf: bool, ghost f: seq<byte>, ghost rs: seq<Record>, ghost r: Record, ghost c: nat)
    returns (o': Out, vh_len: nat, ghost f': seq<byte>)
    requires 4 <= blksize && Opened(blksize, lf, o, f, rs, r, c) && c < |r| + 2
    requires len == Times(|o.blist|, blksize) - (Pos(rs, |rs|) + c) && vheader == |r| - DataOf(c)
    ensures vh_len == (if c >= 2 then 0 else if c == 1 then 1 else Min(2, len))
    ensures Writing(blksize, lf, o', f', rs, r, c + vh_len) && OnlyLast(o, o')
    ensures o'.block_state == BlockNew <==> o.block_state == BlockNew && c >= 1
  {
    f' := HeaderWritten(blksize, lf, o, len, f, rs, r, c);
    var p := VarHeader(o, len, vheader);
    o', vh_len := p.0, p.1;
  }

  /** The data part of extend_block_variable. */
  method WriteData(blksize: nat, o: Out, buf: seq<byte>, at: nat, rlen: int, vh_len: nat,
                   ghost lf: bool, ghost f: seq<byte>, ghost rs: seq<Record>, ghost r: Record, ghost c0: nat)
    returns (o': Out, ghost f': seq<byte>)
    requires 4 <= blksize && Writing(blksize, lf, o, f, rs, r, c0 + vh_len) && 2 <= c0 + vh_len
    requires 0 < rlen && c0 + vh_len + rlen <= |r| + 2 && Room(blksize, o, rs, c0 + vh_len, rlen)
    requires buf == r && at == c0 + vh_len - 2
    requires o.block_state == BlockNew ==>
               && Times(|o.blist| - 1, blksize) == Pos(rs, |rs|) + c0 && 1 <= c0 < |r| + 2
               && c0 + vh_len + rlen == Min(|r| + 2, c0 + blksize) && vh_len == (if c0 == 1 then 1 else 0)
    ensures Writing(blksize, lf, o', f', rs, r, c0 + vh_len + rlen)
    ensures o'.block_state != BlockNew && OnlyLast(o, o')
  {
    f' := DataWritten(blksize, lf, o, f, rs, r, c0, vh_len, c0 + vh_len, rlen);
    o' := RecordData(blksize, o, buf, at, rlen, vh_len);
  }

  /** extend_block_variable: the next bytes of the record, header first, until block or record ends. */
  method ExtendBlockVariable(blksize: nat, o: Out, buf: seq<byte>, at: nat, len0: int, size0: int, rlen0: int,
                             ghost lf: bool, ghost f: seq<byte>, ghost rs: seq<Record>, ghost r: Record, ghost c: nat)
    returns (o': Out, copied: int, ghost f': seq<byte>)
    requires 4 <= blksize && Opened(blksize, lf, o, f, rs, r, c) && c < |r| + 2
    requires len0 == Times(|o.blist|, blksize) - (Pos(rs, |rs|) + c)
    requires size0 == |r| - at && buf == r && at == DataOf(c) && rlen0 == |r|
    ensures Paused(blksize, lf, o', f', rs, r, Min(|r| + 2, c + len0))
    ensures copied == DataOf(Min(|r| + 2, c + len0)) - DataOf(c)
    ensures OnlyLast(o, o')
  {
    var len, size, rlen := len0, size0, rlen0;
    if size < rlen {
      rlen := size;
    }
    ghost var c' := Min(|r| + 2, c + len0);
    var vh_len;
    o', vh_len, f' := WriteVarHeader(blksize, o, len, rlen, lf, f, rs, r, c);
    len := len - vh_len;
    copied := 0;
    if len == 0 {
      assert c + vh_len == c';
      return;
    }
    assert o'.var_record_len == |r| - DataOf(c);
    if len < rlen {
      rlen := len;
    }
    if o'.var_record_len < rlen {
      rlen := o'.var_record_len;
    }
    assert c + vh_len + rlen == c';
    ghost var o1 := o';
    o', f' := WriteData(blksize, o', buf, at, rlen, vh_len, lf, f', rs, r, c);
    OnlyLastTrans(o, o1, o');
    copied := rlen;
  }
}
