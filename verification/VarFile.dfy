/** An open variable-record file: appending records, and keeping the record and block
    tables of the open file in step with the disk. */
module VarFile {
  import opened Arith
  import opened RecordStream
  import opened Scanner
  import opened Writer

  /** hi is the number of records begun before the end of block b. */
  ghost predicate HiOk(blksize: nat, rs: seq<Record>, b: nat, hi: int) {
    && 0 <= hi <= |rs|
    && (0 < hi ==> Pos(rs, hi - 1) < Times(b + 1, blksize))
    && (hi < |rs| ==> Times(b + 1, blksize) <= Pos(rs, hi))
  }

  ghost predicate HisOk(blksize: nat, rs: seq<Record>, blist: seq<Block>, nb: nat)
    requires nb <= |blist|
  {
    nb == 0 || (HisOk(blksize, rs, blist, nb - 1) && HiOk(blksize, rs, nb - 1, blist[nb - 1].hi_record_nr))
  }

  /** The blocks are exactly as many as the stream needs. */
  ghost predicate Tight(blksize: nat, nb: nat, w: nat) {
    w <= Times(nb, blksize) && (0 < nb ==> Times(nb - 1, blksize) < w)
  }

  /** The disk holds the records rs (its blocks read f), and the tables of the open file say so. */
  ghost predicate Repr(blksize: nat, lf: bool, o: Out, rlist: seq<RecordInfo>, f: seq<byte>, rs: seq<Record>) {
    var g := GeoOf(blksize, lf, o.blist);
    && Stored(o.disk, g, f, Stream(rs))
    && Tight(blksize, |o.blist|, Pos(rs, |rs|))
    && TableAt(g, rs, |o.blist|, |rs| - 1, rlist)
    && DispsOk(blksize, rs, o.blist, |o.blist|)
    && HisOk(blksize, rs, o.blist, |o.blist|)
    && (o.block_state != BlockNotInit ==> o.block_state == BlockUsed && PtrOk(blksize, o, Pos(rs, |rs|)))
  }

  /** Where the last record ends, as its table entry tells it. */
  lemma {:induction false} LastInfo(g: Geo, rs: seq<Record>, nb: nat)
    requires g.Valid() && 0 < |rs| && 0 < nb <= |g.addrs| && Tight(g.blksize, nb, Pos(rs, |rs|))
    ensures var i := InfoAt(g, rs, |rs| - 1, nb);
            var end := Pos(rs, |rs|) - Times(nb - 1, g.blksize);
            && 0 <= i.block_nr < nb
            && (i.block_nr == nb - 1 ==>
                  i.ext == [] && i.disk_start.Plus(i.first_block_len) == Addr(g.addrs[nb - 1], end))
            && (i.block_nr < nb - 1 ==>
                  && |i.ext| == nb - 1 - i.block_nr
                  && i.ext[|i.ext| - 1] == Ext(Addr(g.addrs[nb - 1], 0), end, nb - 1)
                  && forall j :: 0 <= j < |i.ext| ==> i.ext[j].block_nr == i.block_nr + 1 + j)
  {
    var k := |rs| - 1;
    var d := Pos(rs, k) + 2;
    QuotOf(d, g.blksize);
    var bn := Quot(d, g.blksize);
    TimesCancel(bn, nb, g.blksize);
    ExtsShape(g, d + |rs[k]|, bn + 1, nb);
  }

  /** examine_last_block: unused bytes on the last block. */
  method ExamineLastBlock(blksize: nat, o: Out, rlist: seq<RecordInfo>, nr_records: int,
                          ghost lf: bool, ghost f: seq<byte>, ghost rs: seq<Record>)
    returns (free: int)
    requires Repr(blksize, lf, o, rlist, f, rs) && nr_records == |rs|
    ensures free == Times(|o.blist|, blksize) - Pos(rs, |rs|)
  {
    if |o.blist| == 0 || nr_records == 0 {
      return 0;
    }
    if o.block_state != BlockNotInit {
      return o.block_free;
    }
    var last_bnr := |o.blist| - 1;
    var rec := rlist[nr_records - 1];
    LastInfo(GeoOf(blksize, lf, o.blist), rs, |o.blist|);
    if rec.block_nr == last_bnr {
      return blksize - (rec.disk_start.off + rec.first_block_len);
    }
    var j := 0;
    while j < |rec.ext|
      invariant 0 <= j < |rec.ext|
    {
      if rec.ext[j].block_nr == last_bnr {
        return blksize - (rec.ext[j].disk_start.off + rec.ext[j].len);
      }
      j := j + 1;
    }
  }

  /** disk_end: the address behind the last record. */
  method DiskEnd(blksize: nat, o: Out, rlist: seq<RecordInfo>, nr_records: int,
                 ghost lf: bool, ghost f: seq<byte>, ghost rs: seq<Record>)
    returns (a: Addr)
    requires Repr(blksize, lf, o, rlist, f, rs) && nr_records == |rs|
    ensures PtrOk(blksize, o.(write_ptr := a), Pos(rs, |rs|))
  {
    if nr_records == 0 {
      return NULL_ADDR;
    }
    if o.block_state != BlockNotInit {
      return o.write_ptr;
    }
    var rec := rlist[nr_records - 1];
    LastInfo(GeoOf(blksize, lf, o.blist), rs, |o.blist|);
    AddrsAt(o.blist, |o.blist| - 1);
    if rec.ext == [] {
      return rec.disk_start.Plus(rec.first_block_len);
    }
    var rext := rec.ext[|rec.ext| - 1];
    return rext.disk_start.Plus(rext.len);
  }

  /** new_blocks: how many blocks an append of size bytes will take, with last bytes left on the last one. */
  function NewBlocks(blksize: nat, size: nat, last: nat, nrecords: nat): nat
    requires 0 < blksize
  {
    var last_usable := if last == 0 || last == 1 then 0 else last - 2;
    if size <= last_usable || size + 2 * nrecords <= last then 0
    else CeilQuot(size + 2 * nrecords - last, blksize)
  }

  /** The block count is exact: one block less could not hold header and data. */
  lemma {:induction false} NewBlocksExact(blksize: nat, size: nat, last: nat)
    requires 0 < blksize && 0 < size
    ensures var nb := NewBlocks(blksize, size, last, 1);
            size + 2 <= last + Times(nb, blksize) && (0 < nb ==> last + Times(nb - 1, blksize) < size + 2)
  {
    if last < size + 2 {
      CeilQuotIs(size + 2 - last, blksize);
    }
  }

  lemma {:induction false} DispsAppend(blksize: nat, rs: seq<Record>, r: Record, blist: seq<Block>, nb: nat)
    requires nb <= |blist| && DispsOk(blksize, rs, blist, nb)
    requires 0 < nb ==> Times(nb - 1, blksize) < Pos(rs, |rs|)
    ensures DispsOk(blksize, rs + [r], blist, nb)
  {
    if nb != 0 {
      if nb != 1 {
        TimesMono(nb - 2, nb - 1, blksize);
      }
      DispsAppend(blksize, rs, r, blist, nb - 1);
      DispAppend(blksize, rs, r, nb - 1, blist[nb - 1].disp);
    }
  }

  /** The file at rest, its write state reset, is a paused writer that has written nothing yet. */
  lemma {:induction false} AtRest(blksize: nat, lf: bool, o: Out, rlist: seq<RecordInfo>, f: seq<byte>,
                                  rs: seq<Record>, r: Record, a: Addr)
    requires Repr(blksize, lf, o, rlist, f, rs) && PtrOk(blksize, o.(write_ptr := a), Pos(rs, |rs|))
    ensures Paused(blksize, lf, o.(write_ptr := a, var_record_state := RecComplete, var_record_len := 0), f, rs, r, 0)
  {
    DispsAppend(blksize, rs, r, o.blist, |o.blist|);
    assert Sofar(rs, r, 0) == Stream(rs);
  }

  /** The disk blocks of the file. */
  ghost function Own(blist: seq<Block>): set<int> {
    if blist == [] then {} else Own(blist[..|blist| - 1]) + {blist[|blist| - 1].disk_addr}
  }

  lemma {:induction false} OwnIs(a: seq<Block>, b: seq<Block>)
    requires Addrs(a) == Addrs(b)
    ensures Own(a) == Own(b)
  {
    if a != [] {
      AddrsAt(a, |a| - 1);
      AddrsAt(b, |b| - 1);
      assert Addrs(a)[..|a| - 1] == Addrs(a[..|a| - 1]);
      assert Addrs(b)[..|b| - 1] == Addrs(b[..|b| - 1]);
      OwnIs(a[..|a| - 1], b[..|b| - 1]);
    }
  }

  /** The file may have taken blocks the disk did not use; no block outside the file has changed. */
  ghost predicate Kept(o: Out, o': Out) {
    && Addrs(o.blist) <= Addrs(o'.blist)
    && Own(o.blist) <= Own(o'.blist) && Own(o'.blist) - Own(o.blist) !! o.disk.Keys
    && o.disk.Keys <= o'.disk.Keys
    && o'.disk - Own(o'.blist) == o.disk - Own(o'.blist)
  }

  /** Grown, and the blocks that were there keep their record numbers. */
  ghost predicate Grown(o: Out, o': Out) {
    Kept(o, o') && His(o.blist) <= His(o'.blist)
  }

  lemma {:induction false} GrownTrans(o: Out, o1: Out, o2: Out)
    requires Grown(o, o1) && Grown(o1, o2)
    ensures Grown(o, o2)
  {
    var s := Own(o2.blist);
    assert o2.disk - s == o1.disk - s == (o1.disk - Own(o1.blist)) - s == o.disk - s;
  }

  lemma {:induction false} GrownStep(blksize: nat, o: Out, o1: Out, o': Out)
    requires 0 < |o1.blist| && o1.write_ptr.blk == o1.blist[|o1.blist| - 1].disk_addr
    requires o1 == o || (&& o1.write_ptr.blk !in o.disk
                         && o1.disk == o.disk[o1.write_ptr.blk := Zeros(blksize)]
                         && o1.blist == o.blist + [Block(o1.write_ptr.blk, 0, 0)])
    requires OnlyLast(o1, o')
    ensures Grown(o, o')
  {
    if o1 != o {
      assert o1.blist[..|o.blist|] == o.blist;
    }
    OwnIs(o1.blist, o'.blist);
    var s, k := Own(o'.blist), o1.write_ptr.blk;
    assert o'.disk - s == (o'.disk - {k}) - s == (o1.disk - {k}) - s == o.disk - s;
  }

  /** extend_block: fill up the last block, or a new one. */
  method ExtendBlock(blksize: nat, o: Out, buf: seq<byte>, at: nat, size: int, rlen: int,
                     ghost lf: bool, ghost f: seq<byte>, ghost rs: seq<Record>, ghost r: Record, ghost c: nat,
                       ghost o0: Out)
    returns (o': Out, copied: int, ghost f': seq<byte>, ghost c': nat)
    requires 4 <= blksize && Paused(blksize, lf, o, f, rs, r, c) && c < |r| + 2 && Grown(o0, o)
    requires size == |r| - at && buf == r && at == DataOf(c) && rlen == |r|
    ensures |o'.blist| == |o.blist| + if Pos(rs, |rs|) + c == Times(|o.blist|, blksize) then 1 else 0
    ensures c' == Min(|r| + 2, Times(|o'.blist|, blksize) - Pos(rs, |rs|))
    ensures Paused(blksize, lf, o', f', rs, r, c') && copied == DataOf(c') - DataOf(c)
    ensures Grown(o0, o')
  {
    var o1, len;
    o1, len, f' := WritePrepareBlock(blksize, o, lf, f, rs, r, c);
    o', copied, f' := ExtendBlockVariable(blksize, o1, buf, at, len, size, rlen, lf, f', rs, r, c);
    c' := Min(|r| + 2, c + len);
    GrownStep(blksize, o, o1, o');
    GrownTrans(o0, o, o');
  }

  /** All blocks are full, or the record is out; size bytes of it, from index at on, are still to come. */
  ghost predicate Filling(blksize: nat, lf: bool, o: Out, f: seq<byte>, rs: seq<Record>, r: Record, c: nat, at: int,
                          size: int, o0: Out) {
    && Paused(blksize, lf, o, f, rs, r, c) && Grown(o0, o)
    && c == Min(|r| + 2, Times(|o.blist|, blksize) - Pos(rs, |rs|))
    && size == |r| - at && at == DataOf(c)
  }

  /** One round of the block loop: a new block takes the next part of the record. */
  method FillBlock(blksize: nat, o: Out, buf: seq<byte>, at: nat, size: int, rlen: int,
                   ghost lf: bool, ghost f: seq<byte>, ghost rs: seq<Record>, ghost r: Record, ghost c: nat,
                     ghost o0: Out)
    returns (o': Out, at': nat, size': int, ghost f': seq<byte>, ghost c': nat)
    requires 4 <= blksize && Filling(blksize, lf, o, f, rs, r, c, at, size, o0) && buf == r && rlen == |r|
    requires Times(|o.blist|, blksize) < |r| + 2 + Pos(rs, |rs|)
    ensures Filling(blksize, lf, o', f', rs, r, c', at', size', o0) && |o'.blist| == |o.blist| + 1
  {
    var len;
    o', len, f', c' := ExtendBlock(blksize, o, buf, at, size, rlen, lf, f, rs, r, c, o0);
    at', size' := at + len, size - len;
  }

  /** The block loop of write_append: nblocks new blocks for the rest of the record. */
  method WriteBlocks(blksize: nat, o: Out, buf: seq<byte>, at0: nat, size0: int, rlen: int, nblocks: nat,
                     ghost lf: bool, ghost f: seq<byte>, ghost rs: seq<Record>, ghost r: Record, ghost c0: nat,
                       ghost o0: Out)
    returns (o': Out, ghost f': seq<byte>)
    requires 4 <= blksize && Filling(blksize, lf, o, f, rs, r, c0, at0, size0, o0) && buf == r && rlen == |r|
    requires |r| + 2 + Pos(rs, |rs|) <= Times(|o.blist| + nblocks, blksize)
    requires 0 < nblocks ==> Times(|o.blist| + nblocks - 1, blksize) < |r| + 2 + Pos(rs, |rs|)
    ensures Paused(blksize, lf, o', f', rs, r, |r| + 2)
    ensures Grown(o0, o')
  {
    var size, at := size0, at0;
    o', f' := o, f;
    ghost var c := c0;
    for i := 0 to nblocks
      invariant Filling(blksize, lf, o', f', rs, r, c, at, size, o0) && |o'.blist| == |o.blist| + i
    {
      TimesMono(|o'.blist|, |o.blist| + nblocks - 1, blksize);
      o', at, size, f', c := FillBlock(blksize, o', buf, at, size, rlen, lf, f', rs, r, c, o0);
    }
  }

  /** The first half of write_append: write pointer, block count, fresh write state. */
  method PrepareAppend(blksize: nat, o: Out, rlist: seq<RecordInfo>, nr_records: int, size: nat,
                       ghost lf: bool, ghost f: seq<byte>, ghost rs: seq<Record>, ghost r: Record)
    returns (o': Out, last: nat, nblocks: nat)
    requires Repr(blksize, lf, o, rlist, f, rs) && nr_records == |rs| && size == |r|
    ensures Paused(blksize, lf, o', f, rs, r, 0) && o'.disk == o.disk && o'.blist == o.blist
    ensures last == Times(|o.blist|, blksize) - Pos(rs, |rs|)
    ensures |r| + 2 + Pos(rs, |rs|) <= Times(|o.blist| + nblocks, blksize)
    ensures 0 < nblocks ==> Times(|o.blist| + nblocks - 1, blksize) < |r| + 2 + Pos(rs, |rs|)
  {
    last := ExamineLastBlock(blksize, o, rlist, nr_records, lf, f, rs);
    var write_ptr := DiskEnd(blksize, o, rlist, nr_records, lf, f, rs);
    nblocks := NewBlocks(blksize, size, last, 1);
    NewBlocksExact(blksize, size, last);
    TimesAdd(|o.blist|, nblocks, blksize);
    if 0 < nblocks {
      TimesAdd(|o.blist|, nblocks - 1, blksize);
    }
    AtRest(blksize, lf, o, rlist, f, rs, r, write_ptr);
    o' := o.(write_ptr := write_ptr, var_record_state := RecComplete, var_record_len := 0);
  }

  /** The second half of write_append: what is left of the last block first, then the new ones. */
  method WriteRecord(blksize: nat, o: Out, buf: seq<byte>, last: nat, nblocks: nat,
                     ghost lf: bool, ghost f: seq<byte>, ghost rs: seq<Record>, ghost r: Record)
    returns (o': Out, ghost f': seq<byte>)
    requires 4 <= blksize && Paused(blksize, lf, o, f, rs, r, 0) && buf == r
    requires last == Times(|o.blist|, blksize) - Pos(rs, |rs|)
    requires |r| + 2 + Pos(rs, |rs|) <= Times(|o.blist| + nblocks, blksize)
    requires 0 < nblocks ==> Times(|o.blist| + nblocks - 1, blksize) < |r| + 2 + Pos(rs, |rs|)
    ensures Paused(blksize, lf, o', f', rs, r, |r| + 2)
    ensures Grown(o, o')
  {
    var size, rlen, at := |buf|, |buf|, 0;
    o', f' := o, f;
    ghost var c: nat := 0;
    if last != 0 {
      var len;
      o', len, f', c := ExtendBlock(blksize, o, buf, at, size, rlen, lf, f, rs, r, c, o);
      size := size - len;
      at := at + len;
    }
    o', f' := WriteBlocks(blksize, o', buf, at, size, rlen, nblocks, lf, f', rs, r, c, o);
  }

  // ----- rescanning after an append -------------------------------------------------------

  /** The entry of the last record, in terms of where its header stands. */
  lemma {:induction false} LastHeader(g: Geo, rs: seq<Record>, nb: nat)
    requires g.Valid() && 0 < |rs| && 0 < nb <= |g.addrs| && Tight(g.blksize, nb, Pos(rs, |rs|))
    ensures var i := InfoAt(g, rs, |rs| - 1, nb);
            && 0 <= i.block_nr < nb && i.disk_start.blk == g.addrs[i.block_nr]
            && 0 <= i.disk_start.off < g.blksize
            && Times(i.block_nr, g.blksize) + i.disk_start.off == Pos(rs, |rs| - 1) + 2
            && i.file_start == FileStart(rs, |rs| - 1, g.Lf())
  {
    var d := Pos(rs, |rs| - 1) + 2;
    QuotOf(d, g.blksize);
    TimesCancel(Quot(d, g.blksize), nb, g.blksize);
  }

  lemma {:induction false} FileStartPos(rs: seq<Record>, k: nat, lf: nat)
    requires 0 < k <= |rs|
    ensures 0 < FileStart(rs, k, lf)
  {
    if 1 < k {
      FileStartPos(rs, k - 1, lf);
    }
  }

  /** The first part of update_records: where the header of the last record stands, and the logical
      bytes in front of it. */
  method FindLastHeader(blksize: nat, linefeed: bool, rlist: seq<RecordInfo>, rnr: int,
                        ghost g: Geo, ghost rs: seq<Record>)
    returns (bnr: nat, skip: nat, total: int)
    requires g.Valid() && g.blksize == blksize && g.linefeed == linefeed
    requires 0 < |rs| && rnr == |rs| - 1 && 0 < |g.addrs| && Tight(blksize, |g.addrs|, Pos(rs, |rs|))
    requires forall b :: 0 <= b < |g.addrs| ==> g.addrs[b] != 0
    requires rnr < |rlist| && rlist[rnr] == InfoAt(g, rs, rnr, |g.addrs|)
    ensures bnr < |g.addrs| && skip < blksize && Pos(rs, rnr) == Times(bnr, blksize) + skip
    ensures total == TotalThrough(g, rs, rnr - 1)
  {
    LastHeader(g, rs, |g.addrs|);
    TotalStep(g, rs, rnr);
    total := rlist[rnr].file_start;
    if 0 < rnr {
      FileStartPos(rs, rnr, g.Lf());
    }
    if linefeed && total != 0 {
      total := total - 1;
    }
    var b, off := rlist[rnr].block_nr, rlist[rnr].disk_start.off;
    if off >= 2 {
      off := off - 2;
    } else if off == 1 {
      b := b - 1;
      off := blksize - 1;
    } else if off == 0 && rlist[rnr].disk_start != NULL_ADDR {
      b := b - 1;
      off := blksize - 2;
    }
    bnr, skip := b, off;
  }

  /** Everything in front of the last record's header is already as a scan of the grown file leaves it. */
  lemma {:induction false} TableBefore(g: Geo, g': Geo, rs: seq<Record>, r: Record, rlist: seq<RecordInfo>, bnr: nat,
                                       skip: nat)
    requires g.Valid() && g'.blksize == g.blksize && g'.linefeed == g.linefeed && g.addrs <= g'.addrs
    requires TableAt(g, rs, |g.addrs|, |rs| - 1, rlist) && 0 < |rs|
    requires bnr < |g.addrs| && skip < g.blksize && Pos(rs, |rs| - 1) == Times(bnr, g.blksize) + skip
    ensures TableAt(g', rs + [r], if skip == 0 then bnr else bnr + 1, |rs| - 2,
            rlist[|rs| - 1 := EmptyInfo] + [EmptyInfo])
  {
    var nb := if skip == 0 then bnr else bnr + 1;
    forall i | 0 <= i <= |rs| - 2
      ensures rlist[i] == InfoAt(g', rs + [r], i, nb)
    {
      PosMono(rs, i + 1, |rs| - 1);
      InfoStable(g, rs, i, nb, |g.addrs|);
      InfoPrefix(g, g', rs, [r], i, nb);
    }
  }

  lemma {:induction false} TotalPrefix(g: Geo, g': Geo, rs: seq<Record>, r: Record, k: int)
    requires -1 <= k < |rs| && g.linefeed == g'.linefeed
    ensures TotalThrough(g', rs + [r], k) == TotalThrough(g, rs, k)
  {
    if 0 <= k {
      FileStartPrefix(rs, [r], k, g.Lf());
    }
  }

  /** The scan restarted in front of the last record. */
  lemma {:induction false} Restart(g: Geo, g': Geo, rs: seq<Record>, r: Record, rlist: seq<RecordInfo>, bnr: nat,
                                   skip: nat, t: Scan)
    requires g.Valid() && g'.blksize == g.blksize && g'.linefeed == g.linefeed && g.addrs <= g'.addrs
    requires TableAt(g, rs, |g.addrs|, |rs| - 1, rlist) && 0 < |rs|
    requires bnr < |g.addrs| && skip < g.blksize && Pos(rs, |rs| - 1) == Times(bnr, g.blksize) + skip
    requires t == Scan(rlist[|rs| - 1 := EmptyInfo] + [EmptyInfo], DataBlockStarted, |rs| - 2,
             TotalThrough(g, rs, |rs| - 2))
    ensures if skip == 0 then ScanAt(g', rs + [r], bnr, t) else AlignedAt(g', rs + [r], bnr, skip, t)
  {
    TableBefore(g, g', rs, r, rlist, bnr, skip);
    TotalPrefix(g, g', rs, r, |rs| - 2);
    PosPrefix(rs, [r], |rs| - 1);
    if 2 <= |rs| {
      PosPrefix(rs, [r], |rs| - 2);
    }
  }

  lemma {:induction false} DispsAt(blksize: nat, rs: seq<Record>, blist: seq<Block>, nb: nat, b: nat)
    requires b < nb <= |blist| && DispsOk(blksize, rs, blist, nb)
    ensures DispOk(blksize, rs, b, blist[b].disp)
  {
    if b < nb - 1 {
      DispsAt(blksize, rs, blist, nb - 1, b);
    }
  }

  lemma {:induction false} HisSame(blksize: nat, rs: seq<Record>, blist: seq<Block>, blist': seq<Block>, nb: nat)
    requires nb <= |blist| && nb <= |blist'| && HisOk(blksize, rs, blist, nb)
    requires forall b :: 0 <= b < nb ==> blist'[b].hi_record_nr == blist[b].hi_record_nr
    ensures HisOk(blksize, rs, blist', nb)
  {
    if nb != 0 {
      HisSame(blksize, rs, blist, blist', nb - 1);
    }
  }

  /** The same blocks with the same displacements; only record numbers may differ. */
  ghost predicate SameBlocks(a: seq<Block>, b: seq<Block>) {
    |a| == |b| && forall i :: 0 <= i < |a| ==> b[i].disk_addr == a[i].disk_addr && b[i].disp == a[i].disp
  }

  lemma {:induction false} SameAddrs(a: seq<Block>, b: seq<Block>)
    requires SameBlocks(a, b)
    ensures Addrs(a) == Addrs(b)
  {
    if a != [] {
      SameAddrs(a[..|a| - 1], b[..|b| - 1]);
    }
  }

  /** cache_variable_data_block: scan block number b and note the last record begun on it. */
  method CacheVariableDataBlock(disk: Disk, blksize: nat, linefeed: bool, nr_records: int, blist: seq<Block>,
                                b: nat, skip: nat, t: Scan, ghost g: Geo, ghost rs: seq<Record>, ghost f: seq<byte>)
    returns (t': Scan, blist': seq<Block>)
    requires g.Valid() && g == GeoOf(blksize, linefeed, blist) && OnDisk(disk, g, f) && Holds(f, rs)
    requires b < |blist| && nr_records == |rs| && Tight(blksize, |blist|, Pos(rs, |rs|))
    requires DispsOk(blksize, rs, blist, |blist|) && HisOk(blksize, rs, blist, b)
    requires skip < blksize
    requires if skip == 0 then ScanAt(g, rs, b, t) else AlignedAt(g, rs, b, skip, t)
    ensures ScanAt(g, rs, b + 1, t')
    ensures SameBlocks(blist, blist') && HisOk(blksize, rs, blist', b + 1)
  {
    AddrsAt(blist, b);
    DispsAt(blksize, rs, blist, |blist|, b);
    TimesMono(b, |blist| - 1, blksize);
    t' := WalkVarDataBlock(disk, blksize, linefeed, nr_records, Addr(blist[b].disk_addr, skip), blist[b].disp,
                           b, skip, t, g, rs, f);
    blist' := blist[b := blist[b].(hi_record_nr := t'.record + 1)];
    HisSame(blksize, rs, blist, blist', b);
  }

  /** Scan blocks from..: the loop of update_records, and with from == 0 the walk of cache_file over
      the data blocks. */
  method ScanBlocks(disk: Disk, blksize: nat, linefeed: bool, nr_records: int, blist0: seq<Block>,
                    from: nat, skip0: nat, t0: Scan,
                    ghost g: Geo, ghost rs: seq<Record>, ghost f: seq<byte>)
    returns (t: Scan, blist: seq<Block>)
    requires g.Valid() && g == GeoOf(blksize, linefeed, blist0) && OnDisk(disk, g, f) && Holds(f, rs)
    requires nr_records == |rs| && Tight(blksize, |blist0|, Pos(rs, |rs|))
    requires DispsOk(blksize, rs, blist0, |blist0|)
    requires from <= |blist0| && HisOk(blksize, rs, blist0, from)
    requires skip0 < blksize && (skip0 != 0 ==> from < |blist0|)
    requires if skip0 == 0 then ScanAt(g, rs, from, t0) else AlignedAt(g, rs, from, skip0, t0)
    ensures ScanAt(g, rs, |blist0|, t)
    ensures SameBlocks(blist0, blist) && HisOk(blksize, rs, blist, |blist|)
  {
    var skip := skip0;
    t, blist := t0, blist0;
    for i := from to |blist0|
      invariant SameBlocks(blist0, blist) && HisOk(blksize, rs, blist, i)
      invariant 0 <= skip < blksize && g == GeoOf(blksize, linefeed, blist)
      invariant DispsOk(blksize, rs, blist, |blist|)
      invariant if skip == 0 then ScanAt(g, rs, i, t) else i == from < |blist0| && AlignedAt(g, rs, i, skip, t)
    {
      ghost var was := blist;
      t, blist := CacheVariableDataBlock(disk, blksize, linefeed, nr_records, blist, i, skip, t, g, rs, f);
      SameAddrs(was, blist);
      DispsSame(blksize, rs, was, blist, |blist|);
      skip := 0;
    }
  }

  /** A finished append: the stream has grown by one record. */
  lemma {:induction false} Written(blksize: nat, lf: bool, o: Out, f: seq<byte>, rs: seq<Record>, r: Record)
    requires Paused(blksize, lf, o, f, rs, r, |r| + 2)
    ensures Pos(rs + [r], |rs| + 1) == Pos(rs, |rs|) + |r| + 2
    ensures Stored(o.disk, GeoOf(blksize, lf, o.blist), f, Stream(rs + [r])) && Holds(f, rs + [r])
    ensures Tight(blksize, |o.blist|, Pos(rs + [r], |rs| + 1))
    ensures DispsOk(blksize, rs + [r], o.blist, |o.blist|)
  {
    PosPrefix(rs, [r], |rs|);
    StreamAppend(rs, r);
    StreamLen(rs);
    assert Stream(rs + [r]) == Stream(rs) + Bytes(r);
    assert Sofar(rs, r, |r| + 2) == Stream(rs) + Bytes(r);
  }

  /** Record numbers of the blocks in front of the last record's header stay right. */
  lemma {:induction false} HisBefore(blksize: nat, rs: seq<Record>, r: Record, blist: seq<Block>, blist': seq<Block>,
                                     nb: nat, n: nat)
    requires n <= nb == |blist| <= |blist'| && His(blist) <= His(blist')
    requires HisOk(blksize, rs, blist, nb)
    requires 0 < |rs| && Times(n, blksize) <= Pos(rs, |rs| - 1)
    ensures HisOk(blksize, rs + [r], blist', n)
  {
    if n != 0 {
      HisBefore(blksize, rs, r, blist, blist', nb, n - 1);
      HisAt(blist, n - 1);
      HisAt(blist', n - 1);
      HisOkAt(blksize, rs, blist, nb, n - 1);
      var hi := blist[n - 1].hi_record_nr;
      assert hi < |rs|;
      PosPrefix(rs, [r], hi);
      if 0 < hi {
        PosPrefix(rs, [r], hi - 1);
      }
    }
  }

  lemma {:induction false} HisOkAt(blksize: nat, rs: seq<Record>, blist: seq<Block>, nb: nat, b: nat)
    requires b < nb <= |blist| && HisOk(blksize, rs, blist, nb)
    ensures HiOk(blksize, rs, b, blist[b].hi_record_nr)
  {
    if b < nb - 1 {
      HisOkAt(blksize, rs, blist, nb - 1, b);
    }
  }

  lemma {:induction false} AddrsNonZero(disk: Disk, g: Geo, f: seq<byte>)
    requires OnDisk(disk, g, f) && 0 !in disk
    ensures forall b :: 0 <= b < |g.addrs| ==> g.addrs[b] != 0
  {
    forall b | 0 <= b < |g.addrs|
      ensures g.addrs[b] != 0
    {
      OnDiskAt(disk, g, f, |g.addrs|, b);
    }
  }

  /** An empty table in front of block 0. */
  lemma {:induction false} ScanStart(g: Geo, rs: seq<Record>, rlist: seq<RecordInfo>)
    requires g.Valid() && |rlist| == |rs| && forall i :: 0 <= i < |rs| ==> rlist[i] == EmptyInfo
    ensures ScanAt(g, rs, 0, Scan(rlist, DataBlockStarted, -1, 0))
  {
  }

  /** update_records: rescan from the header of the record that was last before the append. */
  method UpdateRecords(blksize: nat, linefeed: bool, o: Out, rlist: seq<RecordInfo>, nr_records: int,
                       ghost o0: Out, ghost f0: seq<byte>, ghost rs: seq<Record>, ghost f: seq<byte>, ghost r: Record)
    returns (rlist': seq<RecordInfo>, blist': seq<Block>)
    requires Repr(blksize, linefeed, o0, rlist, f0, rs) && nr_records == |rs|
    requires Paused(blksize, linefeed, o, f, rs, r, |r| + 2)
    requires Grown(o0, o)
    ensures SameBlocks(o.blist, blist') && HisOk(blksize, rs + [r], blist', |blist'|)
    ensures TableAt(GeoOf(blksize, linefeed, o.blist), rs + [r], |o.blist|, |rs|, rlist')
  {
    ghost var rs', g, g' := rs + [r], GeoOf(blksize, linefeed, o0.blist), GeoOf(blksize, linefeed, o.blist);
    Written(blksize, linefeed, o, f, rs, r);
    var t := Scan(rlist + [EmptyInfo], DataBlockStarted, -1, 0);
    var bnr, skip := 0, 0;
    var rnr := nr_records - 1;
    if rnr >= 0 {
      AddrsNonZero(o0.disk, g, f0);
      var total;
      bnr, skip, total := FindLastHeader(blksize, linefeed, rlist, rnr, g, rs);
      t := Scan(rlist[rnr := EmptyInfo] + [EmptyInfo], DataBlockStarted, rnr - 1, total);
      Restart(g, g', rs, r, rlist, bnr, skip, t);
      HisBefore(blksize, rs, r, o0.blist, o.blist, |o0.blist|, bnr);
    } else {
      ScanStart(g', rs', t.rlist);
    }
    t, blist' := ScanBlocks(o.disk, blksize, linefeed, nr_records + 1, o.blist, bnr, skip, t, g', rs', f);
    rlist' := t.rlist;
    ScanEnd(g', rs', |o.blist|, t);
  }

  /** After the last block every record has been begun. */
  lemma {:induction false} ScanEnd(g: Geo, rs: seq<Record>, nb: nat, t: Scan)
    requires g.Valid() && nb <= |g.addrs| && ScanAt(g, rs, nb, t) && Pos(rs, |rs|) <= Times(nb, g.blksize)
    ensures t.record == |rs| - 1
  {
    if t.record + 1 < |rs| {
      PosMono(rs, t.record + 1, |rs|);
    }
  }

  /** After the rescan the tables describe the grown file. */
  lemma {:induction false} Updated(blksize: nat, lf: bool, o0: Out, o: Out, blist: seq<Block>, rlist: seq<RecordInfo>,
                                   f: seq<byte>, rs: seq<Record>, r: Record)
    requires Paused(blksize, lf, o, f, rs, r, |r| + 2) && Grown(o0, o)
    requires SameBlocks(o.blist, blist) && HisOk(blksize, rs + [r], blist, |blist|)
    requires 4 <= blksize <= 0xffff
    requires TableAt(GeoOf(blksize, lf, o.blist), rs + [r], |o.blist|, |rs|, rlist)
    ensures Repr(blksize, lf, o.(blist := blist), rlist, f, rs + [r])
    ensures Kept(o0, o.(blist := blist))
  {
    Written(blksize, lf, o, f, rs, r);
    SameAddrs(o.blist, blist);
    OwnIs(o.blist, blist);
    DispsSame(blksize, rs + [r], o.blist, blist, |blist|);
  }

  /** write_append: one record of 1..65535 bytes goes to the end of the file, and the tables follow. */
  method WriteAppend(blksize: nat, linefeed: bool, o: Out, rlist: seq<RecordInfo>, nr_records: int, buf: seq<byte>,
                     ghost f: seq<byte>, ghost rs: seq<Record>, ghost r: Record)
    returns (o': Out, rlist': seq<RecordInfo>, ghost f': seq<byte>)
    requires Repr(blksize, linefeed, o, rlist, f, rs) && nr_records == |rs| && buf == r
    ensures Repr(blksize, linefeed, o', rlist', f', rs + [r])
    ensures Kept(o, o')
  {
    var o1, last, nblocks := PrepareAppend(blksize, o, rlist, nr_records, |buf|, linefeed, f, rs, r);
    var o2;
    o2, f' := WriteRecord(blksize, o1, buf, last, nblocks, linefeed, f, rs, r);
    GrownSame(o, o1, o2);
    var blist;
    rlist', blist := UpdateRecords(blksize, linefeed, o2, rlist, nr_records, o, f, rs, f', r);
    Updated(blksize, linefeed, o, o2, blist, rlist', f', rs, r);
    o' := o2.(blist := blist);
  }

  lemma {:induction false} GrownSame(o: Out, o1: Out, o2: Out)
    requires o1.disk == o.disk && o1.blist == o.blist && Grown(o1, o2)
    ensures Grown(o, o2)
  {
  }

  // ----- the open file ----------------------------------------------------------------------

  /** No record is longer than bound. */
  ghost predicate Bounded(rs: seq<Record>, bound: int) {
    forall i :: 0 <= i < |rs| ==> |rs[i]| <= bound
  }

  /** The fields of an open file: write state and block list, record table, record count, longest
      record, logical size while open, and the read hint. */
  datatype Fields = Fields(out: Out, rlist: seq<RecordInfo>, nr_records: int, record_len: int,
                           session_size: int, next_record_hint: int)

  ghost predicate CountersOk(linefeed: bool, rs: seq<Record>, s: Fields) {
    && s.nr_records == |rs|
    && 0 <= s.record_len && Bounded(rs, s.record_len)
    && s.session_size == FileStart(rs, |rs|, if linefeed then 1 else 0)
    && 0 <= s.next_record_hint && (s.next_record_hint < s.nr_records || s.next_record_hint == 0)
  }

  /** The open file s stands for the records rs. */
  ghost predicate FileOk(blksize: nat, linefeed: bool, s: Fields, f: seq<byte>, rs: seq<Record>) {
    Repr(blksize, linefeed, s.out, s.rlist, f, rs) && CountersOk(linefeed, rs, s)
  }

  /** What the block list says of block b: the displacement is 0 where a record starts, and otherwise the number of
      bytes up to the end of the record from before, or 0xffffffff if that is not on this block; the record number is
      that of the records begun up to the end of the block. */
  lemma {:induction false} BlockListIs(blksize: nat, linefeed: bool, s: Fields, f: seq<byte>, rs: seq<Record>, b: nat)
    requires FileOk(blksize, linefeed, s, f, rs) && b < |s.out.blist|
    ensures forall k {:trigger Pos(rs, k)} :: 0 <= k <= |rs| && Pos(rs, k) == b * blksize ==> s.out.blist[b].disp == 0
    ensures forall k {:trigger Pos(rs, k)} :: 0 <= k < |rs| && Pos(rs, k) < b * blksize < Pos(rs, k) + 2 + |rs[k]| ==>
              var left := Pos(rs, k) + 2 + |rs[k]| - b * blksize;
              s.out.blist[b].disp == if blksize <= left then 0xffff_ffff else left
    ensures 0 <= s.out.blist[b].hi_record_nr <= |rs|
    ensures forall k {:trigger Pos(rs, k)} :: 0 <= k < |rs| ==>
              (k < s.out.blist[b].hi_record_nr <==> Pos(rs, k) < (b + 1) * blksize)
  {
    TimesIsMul(b, blksize);
    TimesIsMul(b + 1, blksize);
    DispsAt(blksize, rs, s.out.blist, |s.out.blist|, b);
    HisOkAt(blksize, rs, s.out.blist, |s.out.blist|, b);
    DispIs(blksize, rs, b, s.out.blist[b].disp);
    HiIs(blksize, rs, b, s.out.blist[b].hi_record_nr);
  }

  lemma {:induction false} DispIs(blksize: nat, rs: seq<Record>, b: nat, disp: int)
    requires DispOk(blksize, rs, b, disp)
    ensures forall k {:trigger Pos(rs, k)} :: 0 <= k <= |rs| && Pos(rs, k) == Times(b, blksize) ==> disp == 0
    ensures forall k {:trigger Pos(rs, k)} ::
              0 <= k < |rs| && Pos(rs, k) < Times(b, blksize) < Pos(rs, k) + 2 + |rs[k]| ==>
                var left := Pos(rs, k) + 2 + |rs[k]| - Times(b, blksize);
                disp == if blksize <= left then 0xffff_ffff else left
  {
    var base := Times(b, blksize);
    forall k | 0 <= k <= |rs| && Pos(rs, k) == base
      ensures disp == 0
    {
      assert StartsAt(rs, k, base);
    }
    forall k | 0 <= k < |rs| && Pos(rs, k) < base < Pos(rs, k) + 2 + |rs[k]|
      ensures disp == if blksize <= Pos(rs, k) + 2 + |rs[k]| - base then 0xffff_ffff
                      else Pos(rs, k) + 2 + |rs[k]| - base
    {
      assert Spans(rs, k, base);
    }
  }

  lemma {:induction false} HiIs(blksize: nat, rs: seq<Record>, b: nat, hi: int)
    requires HiOk(blksize, rs, b, hi)
    ensures forall k {:trigger Pos(rs, k)} :: 0 <= k < |rs| ==> (k < hi <==> Pos(rs, k) < Times(b + 1, blksize))
  {
    forall k | 0 <= k < |rs|
      ensures k < hi <==> Pos(rs, k) < Times(b + 1, blksize)
    {
      if k < hi {
        PosMono(rs, k, hi - 1);
      } else {
        PosMono(rs, hi, k);
      }
    }
  }

  lemma {:induction false} CountersAppend(linefeed: bool, rs: seq<Record>, r: Record, s: Fields, s': Fields)
    requires CountersOk(linefeed, rs, s)
    requires s'.nr_records == s.nr_records + 1 && s'.record_len == Max(s.record_len, |r|)
    requires s'.session_size == s.session_size + |r| + if linefeed then 1 else 0
    requires s'.next_record_hint == s.next_record_hint
    ensures CountersOk(linefeed, rs + [r], s')
  {
    FileStartPrefix(rs, [r], |rs|, if linefeed then 1 else 0);
  }

  /** do_write for a variable file: append, longest record, logical size. */
  method DoWrite(blksize: nat, linefeed: bool, s: Fields, buf: seq<byte>,
                 ghost f: seq<byte>, ghost rs: seq<Record>, ghost r: Record)
    returns (s': Fields, ghost f': seq<byte>)
    requires FileOk(blksize, linefeed, s, f, rs) && buf == r
    ensures FileOk(blksize, linefeed, s', f', rs + [r]) && Kept(s.out, s'.out)
    ensures s'.session_size == s.session_size + |buf| + if linefeed then 1 else 0
    ensures s'.record_len == Max(s.record_len, |buf|)
  {
    var o, rlist;
    o, rlist, f' := WriteAppend(blksize, linefeed, s.out, s.rlist, s.nr_records, buf, f, rs, r);
    var record_len, session_size := s.record_len, s.session_size;
    if |buf| > record_len {
      record_len := |buf|;
    }
    session_size := session_size + |buf|;
    if linefeed {
      session_size := session_size + 1;
    }
    s' := Fields(o, rlist, s.nr_records + 1, record_len, session_size, s.next_record_hint);
    CountersAppend(linefeed, rs, r, s, s');
  }
}
