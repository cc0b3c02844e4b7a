/** The size of a variable file from its last block alone, and opening a file from disk. */
module FileSize {
  import opened Arith
  import opened RecordStream
  import opened Scanner
  import opened Writer
  import opened VarFile

  /** The record at a stream offset. */
  lemma {:induction false} RecordAt(rs: seq<Record>, p: nat, n: nat) returns (k: nat)
    requires n <= |rs| && p < Pos(rs, n)
    ensures k < n && Pos(rs, k) <= p < Pos(rs, k + 1)
  {
    if Pos(rs, n - 1) <= p {
      k := n - 1;
    } else {
      k := RecordAt(rs, p, n - 1);
    }
  }

  /** The last block starts with the header of some record, behind what the displacement counts. */
  lemma {:induction false} LastBlock(blksize: nat, rs: seq<Record>, nb: nat, disp: int) returns (k: nat)
    requires 4 <= blksize <= 0xffff && 0 < nb && Tight(blksize, nb, Pos(rs, |rs|)) && DispOk(blksize, rs, nb - 1, disp)
    ensures disp == VAR_RECORD_SPANNED ==> Pos(rs, |rs|) == Times(nb, blksize)
    ensures disp != VAR_RECORD_SPANNED ==>
              0 <= disp < blksize && k <= |rs| && Pos(rs, k) == Times(nb - 1, blksize) + disp
  {
    var base := Times(nb - 1, blksize);
    k := RecordAt(rs, base, |rs|);
    if Pos(rs, k) == base {
      assert StartsAt(rs, k, base);
    } else {
      assert Spans(rs, k, base);
      PosMono(rs, k + 1, |rs|);
      k := k + 1;
    }
  }

  /** walk_last_var_data_block: bytes used by the records that start on the last block. */
  method WalkLastVarDataBlock(disk: Disk, blksize: nat, addr0: Addr,
                              ghost g: Geo, ghost f: seq<byte>, ghost rs: seq<Record>, ghost k0: nat)
    returns (total: int)
    requires g.Valid() && g.blksize == blksize && OnDisk(disk, g, f) && Holds(f, rs)
    requires 0 < |g.addrs| && Pos(rs, |rs|) <= Times(|g.addrs|, blksize) && k0 <= |rs|
    requires addr0.blk == g.addrs[|g.addrs| - 1] && 0 <= addr0.off <= blksize
    requires Pos(rs, k0) == Times(|g.addrs| - 1, blksize) + addr0.off
    ensures total == Pos(rs, |rs|) - Pos(rs, k0)
  {
    var left, addr := blksize - addr0.off, addr0;
    total := 0;
    ghost var k, b := k0, |g.addrs| - 1;
    while left >= 2
      invariant k0 <= k <= |rs| && 0 <= left <= blksize
      invariant addr == Addr(g.addrs[b], blksize - left)
      invariant Pos(rs, k) == Times(b, blksize) + addr.off && total == Pos(rs, k) - Pos(rs, k0)
    {
      NextLen(disk, g, rs, f, b, addr.off, k - 1);
      var len := WordAt(disk, addr);
      if len == 0 {
        return;
      }
      PosMono(rs, k + 1, |rs|);
      total := total + len + 2;
      left := left - (len + 2);
      addr := addr.Plus(len + 2);
      k := k + 1;
    }
    if k < |rs| {
      PosMono(rs, k, |rs|);
    }
  }

  /** get_file_size_variable: the stream length, from the address and displacement of the last block. */
  method FileSizeVariable(disk: Disk, blksize: nat, nr_blocks: nat, last: int, disp: int,
                          ghost g: Geo, ghost f: seq<byte>, ghost rs: seq<Record>)
    returns (total: int)
    requires g.Valid() && g.blksize == blksize && OnDisk(disk, g, f) && Holds(f, rs)
    requires nr_blocks == |g.addrs| && 0 < nr_blocks && Tight(blksize, nr_blocks, Pos(rs, |rs|))
    requires last == g.addrs[nr_blocks - 1] && DispOk(blksize, rs, nr_blocks - 1, disp)
    ensures total == Pos(rs, |rs|)
  {
    total := 0;
    ghost var k := LastBlock(blksize, rs, nr_blocks, disp);
    if disp == VAR_RECORD_SPANNED {
      total := blksize;
    } else {
      total := WalkLastVarDataBlock(disk, blksize, Addr(last, disp), g, f, rs, k);
      total := total + disp;
    }
    total := total + Times(nr_blocks - 1, blksize);
  }

  lemma {:induction false} StreamToLogical(rs: seq<Record>, k: nat, lf: nat)
    requires k <= |rs|
    ensures FileStart(rs, k, lf) == Pos(rs, k) - 2 * k + Times(k, lf)
  {
    if k != 0 {
      StreamToLogical(rs, k - 1, lf);
    }
  }

  lemma {:induction false} TimesUnit(k: nat, lf: nat)
    requires lf <= 1
    ensures Times(k, lf) == if lf == 1 then k else 0
  {
    if k != 0 {
      TimesUnit(k - 1, lf);
    }
  }

  /** get_file_size_logical: the sum of all record lengths, plus one per record in linefeed mode, read
      off the last block. */
  method FileSizeLogical(disk: Disk, blksize: nat, linefeed: bool, nr_records: nat, nr_blocks: nat, last: int,
                         disp: int,
                         ghost g: Geo, ghost f: seq<byte>, ghost rs: seq<Record>)
    returns (total: int)
    requires g.Valid() && g.blksize == blksize && OnDisk(disk, g, f) && Holds(f, rs)
    requires nr_records == |rs| && nr_blocks == |g.addrs| && Tight(blksize, nr_blocks, Pos(rs, |rs|))
    requires 0 < nr_blocks ==> last == g.addrs[nr_blocks - 1] && DispOk(blksize, rs, nr_blocks - 1, disp)
    ensures total == FileStart(rs, |rs|, if linefeed then 1 else 0)
  {
    ghost var lf := if linefeed then 1 else 0;
    if nr_records == 0 {
      return 0;
    }
    total := FileSizeVariable(disk, blksize, nr_blocks, last, disp, g, f, rs);
    total := total - nr_records * 2;
    if linefeed {
      total := total + nr_records;
    }
    StreamToLogical(rs, |rs|, lf);
    TimesUnit(|rs|, lf);
  }

  // ----- opening a file ---------------------------------------------------------------------

  /** A file as it is found on disk: the data pointers in order, and the counters of its directory entry. */
  ghost predicate OnDiskFile(disk: Disk, blksize: nat, ptrs: seq<Block>, nr_records: int, record_len: int,
                             f: seq<byte>, rs: seq<Record>) {
    && Stored(disk, GeoOf(blksize, false, ptrs), f, Stream(rs))
    && Tight(blksize, |ptrs|, Pos(rs, |rs|)) && DispsOk(blksize, rs, ptrs, |ptrs|)
    && nr_records == |rs| && 0 <= record_len && Bounded(rs, record_len)
  }

  lemma {:induction false} LinefeedFree(disk: Disk, blksize: nat, lf: bool, blist: seq<Block>, f: seq<byte>, n: nat)
    requires n <= |blist|
    ensures OnDiskTo(disk, GeoOf(blksize, lf, blist), f, n) == OnDiskTo(disk, GeoOf(blksize, false, blist), f, n)
  {
    if n != 0 {
      LinefeedFree(disk, blksize, lf, blist, f, n - 1);
    }
  }

  /** cache_file: the record table and the block list from the data pointers alone. */
  method CacheFile(disk: Disk, blksize: nat, linefeed: bool, nr_records: nat, ptrs: seq<Block>,
                   ghost f: seq<byte>, ghost rs: seq<Record>)
    returns (rlist: seq<RecordInfo>, blist: seq<Block>)
    requires Stored(disk, GeoOf(blksize, linefeed, ptrs), f, Stream(rs)) && nr_records == |rs|
    requires Tight(blksize, |ptrs|, Pos(rs, |rs|)) && DispsOk(blksize, rs, ptrs, |ptrs|)
    ensures TableAt(GeoOf(blksize, linefeed, ptrs), rs, |ptrs|, |rs| - 1, rlist)
    ensures SameBlocks(ptrs, blist) && HisOk(blksize, rs, blist, |blist|)
  {
    ghost var g := GeoOf(blksize, linefeed, ptrs);
    var t := Scan(seq(nr_records, _ => EmptyInfo), DataBlockStarted, -1, 0);
    ScanStart(g, rs, t.rlist);
    t, blist := ScanBlocks(disk, blksize, linefeed, nr_records, ptrs, 0, 0, t, g, rs, f);
    ScanEnd(g, rs, |ptrs|, t);
    rlist := t.rlist;
  }

  lemma {:induction false} HiUnique(blksize: nat, rs: seq<Record>, b: nat, h: int, h': int)
    requires HiOk(blksize, rs, b, h) && HiOk(blksize, rs, b, h')
    ensures h == h'
  {
    if h < h' {
      PosMono(rs, h, h' - 1);
    } else if h' < h {
      PosMono(rs, h', h - 1);
    }
  }

  /** Addresses, displacements and records together fix the record numbers of the blocks. */
  lemma {:induction false} ListUnique(blksize: nat, rs: seq<Record>, bl: seq<Block>, bl': seq<Block>)
    requires SameBlocks(bl, bl') && HisOk(blksize, rs, bl, |bl|) && HisOk(blksize, rs, bl', |bl'|)
    ensures bl == bl'
  {
    forall b | 0 <= b < |bl|
      ensures bl[b] == bl'[b]
    {
      HisOkAt(blksize, rs, bl, |bl|, b);
      HisOkAt(blksize, rs, bl', |bl'|, b);
      HiUnique(blksize, rs, b, bl[b].hi_record_nr, bl'[b].hi_record_nr);
    }
  }

  /** The tables kept up by appends, each rescanning from the last record only, are the tables a scan of
      the whole file produces: record for record and block for block. */
  method IncrementalIsFull(blksize: nat, linefeed: bool, s: Fields, ptrs: seq<Block>, ghost f: seq<byte>,
                           ghost rs: seq<Record>)
    returns (rlist: seq<RecordInfo>, blist: seq<Block>)
    requires FileOk(blksize, linefeed, s, f, rs) && SameBlocks(s.out.blist, ptrs)
    ensures rlist == s.rlist && blist == s.out.blist
  {
    SameAddrs(s.out.blist, ptrs);
    DispsSame(blksize, rs, s.out.blist, ptrs, |ptrs|);
    rlist, blist := CacheFile(s.out.disk, blksize, linefeed, s.nr_records, ptrs, f, rs);
    ListUnique(blksize, rs, s.out.blist, blist);
  }

  /** create_file_object and cmsfs_open: whatever records the disk holds, the open file stands for them,
      ready for further appends. */
  method Open(disk: Disk, blksize: nat, linefeed: bool, ptrs: seq<Block>, nr_records: nat, record_len: int,
              session_size: int,
              ghost f: seq<byte>, ghost rs: seq<Record>)
    returns (s: Fields)
    requires OnDiskFile(disk, blksize, ptrs, nr_records, record_len, f, rs)
    requires session_size == FileStart(rs, |rs|, if linefeed then 1 else 0)
    ensures FileOk(blksize, linefeed, s, f, rs) && s.out.disk == disk && SameBlocks(ptrs, s.out.blist)
    ensures s.nr_records == nr_records && s.record_len == record_len
  {
    LinefeedFree(disk, blksize, linefeed, ptrs, f, |ptrs|);
    var rlist, blist := CacheFile(disk, blksize, linefeed, nr_records, ptrs, f, rs);
    SameAddrs(ptrs, blist);
    DispsSame(blksize, rs, ptrs, blist, |blist|);
    var out := Out(disk, blist, NULL_ADDR, BlockNotInit, 0, RecComplete, 0);
    s := Fields(out, rlist, nr_records, record_len, session_size, 0);
  }

  /** Every open file could be opened again from what it leaves on disk, and nothing would be lost. */
  lemma {:induction false} FileIsOnDisk(blksize: nat, linefeed: bool, s: Fields, f: seq<byte>, rs: seq<Record>)
    requires FileOk(blksize, linefeed, s, f, rs)
    ensures OnDiskFile(s.out.disk, blksize, s.out.blist, s.nr_records, s.record_len, f, rs)
  {
    LinefeedFree(s.out.disk, blksize, linefeed, s.out.blist, f, |s.out.blist|);
  }
}
