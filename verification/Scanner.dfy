/** The record scanner: one pass over the data blocks of a variable file rebuilds the
    table of its records.  Blocks are read from a disk value; the table, the state
    machine and the running total travel in a Scan. */
module Scanner {
  import opened Arith
  import opened RecordStream

  /** Upper half of a length, from a header cut by the end of the block. */
  function SetRecordLenUpper(t: Scan, half: byte): Scan
    requires 0 <= t.record < |t.rlist| && InData(t.state)
  {
    t.(rlist := t.rlist[t.record := t.rlist[t.record].(total_len := Word(half, 0))], state := HeaderStarted)
  }

  function SetRecordLenLower(t: Scan, half: byte): Scan
    requires 0 <= t.record < |t.rlist| && t.state == HeaderStarted
  {
    var r := t.rlist[t.record];
    t.(rlist := t.rlist[t.record := r.(total_len := r.total_len + half as int)], state := HeaderComplete)
  }

  function SetRecordLen(t: Scan, len: int): Scan
    requires 0 <= t.record < |t.rlist| && InData(t.state)
  {
    t.(rlist := t.rlist[t.record := t.rlist[t.record].(total_len := len)], state := HeaderComplete)
  }

  function SetRecord(t: Scan, linefeed: bool, addr: Addr, len: int, block: int): Scan
    requires 0 <= t.record < |t.rlist| && t.state == HeaderComplete
  {
    var start := if linefeed && t.record != 0 then t.total + 1 else t.total;
    var r := t.rlist[t.record].(first_block_len := len, disk_start := addr, block_nr := block, file_start := start);
    t.(rlist := t.rlist[t.record := r], total := start + r.total_len, state := DataBlockStarted)
  }

  function SetRecordExtension(t: Scan, addr: Addr, len: int, block: int): Scan
    requires 0 <= t.record < |t.rlist| && InData(t.state)
  {
    var r := t.rlist[t.record];
    t.(rlist := t.rlist[t.record := r.(ext := r.ext + [Ext(addr, len, block)])], state := DataBlockExt)
  }

  /** The data of the current record begins on block b, off bytes in. */
  lemma {:induction false} PieceFirst(g: Geo, rs: seq<Record>, b: nat, off: nat, was: Scan, t: Scan, len: int)
    requires g.Valid() && b < |g.addrs| && off < 2
    requires 0 <= t.record == was.record && TableAt(g, rs, b, was.record, was.rlist)
    requires t.state == HeaderComplete && t.total == TotalThrough(g, rs, t.record - 1)
    requires Pos(rs, t.record) + 2 == Times(b, g.blksize) + off && len == Min(|rs[t.record]|, g.blksize - off)
    requires t.rlist == was.rlist[t.record := EmptyInfo.(total_len := |rs[t.record]|)]
    ensures PieceDone(g, rs, b, off + len, SetRecord(t, g.linefeed, Addr(g.addrs[b], off), len, b))
  {
    var k := t.record;
    EnterFirst(g, rs, b, k, off, was.rlist);
    TotalStep(g, rs, k);
    assert SetRecord(t, g.linefeed, Addr(g.addrs[b], off), len, b).rlist ==
           was.rlist[k := RecordInfo(|rs[k]|, Addr(g.addrs[b], off), len, FileStart(rs, k, g.Lf()), [], b)];
  }

  /** The data of the current record goes on from an earlier block. */
  lemma {:induction false} PieceExt(g: Geo, rs: seq<Record>, b: nat, t: Scan, len: int)
    requires g.Valid() && b < |g.addrs| && 0 <= t.record
    requires TableAt(g, rs, b, t.record, t.rlist)
    requires InData(t.state) && t.total == TotalThrough(g, rs, t.record)
    requires Pos(rs, t.record) + 2 < Times(b, g.blksize) < Pos(rs, t.record + 1)
    requires len == Min(g.blksize, Pos(rs, t.record + 1) - Times(b, g.blksize))
    ensures PieceDone(g, rs, b, len, SetRecordExtension(t, Addr(g.addrs[b], 0), len, b))
  {
    EnterExt(g, rs, b, t.record, t.rlist);
  }

  /** The current record has been followed through block b up to offset off. */
  ghost predicate PieceDone(g: Geo, rs: seq<Record>, b: nat, off: int, t: Scan)
    requires g.Valid() && b < |g.addrs|
  {
    && 0 <= t.record && TableAt(g, rs, b + 1, t.record, t.rlist)
    && InData(t.state) && t.total == TotalThrough(g, rs, t.record)
    && Pos(rs, t.record) + 2 < Times(b + 1, g.blksize)
    && off == Min(g.blksize, Pos(rs, t.record + 1) - Times(b, g.blksize))
  }

  /** How much of block b a displacement stands for. */
  lemma {:induction false} PieceLen(g: Geo, rs: seq<Record>, b: nat, disp: int, t: Scan)
    requires g.Valid() && b < |g.addrs| && ScanAt(g, rs, b, t)
    requires 0 <= t.record && Times(b, g.blksize) < Pos(rs, t.record + 1)
    requires DispOk(g.blksize, rs, b, disp)
    ensures (if disp == VAR_RECORD_SPANNED then g.blksize else disp)
            == Min(g.blksize, Pos(rs, t.record + 1) - Times(b, g.blksize))
    ensures disp != VAR_RECORD_SPANNED <==> Pos(rs, t.record + 1) < Times(b + 1, g.blksize)
  {
    assert Spans(rs, t.record, Times(b, g.blksize));
  }

  /** Where the record scanned last stands at the start of block b, and what its entry holds. */
  lemma {:induction false} StateCases(g: Geo, rs: seq<Record>, b: nat, t: Scan)
    requires g.Valid() && b < |g.addrs| && ScanAt(g, rs, b, t) && 0 <= t.record
    ensures t.state == HeaderStarted ==>
              && Pos(rs, t.record) + 1 == Times(b, g.blksize)
              && t.rlist[t.record] == EmptyInfo.(total_len := Word(Hi(|rs[t.record]|), 0))
    ensures t.state == HeaderComplete ==>
              && Pos(rs, t.record) + 2 == Times(b, g.blksize)
              && t.rlist[t.record] == EmptyInfo.(total_len := |rs[t.record]|)
    ensures InData(t.state) ==> Pos(rs, t.record) + 2 < Times(b, g.blksize)
  {
    var k := t.record;
    if t.state == HeaderStarted {
      QuotIs(Times(b, g.blksize) + 1, g.blksize, b);
    } else if t.state == HeaderComplete {
      QuotIs(Times(b, g.blksize), g.blksize, b);
    }
  }

  /** The part of a block that belongs to the record begun before it (disp != 0). */
  method ContinueRecord(disk: Disk, blksize: nat, linefeed: bool,
                        addr0: Addr, disp: int, block: nat, t0: Scan,
                        ghost g: Geo, ghost rs: seq<Record>, ghost f: seq<byte>)
    returns (t: Scan, addr: Addr, left: int)
    requires g.Valid() && g.blksize == blksize && g.linefeed == linefeed && OnDisk(disk, g, f) && Holds(f, rs)
    requires block < |g.addrs| && addr0 == Addr(g.addrs[block], 0)
    requires ScanAt(g, rs, block, t0)
    requires 0 <= t0.record && Times(block, blksize) < Pos(rs, t0.record + 1)
    requires DispOk(blksize, rs, block, disp)
    ensures addr == Addr(g.addrs[block], blksize - left)
    ensures t.record == t0.record && PieceDone(g, rs, block, blksize - left, t)
  {
    StateCases(g, rs, block, t0);
    PieceLen(g, rs, block, disp, t0);
    var len := if disp == VAR_RECORD_SPANNED then blksize else disp;
    t, addr, left := t0, addr0, blksize;

    if t.state == HeaderStarted {
      SplitHeaderAt(disk, g, rs, f, block, t.record);
      WordOfHalves(|rs[t.record]|);
      t := SetRecordLenLower(t, ByteAt(disk, addr));
      left := left - 1;
      len := len - 1;
      addr := addr.Plus(1);
    }
    if t.state == HeaderComplete {
      PieceFirst(g, rs, block, blksize - left, t0, t, len);
      t := SetRecord(t, linefeed, addr, len, block);
    } else {
      PieceExt(g, rs, block, t, len);
      t := SetRecordExtension(t, addr, len, block);
    }
    left := left - len;
    addr := addr.Plus(len);
  }

  /** A record followed to the end of the block, or to its own end within it. */
  lemma {:induction false} PieceScanned(g: Geo, rs: seq<Record>, b: nat, off: nat, t: Scan)
    requires g.Valid() && b < |g.addrs| && PieceDone(g, rs, b, off, t)
    ensures Times(b + 1, g.blksize) <= Pos(rs, t.record + 1) ==> ScanAt(g, rs, b + 1, t)
    ensures Pos(rs, t.record + 1) < Times(b + 1, g.blksize) ==> AlignedAt(g, rs, b, off, t)
  {
  }

  /** A new record whose header and first data byte are on this block. */
  lemma {:induction false} EnterNew(g: Geo, rs: seq<Record>, b: nat, off: nat, t0: Scan)
    requires g.Valid() && b < |g.addrs| && off + 3 <= g.blksize
    requires AlignedAt(g, rs, b, off, t0) && t0.record + 1 < |rs|
    ensures var n := |rs[t0.record + 1]|;
            var len := Min(n, g.blksize - off - 2);
            var t := SetRecord(SetRecordLen(t0.(record := t0.record + 1), n), g.linefeed, Addr(g.addrs[b], off + 2),
                len, b);
            if off + 2 + n <= g.blksize then AlignedAt(g, rs, b, off + 2 + n, t) else ScanAt(g, rs, b + 1, t)
  {
    var k := t0.record + 1;
    var n := |rs[k]|;
    var len := Min(n, g.blksize - off - 2);
    NewFirst(g, rs, b, k, t0.rlist);
    TotalStep(g, rs, k);
    var t := SetRecord(SetRecordLen(t0.(record := k), n), g.linefeed, Addr(g.addrs[b], off + 2), len, b);
    assert t.rlist == t0.rlist[k := RecordInfo(n, Addr(g.addrs[b], off + 2), len, FileStart(rs, k, g.Lf()), [], b)];
  }

  /** A header in the last two bytes of the block. */
  lemma {:induction false} EnterHeader(g: Geo, rs: seq<Record>, b: nat, t0: Scan)
    requires g.Valid() && b < |g.addrs|
    requires AlignedAt(g, rs, b, g.blksize - 2, t0) && t0.record + 1 < |rs|
    ensures ScanAt(g, rs, b + 1, SetRecordLen(t0.(record := t0.record + 1), |rs[t0.record + 1]|))
  {
    NewHeaderOnly(g, rs, b, t0.record + 1, t0.rlist);
  }

  /** Half a header in the last byte of the block. */
  lemma {:induction false} EnterHalfHeader(g: Geo, rs: seq<Record>, b: nat, t0: Scan)
    requires g.Valid() && b < |g.addrs|
    requires AlignedAt(g, rs, b, g.blksize - 1, t0) && t0.record + 1 < |rs|
    ensures ScanAt(g, rs, b + 1, SetRecordLenUpper(t0.(record := t0.record + 1), Hi(|rs[t0.record + 1]|)))
  {
    NewHeaderOnly(g, rs, b, t0.record + 1, t0.rlist);
  }

  /** At most two bytes are left on the block: a whole header, half of one, or nothing. */
  method ScanTail(disk: Disk, blksize: nat, nr_records: int, addr: Addr, left: int, block: nat, t0: Scan,
                  ghost g: Geo, ghost rs: seq<Record>, ghost f: seq<byte>)
    returns (t: Scan)
    requires g.Valid() && g.blksize == blksize && OnDisk(disk, g, f) && Holds(f, rs)
    requires block < |g.addrs| && nr_records == |rs| && 0 <= left <= 2
    requires addr == Addr(g.addrs[block], blksize - left)
    requires AlignedAt(g, rs, block, blksize - left, t0)
    ensures ScanAt(g, rs, block + 1, t)
  {
    t := t0;
    if t.record == |rs| - 1 || left == 0 {
      AlignedEnd(g, rs, block, blksize - left, t);
    }
    if left == 2 {
      NextLen(disk, g, rs, f, block, blksize - left, t.record);
      var len := WordAt(disk, addr);
      if len != 0 {
        EnterHeader(g, rs, block, t);
        t := SetRecordLen(t.(record := t.record + 1), len);
      }
    } else if left == 1 {
      if t.record != nr_records - 1 {
        HalfHeaderAt(disk, g, rs, f, block, t.record + 1);
        EnterHalfHeader(g, rs, block, t);
        t := SetRecordLenUpper(t.(record := t.record + 1), ByteAt(disk, addr));
      }
    }
  }

  /** One more record of the block; its data may run past the block end. */
  method EnterRecord(blksize: nat, linefeed: bool, len0: int, addr0: Addr, left0: int, block: nat, t0: Scan,
                     ghost g: Geo, ghost rs: seq<Record>)
    returns (t: Scan, addr: Addr, left: int)
    requires g.Valid() && g.blksize == blksize && g.linefeed == linefeed
    requires block < |g.addrs| && 3 <= left0 <= blksize
    requires addr0 == Addr(g.addrs[block], blksize - left0)
    requires AlignedAt(g, rs, block, blksize - left0, t0)
    requires t0.record + 1 < |rs| && len0 == |rs[t0.record + 1]|
    ensures left == Max(0, left0 - 2 - len0) && addr == Addr(g.addrs[block], blksize - left)
    ensures if left0 - 2 < len0 then ScanAt(g, rs, block + 1, t) else AlignedAt(g, rs, block, blksize - left, t)
  {
    EnterNew(g, rs, block, blksize - left0, t0);
    t := SetRecordLen(t0.(record := t0.record + 1), len0);
    left := left0 - 2;
    addr := addr0.Plus(2);
    var len := len0;
    if left < len {
      len := left;
    }
    t := SetRecord(t, linefeed, addr, len, block);
    left := left - len;
    addr := addr.Plus(len);
  }

  /** All headers of a block, from the first one on. */
  method ScanHeaders(disk: Disk, blksize: nat, linefeed: bool, nr_records: int,
                     addr0: Addr, left0: int, block: nat, t0: Scan,
                     ghost g: Geo, ghost rs: seq<Record>, ghost f: seq<byte>)
    returns (t: Scan)
    requires g.Valid() && g.blksize == blksize && g.linefeed == linefeed && OnDisk(disk, g, f) && Holds(f, rs)
    requires block < |g.addrs| && nr_records == |rs| && 0 <= left0 <= blksize
    requires addr0 == Addr(g.addrs[block], blksize - left0)
    requires AlignedAt(g, rs, block, blksize - left0, t0)
    ensures ScanAt(g, rs, block + 1, t)
  {
    var addr, left := addr0, left0;
    t := t0;
    ghost var spilled := false;
    while left >= 3
      invariant 0 <= left <= blksize && addr == Addr(g.addrs[block], blksize - left)
      invariant if spilled then left == 0 && ScanAt(g, rs, block + 1, t) else AlignedAt(g, rs, block, blksize - left, t)
    {
      NextLen(disk, g, rs, f, block, blksize - left, t.record);
      var len := WordAt(disk, addr);
      if len == 0 {
        AlignedEnd(g, rs, block, blksize - left, t);
        return;
      }
      spilled := left - 2 < len;
      t, addr, left := EnterRecord(blksize, linefeed, len, addr, left, block, t, g, rs);
    }
    if left > 0 {
      t := ScanTail(disk, blksize, nr_records, addr, left, block, t, g, rs, f);
    } else if !spilled {
      AlignedEnd(g, rs, block, blksize, t);
    }
  }

  /** walk_var_data_block: a block scanned from its start, or from a record header skip bytes in. */
  method WalkVarDataBlock(disk: Disk, blksize: nat, linefeed: bool, nr_records: int,
                          addr0: Addr, disp0: int, block: nat, skip: nat, t0: Scan,
                          ghost g: Geo, ghost rs: seq<Record>, ghost f: seq<byte>)
    returns (t: Scan)
    requires g.Valid() && g.blksize == blksize && g.linefeed == linefeed && OnDisk(disk, g, f) && Holds(f, rs)
    requires block < |g.addrs| && nr_records == |rs| && Times(block, blksize) < Pos(rs, |rs|)
    requires skip < blksize && addr0 == Addr(g.addrs[block], skip)
    requires DispOk(blksize, rs, block, disp0)
    requires if skip == 0 then ScanAt(g, rs, block, t0) else AlignedAt(g, rs, block, skip, t0)
    ensures ScanAt(g, rs, block + 1, t)
  {
    var left := blksize - skip;
    var disp := disp0;
    if skip != 0 {
      disp := 0;
    }
    t := t0;
    var addr := addr0;
    if disp != 0 {
      PendingAt(g, rs, block, disp, t);
      PieceLen(g, rs, block, disp, t);
      t, addr, left := ContinueRecord(disk, blksize, linefeed, addr, disp, block, t, g, rs, f);
      PieceScanned(g, rs, block, blksize - left, t);
      if disp == VAR_RECORD_SPANNED {
        return;
      }
    } else if skip == 0 {
      NothingPendingAt(g, rs, block, t);
      AlignedStart(g, rs, block, t);
    }
    t := ScanHeaders(disk, blksize, linefeed, nr_records, addr, left, block, t, g, rs, f);
  }

  /** A displacement says that the record scanned last goes on in this block. */
  lemma {:induction false} PendingAt(g: Geo, rs: seq<Record>, b: nat, disp: int, t: Scan)
    requires g.Valid() && b < |g.addrs| && ScanAt(g, rs, b, t)
    requires Times(b, g.blksize) < Pos(rs, |rs|)
    requires DispOk(g.blksize, rs, b, disp) && disp != 0
    ensures 0 <= t.record && Times(b, g.blksize) < Pos(rs, t.record + 1)
  {
    assert !StartsAt(rs, t.record + 1, Times(b, g.blksize));
  }

  /** No displacement: a header starts the block. */
  lemma {:induction false} NothingPendingAt(g: Geo, rs: seq<Record>, b: nat, t: Scan)
    requires g.Valid() && b < |g.addrs| && ScanAt(g, rs, b, t)
    requires Times(b, g.blksize) < Pos(rs, |rs|)
    requires DispOk(g.blksize, rs, b, 0)
    ensures Pos(rs, t.record + 1) == Times(b, g.blksize)
  {
    assert 0 <= t.record ==> !Spans(rs, t.record, Times(b, g.blksize));
  }
}
