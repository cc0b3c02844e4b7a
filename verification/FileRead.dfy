/** Reading an open variable file: locating a record from a byte offset with a hint and a guess,
    finding the disk bytes of an offset inside a record, and copying a range of the file. */
module FileRead {
  import opened Arith
  import opened RecordStream
  import opened Writer
  import opened VarFile

  // ----- locating a record ----------------------------------------------------------------

  datatype Found = InRecord(nr: int) | Linefeed | NotFound

  /** The linear search: the first record, from i on, that holds the offset or the linefeed there. */
  function Locate(rs: seq<Record>, lf: nat, off: int, i: nat): Found
    requires i <= |rs|
    decreases |rs| - i
  {
    if i == |rs| then NotFound
    else if FileStart(rs, i, lf) <= off < FileStart(rs, i, lf) + |rs[i]| then InRecord(i)
    else if lf == 1 && off == FileStart(rs, i, lf) + |rs[i]| then Linefeed
    else Locate(rs, lf, off, i + 1)
  }

  lemma {:induction false} FileStartMono(rs: seq<Record>, i: nat, j: nat, lf: nat)
    requires i <= j <= |rs|
    ensures FileStart(rs, i, lf) <= FileStart(rs, j, lf)
    ensures i < j ==> FileStart(rs, i, lf) + |rs[i]| + lf <= FileStart(rs, j, lf)
  {
    if i < j {
      FileStartMono(rs, i, j - 1, lf);
    }
  }

  /** Records that end before the offset can be skipped. */
  lemma {:induction false} LocateSkip(rs: seq<Record>, lf: nat, off: int, i: nat, j: nat)
    requires i <= j <= |rs| && lf <= 1 && FileStart(rs, j, lf) <= off
    ensures Locate(rs, lf, off, i) == Locate(rs, lf, off, j)
    decreases j - i
  {
    if i < j {
      FileStartMono(rs, i, j, lf);
      LocateSkip(rs, lf, off, i + 1, j);
    }
  }

  /** The record, or the linefeed behind it, that the offset lies in is the one found. */
  lemma {:induction false} LocateAt(rs: seq<Record>, lf: nat, off: int, i: nat)
    requires i < |rs| && lf <= 1
    requires FileStart(rs, i, lf) <= off < FileStart(rs, i, lf) + |rs[i]| + lf
    ensures Locate(rs, lf, off, 0) == if off < FileStart(rs, i, lf) + |rs[i]| then InRecord(i) else Linefeed
  {
    LocateSkip(rs, lf, off, 0, i);
  }

  /** What the search needs of the record table. */
  ghost predicate StartsOk(rlist: seq<RecordInfo>, rs: seq<Record>, lf: nat) {
    && |rlist| == |rs|
    && forall i {:trigger rlist[i]} :: 0 <= i < |rs| ==>
         rlist[i].file_start == FileStart(rs, i, lf) && rlist[i].total_len == |rs[i]|
  }

  predicate OffsetInRecord(off: int, r: RecordInfo) {
    r.file_start <= off < r.file_start + r.total_len
  }

  predicate OffsetIsLinefeed(off: int, prev: RecordInfo, next: RecordInfo) {
    off < next.file_start && prev.file_start + prev.total_len <= off
  }

  /** guess_record_number: the record the offset would lie in if all were of maximal length. */
  function GuessRecordNumber(nr_records: int, record_len: nat, lf: nat, off: nat): (nr: int)
    requires 0 < nr_records && 0 < record_len + lf
    ensures 0 <= nr < nr_records
  {
    var nr := Quot(off, record_len + lf);
    if nr >= nr_records then nr_records - 1 else nr
  }

  /** The guess was cut down to the last record, and even that starts behind the offset. */
  ghost predicate Overshot(rs: seq<Record>, record_len: nat, lf: nat, off: nat)
    requires 0 < |rs| && 0 < record_len + lf
  {
    |rs| - 1 <= off / (record_len + lf) && off < FileStart(rs, |rs| - 1, lf)
  }

  /** The hint answers the question before any guess is made. */
  ghost predicate HintHits(rs: seq<Record>, lf: nat, hint: nat, off: nat)
    requires hint < |rs|
  {
    || FileStart(rs, hint, lf) <= off < FileStart(rs, hint, lf) + |rs[hint]|
    || (lf == 1 && 0 < hint && off == FileStart(rs, hint - 1, lf) + |rs[hint - 1]|)
  }

  lemma {:induction false} GuessBelow(rs: seq<Record>, record_len: nat, lf: nat, k: nat)
    requires k <= |rs| && Bounded(rs, record_len)
    ensures FileStart(rs, k, lf) <= Times(k, record_len + lf)
  {
    if k != 0 {
      GuessBelow(rs, record_len, lf, k - 1);
    }
  }

  /** If record_len bounds every record, the guess never lies behind the record sought. */
  lemma {:induction false} NeverOvershot(rs: seq<Record>, record_len: nat, lf: nat, off: nat)
    requires 0 < |rs| && 0 < record_len + lf && Bounded(rs, record_len)
    ensures FileStart(rs, GuessRecordNumber(|rs|, record_len, lf, off), lf) <= off
    ensures !Overshot(rs, record_len, lf, off)
  {
    var q, nr := Quot(off, record_len + lf), GuessRecordNumber(|rs|, record_len, lf, off);
    QuotIsDiv(off, record_len + lf);
    QuotOf(off, record_len + lf);
    TimesMono(nr, q, record_len + lf);
    GuessBelow(rs, record_len, lf, nr);
  }

  function SetHint(nr_records: int, hint: int): int {
    if hint >= nr_records then nr_records - 1 else hint
  }

  /** The search upwards from a record that does not start behind the offset. */
  method SearchUp(rlist: seq<RecordInfo>, nr_records: int, linefeed: bool, off: nat, start: nat, ghost rs: seq<Record>)
    returns (res: Found)
    requires StartsOk(rlist, rs, if linefeed then 1 else 0) && nr_records == |rs| && start < |rs|
    requires rlist[start].file_start <= off
    ensures res == Locate(rs, if linefeed then 1 else 0, off, 0)
  {
    ghost var lf := if linefeed then 1 else 0;
    LocateSkip(rs, lf, off, 0, start);
    var i := start;
    while true
      invariant start <= i < |rs| && FileStart(rs, i, lf) <= off
      invariant Locate(rs, lf, off, 0) == Locate(rs, lf, off, i)
      decreases |rs| - i
    {
      if OffsetInRecord(off, rlist[i]) {
        return InRecord(i);
      }
      if i == nr_records - 1 {
        if linefeed && off == rlist[i].file_start + rlist[i].total_len {
          return Linefeed;
        }
        assert Locate(rs, lf, off, i + 1) == NotFound;
        return NotFound;
      }
      if OffsetIsLinefeed(off, rlist[i], rlist[i + 1]) {
        return Linefeed;
      }
      i := i + 1;
    }
  }

  /** The search downwards from a record, not the last, that starts behind the offset. */
  method SearchDown(rlist: seq<RecordInfo>, nr_records: int, linefeed: bool, off: nat, start: nat,
                    ghost rs: seq<Record>)
    returns (res: Found)
    requires StartsOk(rlist, rs, if linefeed then 1 else 0) && nr_records == |rs| && start < |rs|
    requires off < rlist[start].file_start
    ensures res == if start == |rs| - 1 then NotFound else Locate(rs, if linefeed then 1 else 0, off, 0)
  {
    ghost var lf := if linefeed then 1 else 0;
    var i := start;
    while true
      invariant 0 <= i <= start && (i < start ==> start < |rs| - 1)
      invariant off < FileStart(rs, i, lf) + |rs[i]|
      invariant i == start ==> off < FileStart(rs, i, lf)
      decreases i
    {
      if OffsetInRecord(off, rlist[i]) {
        LocateAt(rs, lf, off, i);
        return InRecord(i);
      }
      if i == nr_records - 1 {
        return NotFound;
      }
      if OffsetIsLinefeed(off, rlist[i - 1], rlist[i]) {
        LocateAt(rs, lf, off, i - 1);
        return Linefeed;
      }
      i := i - 1;
    }
  }

  /** find_record, for any record_len and any hint: the linear search, except that a guess cut down to
      a last record that lies behind the offset gives up. */
  method FindRecord(rlist: seq<RecordInfo>, nr_records: int, record_len: nat, linefeed: bool, hint: nat, off: nat,
                    ghost rs: seq<Record>)
    returns (res: Found, hint': int)
    requires StartsOk(rlist, rs, if linefeed then 1 else 0) && nr_records == |rs| && hint < |rs|
    requires 0 < record_len || linefeed
    ensures var lf := if linefeed then 1 else 0;
            res == if Overshot(rs, record_len, lf, off) && !HintHits(rs, lf, hint, off) then NotFound
                   else Locate(rs, lf, off, 0)
    ensures var lf := if linefeed then 1 else 0;
            res == Locate(rs, lf, off, 0) <==> !Overshot(rs, record_len, lf, off) || HintHits(rs, lf, hint, off)
    ensures 0 <= hint' < |rs| && hint' == if res.InRecord? then Min(res.nr + 1, |rs| - 1) else hint
  {
    ghost var lf := if linefeed then 1 else 0;
    hint' := hint;
    if OffsetInRecord(off, rlist[hint]) {
      LocateAt(rs, lf, off, hint);
      return InRecord(hint), SetHint(nr_records, hint + 1);
    }
    if linefeed && 0 < hint {
      if OffsetIsLinefeed(off, rlist[hint - 1], rlist[hint]) {
        LocateAt(rs, lf, off, hint - 1);
        return Linefeed, hint;
      }
    }
    QuotIsDiv(off, record_len + lf);
    var start := GuessRecordNumber(nr_records, record_len, if linefeed then 1 else 0, off);
    if off < rlist[start].file_start {
      res := SearchDown(rlist, nr_records, linefeed, off, start, rs);
    } else {
      res := SearchUp(rlist, nr_records, linefeed, off, start, rs);
    }
    LocateRange(rs, lf, off, 0);
    if Overshot(rs, record_len, lf, off) {
      LocateInside(rs, lf, off, |rs| - 1);
    }
    if res.InRecord? {
      hint' := SetHint(nr_records, res.nr + 1);
    }
  }

  /** Whatever the search returns is where the offset lies. */
  lemma {:induction false} LocateRange(rs: seq<Record>, lf: nat, off: int, i: nat)
    requires i <= |rs|
    ensures var res := Locate(rs, lf, off, i);
            res.InRecord? ==>
              i <= res.nr < |rs| && FileStart(rs, res.nr, lf) <= off < FileStart(rs, res.nr, lf) + |rs[res.nr]|
    decreases |rs| - i
  {
    if i < |rs| {
      LocateRange(rs, lf, off, i + 1);
    }
  }

  /** Giving up is wrong: an offset in front of the last record is always inside the file. */
  lemma {:induction false} LocateInside(rs: seq<Record>, lf: nat, off: nat, k: nat)
    requires k <= |rs| && lf <= 1 && off < FileStart(rs, k, lf)
    ensures Locate(rs, lf, off, 0) != NotFound
  {
    if FileStart(rs, k - 1, lf) <= off {
      LocateAt(rs, lf, off, k - 1);
    } else {
      LocateInside(rs, lf, off, k - 1);
    }
  }

  /** A record longer than record_len defeats the guess: offset 1 of a three byte record, looked for
      with record_len 1 and the hint at the second and last record, is reported as not there. */
  lemma {:induction false} OvershootExample()
    ensures var rs: seq<Record> := [[7, 7, 7], [8]];
            && Overshot(rs, 1, 0, 1) && !HintHits(rs, 0, 1, 1)
            && Locate(rs, 0, 1, 0) == InRecord(0)
  {
    var rs: seq<Record> := [[7, 7, 7], [8]];
    assert FileStart(rs, 1, 0) == 3;
    assert Quot(1, 1) == 1;
  }

  // ----- from an offset to disk bytes -------------------------------------------------------

  /** The pieces of a record that has ended, block by block. */
  lemma {:induction false} ExtsOfEnded(g: Geo, e: int, from: nat, nb: nat, j: nat)
    requires g.Valid() && from + j < nb <= |g.addrs| && Times(from + j, g.blksize) < e
    ensures j < |Exts(g, e, from, nb)|
    ensures Exts(g, e, from, nb)[j] == Ext(Addr(g.addrs[from + j], 0), Min(g.blksize, e - Times(from + j, g.blksize)),
            from + j)
  {
    if Times(nb - 1, g.blksize) < e {
      ExtsShape(g, e, from, nb);
    } else {
      ExtsOfEnded(g, e, from, nb - 1, j);
    }
  }

  /** The entry of a record that has ended: its first piece is on block bn, and every block it
      reaches after that has the next piece. */
  lemma {:induction false} InfoShape(g: Geo, rs: seq<Record>, i: nat) returns (bn: nat)
    requires g.Valid() && i < |rs| && Pos(rs, i + 1) <= Times(|g.addrs|, g.blksize)
    ensures bn < |g.addrs| && Times(bn, g.blksize) <= Pos(rs, i) + 2 < Times(bn, g.blksize) + g.blksize
    ensures var rec := InfoAt(g, rs, i, |g.addrs|);
            && rec.disk_start == Addr(g.addrs[bn], Pos(rs, i) + 2 - Times(bn, g.blksize))
            && rec.first_block_len == Min(|rs[i]|, Times(bn, g.blksize) + g.blksize - (Pos(rs, i) + 2))
            && rec.file_start == FileStart(rs, i, g.Lf()) && rec.total_len == |rs[i]|
            && rec.ext == Exts(g, Pos(rs, i + 1), bn + 1, |g.addrs|)
  {
    var d := Pos(rs, i) + 2;
    bn := Quot(d, g.blksize);
    QuotOf(d, g.blksize);
    TimesCancel(bn, |g.addrs|, g.blksize);
  }

  lemma {:induction false} PieceOn(g: Geo, rs: seq<Record>, i: nat, from: nat, m: nat)
    requires g.Valid() && i < |rs| && Pos(rs, i + 1) <= Times(|g.addrs|, g.blksize)
    requires Times(from + m, g.blksize) < Pos(rs, i + 1)
    ensures var ext := Exts(g, Pos(rs, i + 1), from, |g.addrs|);
            && from + m < |g.addrs| && m < |ext|
            && ext[m] == Ext(Addr(g.addrs[from + m], 0), Min(g.blksize, Pos(rs, i + 1) - Times(from + m, g.blksize)),
               from + m)
  {
    TimesCancel(from + m, |g.addrs|, g.blksize);
    ExtsOfEnded(g, Pos(rs, i + 1), from, |g.addrs|, m);
  }

  /** The extension of a record that holds stream offset p, and the offset inside it. */
  method FindExtension(ext: seq<Ext>, record_off0: nat, ghost g: Geo, ghost rs: seq<Record>, ghost i: nat,
                       ghost from: nat, ghost p: nat)
    returns (m: nat, record_off: nat)
    requires g.Valid() && i < |rs| && Pos(rs, i + 1) <= Times(|g.addrs|, g.blksize)
    requires ext == Exts(g, Pos(rs, i + 1), from, |g.addrs|)
    requires p == Times(from, g.blksize) + record_off0 < Pos(rs, i + 1)
    ensures from + m < |g.addrs| && m < |ext| && p == Times(from + m, g.blksize) + record_off
    ensures ext[m] == Ext(Addr(g.addrs[from + m], 0), Min(g.blksize, Pos(rs, i + 1) - Times(from + m, g.blksize)),
            from + m)
    ensures record_off < ext[m].len
  {
    m, record_off := 0, record_off0;
    PieceOn(g, rs, i, from, m);
    while record_off >= ext[m].len
      invariant from + m < |g.addrs| && m < |ext| && p == Times(from + m, g.blksize) + record_off
      invariant ext[m] == Ext(Addr(g.addrs[from + m], 0), Min(g.blksize, Pos(rs, i + 1) - Times(from + m, g.blksize)),
                from + m)
      decreases record_off
    {
      record_off := record_off - ext[m].len;
      m := m + 1;
      PieceOn(g, rs, i, from, m);
    }
  }

  /** get_block_data_from_record: the address of an offset inside record i, and how many bytes of the
      record follow it on the same block. */
  method GetBlockData(rec: RecordInfo, off: int, ghost g: Geo, ghost rs: seq<Record>, ghost i: nat)
    returns (addr: Addr, chunk: int, ghost b: nat)
    requires g.Valid() && i < |rs| && Pos(rs, i + 1) <= Times(|g.addrs|, g.blksize)
    requires rec == InfoAt(g, rs, i, |g.addrs|)
    requires FileStart(rs, i, g.Lf()) <= off < FileStart(rs, i, g.Lf()) + |rs[i]|
    ensures var p := Pos(rs, i) + 2 + (off - FileStart(rs, i, g.Lf()));
            && b < |g.addrs| && Times(b, g.blksize) <= p < Times(b, g.blksize) + g.blksize
            && addr == Addr(g.addrs[b], p - Times(b, g.blksize))
            && chunk == Min(Pos(rs, i + 1), Times(b, g.blksize) + g.blksize) - p
  {
    ghost var bn := InfoShape(g, rs, i);
    var record_off := off - rec.file_start;
    ghost var p := Pos(rs, i) + 2 + record_off;
    if record_off >= rec.first_block_len {
      var m;
      m, record_off := FindExtension(rec.ext, record_off - rec.first_block_len, g, rs, i, bn + 1, p);
      b := bn + 1 + m;
      addr := rec.ext[m].disk_start.Plus(record_off);
      chunk := rec.ext[m].len - record_off;
    } else {
      b := bn;
      addr := rec.disk_start.Plus(record_off);
      chunk := rec.first_block_len - record_off;
    }
  }

  // ----- reading a range ----------------------------------------------------------------------

  const LINEFEED_ASCII: byte := 0xa

  function Line(r: Record, lf: nat): seq<byte> {
    if lf == 1 then r + [LINEFEED_ASCII] else r
  }

  /** The file as a reader sees it: the records, each followed by a linefeed in linefeed mode. */
  function Logical(rs: seq<Record>, lf: nat): seq<byte> {
    if rs == [] then [] else Logical(rs[..|rs| - 1], lf) + Line(rs[|rs| - 1], lf)
  }

  lemma {:induction false} LogicalLen(rs: seq<Record>, lf: nat)
    requires lf <= 1
    ensures |Logical(rs, lf)| == FileStart(rs, |rs|, lf)
  {
    if rs != [] {
      var init := rs[..|rs| - 1];
      LogicalLen(init, lf);
      assert rs == init + [rs[|rs| - 1]];
      FileStartPrefix(init, [rs[|rs| - 1]], |init|, lf);
    }
  }

  /** In linefeed mode there is a linefeed behind every record, and otherwise nothing between them. */
  lemma {:induction false} LogicalAppend(rs: seq<Record>, r: Record)
    ensures Logical([], 0) == [] && Logical(rs + [r], 0) == Logical(rs, 0) + r
    ensures Logical([], 1) == [] && Logical(rs + [r], 1) == Logical(rs, 1) + r + [10]
  {
    assert (rs + [r])[..|rs|] == rs;
    assert Logical(rs, 1) + (r + [10]) == Logical(rs, 1) + r + [10];
  }

  /** Where record i lies in the logical file. */
  lemma {:induction false} LogicalAt(rs: seq<Record>, lf: nat, i: nat)
    requires lf <= 1 && i < |rs|
    ensures FileStart(rs, i, lf) + |rs[i]| + lf <= |Logical(rs, lf)|
    ensures forall j :: 0 <= j < |rs[i]| ==> Logical(rs, lf)[FileStart(rs, i, lf) + j] == rs[i][j]
    ensures lf == 1 ==> Logical(rs, lf)[FileStart(rs, i, lf) + |rs[i]|] == LINEFEED_ASCII
  {
    var init, r := rs[..|rs| - 1], rs[|rs| - 1];
    assert rs == init + [r];
    FileStartPrefix(init, [r], i, lf);
    var p, l, x := FileStart(rs, i, lf), Logical(init, lf), Line(r, lf);
    assert Logical(rs, lf) == l + x;
    if i < |init| {
      LogicalAt(init, lf, i);
      assert forall k :: 0 <= k < |l| ==> (l + x)[k] == l[k];
    } else {
      LogicalLen(init, lf);
      assert p == |l| && forall k :: 0 <= k < |x| ==> (l + x)[p + k] == x[k];
    }
  }

  lemma {:induction false} LogicalChunk(rs: seq<Record>, lf: nat, i: nat, j: nat, n: nat)
    requires lf <= 1 && i < |rs| && j + n <= |rs[i]|
    ensures FileStart(rs, i, lf) + j + n <= |Logical(rs, lf)|
    ensures Slice(Logical(rs, lf), FileStart(rs, i, lf) + j, n) == Slice(rs[i], j, n)
  {
    LogicalAt(rs, lf, i);
    var x, y := Slice(Logical(rs, lf), FileStart(rs, i, lf) + j, n), Slice(rs[i], j, n);
    forall k | 0 <= k < n
      ensures x[k] == y[k]
    {
      assert Logical(rs, lf)[FileStart(rs, i, lf) + (j + k)] == rs[i][j + k];
    }
  }

  /** The bytes at the address found for an offset are the bytes of the record there. */
  lemma {:induction false} ChunkIs(disk: Disk, g: Geo, f: seq<byte>, rs: seq<Record>, i: nat, j: nat, b: nat, n: nat)
    requires g.Valid() && OnDisk(disk, g, f) && Holds(f, rs) && i < |rs| && j + n <= |rs[i]|
    requires b < |g.addrs| && Times(b, g.blksize) <= Pos(rs, i) + 2 + j
    requires Pos(rs, i) + 2 + j + n <= Times(b, g.blksize) + g.blksize
    ensures var off := Pos(rs, i) + 2 + j - Times(b, g.blksize);
            && g.addrs[b] in disk && off + n <= |disk[g.addrs[b]]|
            && Slice(disk[g.addrs[b]], off, n) == Slice(rs[i], j, n)
  {
    OnDiskAt(disk, g, f, |g.addrs|, b);
    StreamAt(rs, i);
    var off, p := Pos(rs, i) + 2 + j - Times(b, g.blksize), Pos(rs, i) + 2;
    var x, y := Slice(disk[g.addrs[b]], off, n), Slice(rs[i], j, n);
    forall k | 0 <= k < n
      ensures x[k] == y[k]
    {
      assert x[k] == disk[g.addrs[b]][off + k] == f[p + j + k] == Stream(rs)[p + j + k];
      assert Stream(rs)[p..p + |rs[i]|][j + k] == rs[i][j + k];
    }
  }

  /** buf holds the logical bytes from from on. */
  ghost predicate Copied(buf: seq<byte>, l: seq<byte>, from: nat) {
    from + |buf| <= |l| && buf == Slice(l, from, |buf|)
  }

  lemma {:induction false} CopiedMore(buf: seq<byte>, x: seq<byte>, l: seq<byte>, from: nat)
    requires Copied(buf, l, from) && Copied(x, l, from + |buf|)
    ensures Copied(buf + x, l, from)
  {
  }

  lemma {:induction false} TableStarts(blksize: nat, linefeed: bool, s: Fields, f: seq<byte>, rs: seq<Record>)
    requires FileOk(blksize, linefeed, s, f, rs)
    ensures StartsOk(s.rlist, rs, if linefeed then 1 else 0)
    ensures 0 < |rs| ==> 0 < s.record_len
  {
    var g := GeoOf(blksize, linefeed, s.out.blist);
    forall i | 0 <= i < |rs|
      ensures s.rlist[i].file_start == FileStart(rs, i, g.Lf()) && s.rlist[i].total_len == |rs[i]|
    {
      PosMono(rs, i + 1, |rs|);
      var bn := InfoShape(g, rs, i);
    }
    if 0 < |rs| {
      assert |rs[0]| <= s.record_len;
    }
  }

  /** The bytes of record nr from offset off on, as many as one block and the buffer allow. */
  method ReadChunk(blksize: nat, linefeed: bool, s: Fields, nr: nat, size: nat, off: nat, ghost f: seq<byte>,
                   ghost rs: seq<Record>)
    returns (x: seq<byte>)
    requires FileOk(blksize, linefeed, s, f, rs) && nr < |rs| && 0 < size
    requires var lf := if linefeed then 1 else 0; FileStart(rs, nr, lf) <= off < FileStart(rs, nr, lf) + |rs[nr]|
    ensures 0 < |x| <= size && Copied(x, Logical(rs, if linefeed then 1 else 0), off)
  {
    ghost var g, lf := GeoOf(blksize, linefeed, s.out.blist), if linefeed then 1 else 0;
    ghost var j := off - FileStart(rs, nr, lf);
    PosMono(rs, nr + 1, |rs|);
    var addr, chunk;
    ghost var b;
    addr, chunk, b := GetBlockData(s.rlist[nr], off, g, rs, nr);
    if size < chunk {
      chunk := size;
    }
    ChunkIs(s.out.disk, g, f, rs, nr, j, b, chunk);
    x := Slice(s.out.disk[addr.blk], addr.off, chunk);
    LogicalChunk(rs, lf, nr, j, chunk);
  }

  /** One round of the read loop: a linefeed, or a run of record bytes. */
  method ReadStep(blksize: nat, linefeed: bool, s: Fields, hint: nat, size: nat, off: nat, ghost f: seq<byte>,
                  ghost rs: seq<Record>)
    returns (x: seq<byte>, hint': nat)
    requires FileOk(blksize, linefeed, s, f, rs) && hint < |rs| && 0 < size
    requires off < FileStart(rs, |rs|, if linefeed then 1 else 0)
    ensures 0 < |x| <= size && Copied(x, Logical(rs, if linefeed then 1 else 0), off)
    ensures hint' < |rs|
  {
    ghost var lf := if linefeed then 1 else 0;
    TableStarts(blksize, linefeed, s, f, rs);
    NeverOvershot(rs, s.record_len, lf, off);
    var res;
    res, hint' := FindRecord(s.rlist, s.nr_records, s.record_len, linefeed, hint, off, rs);
    LocateInside(rs, lf, off, |rs|);
    if res == Linefeed {
      LocateLinefeed(rs, lf, off, 0);
      x := [LINEFEED_ASCII];
      return;
    }
    LocateRange(rs, lf, off, 0);
    x := ReadChunk(blksize, linefeed, s, res.nr, size, off, f, rs);
  }

  /** A linefeed is only reported where the logical file has one. */
  lemma {:induction false} LocateLinefeed(rs: seq<Record>, lf: nat, off: nat, i: nat)
    requires i <= |rs| && lf <= 1 && Locate(rs, lf, off, i) == Linefeed
    ensures Copied([LINEFEED_ASCII], Logical(rs, lf), off)
    decreases |rs| - i
  {
    if lf == 1 && off == FileStart(rs, i, lf) + |rs[i]| {
      LogicalAt(rs, lf, i);
    } else {
      LocateLinefeed(rs, lf, off, i + 1);
    }
  }

  /** cmsfs_read: for every offset, size and hint, exactly that range of the logical file. */
  method Read(blksize: nat, linefeed: bool, s: Fields, size0: nat, offset: nat, ghost f: seq<byte>,
              ghost rs: seq<Record>)
    returns (buf: seq<byte>, s': Fields)
    requires FileOk(blksize, linefeed, s, f, rs)
    ensures var l := Logical(rs, if linefeed then 1 else 0);
            && Copied(buf, l, Min(offset, |l|))
            && |buf| == Min(size0, |l| - Min(offset, |l|))
    ensures FileOk(blksize, linefeed, s', f, rs) && s' == s.(next_record_hint := s'.next_record_hint)
  {
    ghost var l := Logical(rs, if linefeed then 1 else 0);
    LogicalLen(rs, if linefeed then 1 else 0);
    buf, s' := [], s;
    var len := s.session_size;
    if offset >= len {
      return;
    }
    var size := if offset + size0 > len then len - offset else size0;
    var off := offset;
    while size > 0
      invariant 0 <= size && off == offset + |buf| && off + size == Min(offset + size0, |l|)
      invariant Copied(buf, l, offset)
      invariant FileOk(blksize, linefeed, s', f, rs) && s' == s.(next_record_hint := s'.next_record_hint)
    {
      var x, hint := ReadStep(blksize, linefeed, s', s'.next_record_hint, size, off, f, rs);
      CopiedMore(buf, x, l, offset);
      buf := buf + x;
      off := off + |x|;
      size := size - |x|;
      s' := s'.(next_record_hint := hint);
    }
  }

  // ----- what the table says about the disk ---------------------------------------------------

  /** The n bytes at disk address a are those of r from index at on. */
  ghost predicate PieceMatches(disk: Disk, a: Addr, n: int, r: seq<byte>, at: int) {
    && a.blk in disk && 0 <= a.off && 0 <= n && a.off + n <= |disk[a.blk]| && 0 <= at && at + n <= |r|
    && Slice(disk[a.blk], a.off, n) == Slice(r, at, n)
  }

  /** The extensions from number m on spell out r from index at to its end. */
  ghost predicate Spells(disk: Disk, ext: seq<Ext>, m: nat, r: seq<byte>, at: int)
    requires m <= |ext|
    decreases |ext| - m
  {
    if m == |ext| then at == |r| else
      PieceMatches(disk, ext[m].disk_start, ext[m].len, r, at) && Spells(disk, ext, m + 1, r, at + ext[m].len)
  }

  /** A table entry, piece after piece, spells out exactly the record r. */
  ghost predicate RecordSpells(disk: Disk, rec: RecordInfo, r: seq<byte>) {
    && rec.total_len == |r|
    && PieceMatches(disk, rec.disk_start, rec.first_block_len, r, 0)
    && Spells(disk, rec.ext, 0, r, rec.first_block_len)
  }

  /** The number of pieces of a record that has ended. */
  lemma {:induction false} ExtsCount(g: Geo, e: int, from: nat, nb: nat, m: nat)
    requires g.Valid() && 0 < from <= nb <= |g.addrs| && e <= Times(nb, g.blksize)
    requires e <= Times(from + m, g.blksize) && (m == 0 || Times(from + m - 1, g.blksize) < e)
    ensures |Exts(g, e, from, nb)| == m
  {
    if m == 0 {
      ExtsEmpty(g, e, from, nb);
    } else {
      TimesCancel(from + m - 1, nb, g.blksize);
      ExtsShape(g, e, from, from + m);
      ExtsStable(g, e, from, from + m, nb);
    }
  }

  lemma {:induction false} ExtsEmpty(g: Geo, e: int, from: nat, nb: nat)
    requires nb <= |g.addrs| && e <= Times(from, g.blksize)
    ensures Exts(g, e, from, nb) == []
  {
    if from < nb {
      TimesMono(from, nb - 1, g.blksize);
      ExtsEmpty(g, e, from, nb - 1);
    }
  }

  /** Piece number m of record i, on block from + m. */
  lemma {:induction false} PieceSpells(disk: Disk, g: Geo, f: seq<byte>, rs: seq<Record>, i: nat, from: nat, m: nat)
    requires g.Valid() && OnDisk(disk, g, f) && Holds(f, rs)
    requires i < |rs| && Pos(rs, i + 1) <= Times(|g.addrs|, g.blksize)
    requires Pos(rs, i) + 2 <= Times(from + m, g.blksize) < Pos(rs, i + 1)
    ensures var ext, at := Exts(g, Pos(rs, i + 1), from, |g.addrs|), Times(from + m, g.blksize) - (Pos(rs, i) + 2);
            && m < |ext| && PieceMatches(disk, ext[m].disk_start, ext[m].len, rs[i], at)
            && at + ext[m].len == Min(Pos(rs, i + 1), Times(from + m + 1, g.blksize)) - (Pos(rs, i) + 2)
  {
    var lo := Times(from + m, g.blksize);
    PieceOn(g, rs, i, from, m);
    ChunkIs(disk, g, f, rs, i, lo - (Pos(rs, i) + 2), from + m, Min(g.blksize, Pos(rs, i + 1) - lo));
  }

  lemma {:induction false} ExtsSpell(disk: Disk, g: Geo, f: seq<byte>, rs: seq<Record>, i: nat, from: nat, m: nat,
                                     ext: seq<Ext>, at: int)
    requires g.Valid() && OnDisk(disk, g, f) && Holds(f, rs)
    requires i < |rs| && Pos(rs, i + 1) <= Times(|g.addrs|, g.blksize)
    requires 0 < from <= |g.addrs| && Pos(rs, i) + 2 < Times(from, g.blksize)
    requires m == 0 || Times(from + m - 1, g.blksize) < Pos(rs, i + 1)
    requires ext == Exts(g, Pos(rs, i + 1), from, |g.addrs|)
    requires at == Min(Pos(rs, i + 1), Times(from + m, g.blksize)) - (Pos(rs, i) + 2)
    ensures m <= |ext| && Spells(disk, ext, m, rs[i], at)
    decreases |rs[i]| - at, Pos(rs, i + 1) - Times(from + m, g.blksize)
  {
    if Pos(rs, i + 1) <= Times(from + m, g.blksize) {
      ExtsCount(g, Pos(rs, i + 1), from, |g.addrs|, m);
    } else {
      TimesMono(from, from + m, g.blksize);
      PieceSpells(disk, g, f, rs, i, from, m);
      ExtsSpell(disk, g, f, rs, i, from, m + 1, ext, at + ext[m].len);
    }
  }

  lemma {:induction false} EntrySpells(disk: Disk, g: Geo, f: seq<byte>, rs: seq<Record>, i: nat, rec: RecordInfo)
    requires g.Valid() && OnDisk(disk, g, f) && Holds(f, rs)
    requires i < |rs| && Pos(rs, i + 1) <= Times(|g.addrs|, g.blksize) && rec == InfoAt(g, rs, i, |g.addrs|)
    ensures RecordSpells(disk, rec, rs[i])
  {
    var bn := InfoShape(g, rs, i);
    ChunkIs(disk, g, f, rs, i, 0, bn, rec.first_block_len);
    ExtsSpell(disk, g, f, rs, i, bn + 1, 0, rec.ext, rec.first_block_len);
  }

  /** The byte at offset p of the file's data blocks laid end to end is x. */
  ghost predicate ByteOnDisk(blksize: nat, o: Out, p: nat, x: int)
    requires 0 < blksize
  {
    p / blksize < |o.blist| &&
    var blk := o.blist[p / blksize].disk_addr;
    blk in o.disk && p % blksize < |o.disk[blk]| && o.disk[blk][p % blksize] as int == x
  }

  /** The blocks of a file hold its stream, and zeros behind it. */
  lemma {:induction false} StreamOnDisk(blksize: nat, linefeed: bool, s: Fields, f: seq<byte>, rs: seq<Record>, p: nat)
    requires FileOk(blksize, linefeed, s, f, rs) && p < |s.out.blist| * blksize
    ensures 0 < blksize && ByteOnDisk(blksize, s.out, p, if p < |Stream(rs)| then Stream(rs)[p] as int else 0)
  {
    var g := GeoOf(blksize, linefeed, s.out.blist);
    TimesIsMul(|g.addrs|, blksize);
    QuotOf(p, blksize);
    QuotIsDiv(p, blksize);
    var b, off := Quot(p, blksize), Rem(p, blksize);
    TimesCancel(b, |g.addrs|, blksize);
    DiskByte(s.out.disk, g, f, b, off);
    AddrsAt(s.out.blist, b);
  }

  /** The stream fits on the blocks. */
  lemma {:induction false} StreamFits(blksize: nat, linefeed: bool, s: Fields, f: seq<byte>, rs: seq<Record>)
    requires FileOk(blksize, linefeed, s, f, rs)
    ensures |Stream(rs)| == Pos(rs, |rs|) <= |s.out.blist| * blksize
  {
    StreamLen(rs);
    TimesIsMul(|s.out.blist|, blksize);
  }

  /** Round trip: every record appended, whole and in order, is what the table entry of its number
      points at on disk, and in front of it there is its length, on one block or cut in half. */
  lemma {:induction false} RecordRoundTrip(blksize: nat, linefeed: bool, s: Fields, f: seq<byte>, rs: seq<Record>,
                                           i: nat)
    requires FileOk(blksize, linefeed, s, f, rs) && i < |rs|
    ensures |s.rlist| == s.nr_records == |rs|
    ensures RecordSpells(s.out.disk, s.rlist[i], rs[i])
    ensures 0 < blksize && ByteOnDisk(blksize, s.out, Pos(rs, i), |rs[i]| / 256)
    ensures ByteOnDisk(blksize, s.out, Pos(rs, i) + 1, |rs[i]| % 256)
  {
    var g := GeoOf(blksize, linefeed, s.out.blist);
    HeaderBytes(rs, i);
    StreamFits(blksize, linefeed, s, f, rs);
    StreamOnDisk(blksize, linefeed, s, f, rs, Pos(rs, i));
    StreamOnDisk(blksize, linefeed, s, f, rs, Pos(rs, i) + 1);
    PosMono(rs, i + 1, |rs|);
    EntrySpells(s.out.disk, g, f, rs, i, s.rlist[i]);
  }
}
