/** The on-disk form of a variable-record CMS file: every record is a two byte
    big-endian length followed by its bytes, records are laid end to end, and the
    resulting stream is cut into blocks whose tail is zero.  Everything the scanner
    derives (record table, displacements) has a closed form over that stream. */
module RecordStream {
  import opened Arith

  type byte = x: int | 0 <= x < 256

  const MAX_RECORD_LEN := 0xffff
  const VAR_RECORD_SPANNED := 0xffff_ffff

  type Record = r: seq<byte> | 1 <= |r| <= MAX_RECORD_LEN witness [0]

  /** The high and the low byte of a record length. */
  function Hi(n: int): byte
    requires 0 <= n <= MAX_RECORD_LEN
  {
    HalvesOf(n);
    Quot(n, 256)
  }

  function Lo(n: int): byte
    requires 0 <= n <= MAX_RECORD_LEN
  {
    Rem(n, 256)
  }

  function Word(hi: byte, lo: byte): int {
    hi as int * 256 + lo as int
  }

  lemma {:induction false} HalvesOf(n: nat)
    requires n <= MAX_RECORD_LEN
    ensures Quot(n, 256) < 256
    ensures Quot(n, 256) * 256 + Rem(n, 256) == n
  {
    QuotOf(n, 256);
    TimesIsMul(Quot(n, 256), 256);
  }

  lemma {:induction false} WordOfHalves(n: int)
    requires 0 <= n <= MAX_RECORD_LEN
    ensures Word(Hi(n), Lo(n)) == n
    ensures Word(Hi(n), 0) + Lo(n) as int == n
  {
    HalvesOf(n);
  }

  function Header(n: int): seq<byte>
    requires 0 <= n <= MAX_RECORD_LEN
  {
    [Hi(n), Lo(n)]
  }

  function Stream(rs: seq<Record>): seq<byte> {
    if rs == [] then [] else
      Stream(rs[..|rs| - 1]) + Header(|rs[|rs| - 1]|) + rs[|rs| - 1]
  }

  /** Stream offset of the header of record i (and the stream length for i == |rs|). */
  function Pos(rs: seq<Record>, i: nat): nat
    requires i <= |rs|
  {
    if i == 0 then 0 else Pos(rs, i - 1) + 2 + |rs[i - 1]|
  }

  lemma {:induction false} PosPrefix(rs: seq<Record>, more: seq<Record>, i: nat)
    requires i <= |rs|
    ensures Pos(rs + more, i) == Pos(rs, i)
  {
    if i != 0 {
      PosPrefix(rs, more, i - 1);
    }
  }

  lemma {:induction false} PosMono(rs: seq<Record>, i: nat, j: nat)
    requires i <= j <= |rs|
    ensures Pos(rs, i) + 3 * (j - i) <= Pos(rs, j)
  {
    if i < j {
      PosMono(rs, i, j - 1);
    }
  }

  lemma {:induction false} StreamLen(rs: seq<Record>)
    ensures |Stream(rs)| == Pos(rs, |rs|)
  {
    if rs != [] {
      var init := rs[..|rs| - 1];
      StreamLen(init);
      assert rs == init + [rs[|rs| - 1]];
      PosPrefix(init, [rs[|rs| - 1]], |init|);
    }
  }

  lemma {:induction false} StreamAppend(rs: seq<Record>, r: Record)
    ensures Stream(rs + [r]) == Stream(rs) + Header(|r|) + r
  {
    assert (rs + [r])[..|rs|] == rs;
  }

  /** Where record i lies in the stream. */
  lemma {:induction false} StreamAt(rs: seq<Record>, i: nat)
    requires i < |rs|
    ensures Pos(rs, i) + 2 + |rs[i]| <= |Stream(rs)|
    ensures Stream(rs)[Pos(rs, i)..Pos(rs, i) + 2] == Header(|rs[i]|)
    ensures Stream(rs)[Pos(rs, i) + 2..Pos(rs, i) + 2 + |rs[i]|] == rs[i]
  {
    var init, r := rs[..|rs| - 1], rs[|rs| - 1];
    assert rs == init + [r];
    StreamLen(init);
    PosPrefix(init, [r], i);
    if i < |rs| - 1 {
      StreamAt(init, i);
      assert Stream(rs)[..|Stream(init)|] == Stream(init);
      var p := Pos(rs, i);
      assert Stream(rs)[p..p + 2] == Stream(init)[p..p + 2];
      assert Stream(rs)[p + 2..p + 2 + |rs[i]|] == Stream(init)[p + 2..p + 2 + |rs[i]|];
    }
  }

  /** In front of every record there is its length: the high byte, then the low byte. */
  lemma {:induction false} HeaderBytes(rs: seq<Record>, i: nat)
    requires i < |rs|
    ensures Pos(rs, i) + 2 + |rs[i]| <= |Stream(rs)|
    ensures Stream(rs)[Pos(rs, i)] as int == |rs[i]| / 256
    ensures Stream(rs)[Pos(rs, i) + 1] as int == |rs[i]| % 256
  {
    StreamAt(rs, i);
    QuotIsDiv(|rs[i]|, 256);
    var p := Pos(rs, i);
    assert Stream(rs)[p] == Stream(rs)[p..p + 2][0] && Stream(rs)[p + 1] == Stream(rs)[p..p + 2][1];
  }

  // ----- what the scanner must find -------------------------------------------------

  /** A disk address: a block address and an offset in it (off == blksize is the end of the block). */
  datatype Addr = Addr(blk: int, off: int) {
    function Plus(n: int): Addr {
      Addr(blk, off + n)
    }
  }

  const NULL_ADDR := Addr(0, 0)

  datatype Ext = Ext(disk_start: Addr, len: int, block_nr: int)

  datatype RecordInfo = RecordInfo(total_len: int, disk_start: Addr, first_block_len: int,
                                   file_start: int, ext: seq<Ext>, block_nr: int)

  const EmptyInfo := RecordInfo(0, NULL_ADDR, 0, 0, [], 0)

  /** Block size, disk address of every data block of the file, linefeed mode. */
  datatype Geo = Geo(blksize: nat, addrs: seq<int>, linefeed: bool) {
    ghost predicate Valid() {
      4 <= blksize <= 0xffff
    }

    function Lf(): nat {
      if linefeed then 1 else 0
    }
  }

  /** Logical offset of record i: earlier records, each followed by a linefeed in linefeed mode. */
  function FileStart(rs: seq<Record>, i: nat, lf: nat): nat
    requires i <= |rs|
  {
    if i == 0 then 0 else FileStart(rs, i - 1, lf) + |rs[i - 1]| + lf
  }

  /** Continuation pieces, on blocks from..nb-1, of a record whose data ends at offset e. */
  function Exts(g: Geo, e: int, from: int, nb: nat): seq<Ext>
    requires 0 <= from && nb <= |g.addrs|
  {
    if nb <= from then []
    else if Times(nb - 1, g.blksize) < e then
      Exts(g, e, from, nb - 1) + [Ext(Addr(g.addrs[nb - 1], 0), Min(g.blksize, e - Times(nb - 1, g.blksize)), nb - 1)]
    else Exts(g, e, from, nb - 1)
  }

  /** What is known of record i once the first nb blocks have been scanned. */
  function InfoAt(g: Geo, rs: seq<Record>, i: nat, nb: nat): RecordInfo
    requires g.Valid() && i < |rs| && nb <= |g.addrs|
  {
    var d := Pos(rs, i) + 2;
    var n := |rs[i]|;
    var bn := Quot(d, g.blksize);
    if bn < nb then
      RecordInfo(n, Addr(g.addrs[bn], Rem(d, g.blksize)), Min(n, g.blksize - Rem(d, g.blksize)),
                 FileStart(rs, i, g.Lf()), Exts(g, d + n, bn + 1, nb), bn)
    else if d <= Times(nb, g.blksize) then EmptyInfo.(total_len := n)
    else EmptyInfo.(total_len := Word(Hi(n), 0))
  }

  ghost predicate Spans(rs: seq<Record>, k: nat, p: nat)
    requires k < |rs|
  {
    Pos(rs, k) < p < Pos(rs, k + 1)
  }

  ghost predicate StartsAt(rs: seq<Record>, k: nat, p: nat)
    requires k <= |rs|
  {
    Pos(rs, k) == p
  }

  /** What record k still needs of the block that starts inside it at p. */
  function Share(rs: seq<Record>, k: nat, p: nat, blksize: nat): int
    requires k < |rs|
  {
    if Pos(rs, k + 1) >= p + blksize then VAR_RECORD_SPANNED else Pos(rs, k + 1) - p
  }

  /** The displacement stored for block b: the share of the record begun before it, if there is one. */
  ghost predicate DispOk(blksize: nat, rs: seq<Record>, b: nat, disp: int) {
    var base := Times(b, blksize);
    && (forall k :: 0 <= k < |rs| && Spans(rs, k, base) ==> disp == Share(rs, k, base, blksize))
    && (forall k :: 0 <= k <= |rs| && StartsAt(rs, k, base) ==> disp == 0)
  }

  /** Block b starts inside record k. */
  lemma {:induction false} DispPending(blksize: nat, rs: seq<Record>, b: nat, k: nat)
    requires k < |rs| && Spans(rs, k, Times(b, blksize))
    ensures DispOk(blksize, rs, b, Share(rs, k, Times(b, blksize), blksize))
  {
    var base := Times(b, blksize);
    forall j | 0 <= j <= |rs|
      ensures !StartsAt(rs, j, base)
      ensures j < |rs| && Spans(rs, j, base) ==> j == k
    {
      if j <= k {
        PosMono(rs, j, k);
        if j < k {
          PosMono(rs, j + 1, k);
        }
      } else {
        PosMono(rs, k + 1, j);
      }
    }
  }

  /** Block b starts with the header of record k. */
  lemma {:induction false} DispHeader(blksize: nat, rs: seq<Record>, b: nat, k: nat)
    requires k <= |rs| && StartsAt(rs, k, Times(b, blksize))
    ensures DispOk(blksize, rs, b, 0)
  {
    var base := Times(b, blksize);
    forall j | 0 <= j < |rs|
      ensures !Spans(rs, j, base)
    {
      if j < k {
        PosMono(rs, j + 1, k);
      } else {
        PosMono(rs, k, j);
      }
    }
  }

  /** A further record does not change the displacement of a block begun before it. */
  lemma {:induction false} DispAppend(blksize: nat, rs: seq<Record>, r: Record, b: nat, disp: int)
    requires Times(b, blksize) < Pos(rs, |rs|)
    requires DispOk(blksize, rs, b, disp)
    ensures DispOk(blksize, rs + [r], b, disp)
  {
    var rs', base := rs + [r], Times(b, blksize);
    forall k | 0 <= k < |rs'| && Spans(rs', k, base)
      ensures disp == Share(rs', k, base, blksize)
    {
      PosPrefix(rs, [r], k);
      if k < |rs| {
        PosPrefix(rs, [r], k + 1);
        assert Spans(rs, k, base);
      }
    }
    forall k | 0 <= k <= |rs'| && StartsAt(rs', k, base)
      ensures disp == 0
    {
      PosPrefix(rs, [r], |rs|);
      if k <= |rs| {
        PosPrefix(rs, [r], k);
        assert StartsAt(rs, k, base);
      }
    }
  }

  lemma {:induction false} ExtsStable(g: Geo, e: int, from: int, nb: nat, nb': nat)
    requires g.Valid()
    requires 0 <= from && nb <= nb' <= |g.addrs|
    requires e <= Times(nb, g.blksize)
    ensures Exts(g, e, from, nb') == Exts(g, e, from, nb)
  {
    if nb < nb' {
      ExtsStable(g, e, from, nb, nb' - 1);
      TimesMono(nb, nb' - 1, g.blksize);
    }
  }

  /** Scanning further blocks adds nothing to a record that has already ended. */
  lemma {:induction false} InfoStable(g: Geo, rs: seq<Record>, i: nat, nb: nat, nb': nat)
    requires g.Valid() && i < |rs| && nb <= nb' <= |g.addrs|
    requires Pos(rs, i + 1) <= Times(nb, g.blksize)
    ensures InfoAt(g, rs, i, nb') == InfoAt(g, rs, i, nb)
    ensures InfoAt(g, rs, i, nb).block_nr < nb
  {
    var d := Pos(rs, i) + 2;
    QuotOf(d, g.blksize);
    TimesCancel(Quot(d, g.blksize), nb, g.blksize);
    ExtsStable(g, d + |rs[i]|, Quot(d, g.blksize) + 1, nb, nb');
  }

  /** Entries do not depend on records and blocks that come later. */
  lemma {:induction false} InfoPrefix(g: Geo, g': Geo, rs: seq<Record>, more: seq<Record>, i: nat, nb: nat)
    requires g.Valid() && i < |rs| && nb <= |g.addrs|
    requires g'.blksize == g.blksize && g'.linefeed == g.linefeed && g.addrs <= g'.addrs
    ensures InfoAt(g', rs + more, i, nb) == InfoAt(g, rs, i, nb)
  {
    PosPrefix(rs, more, i);
    FileStartPrefix(rs, more, i, g.Lf());
    var d := Pos(rs, i) + 2;
    if Quot(d, g.blksize) < nb {
      ExtsPrefix(g, g', d + |rs[i]|, Quot(d, g.blksize) + 1, nb);
    }
  }

  lemma {:induction false} FileStartPrefix(rs: seq<Record>, more: seq<Record>, i: nat, lf: nat)
    requires i <= |rs|
    ensures FileStart(rs + more, i, lf) == FileStart(rs, i, lf)
  {
    if i != 0 {
      FileStartPrefix(rs, more, i - 1, lf);
    }
  }

  lemma {:induction false} ExtsPrefix(g: Geo, g': Geo, e: int, from: nat, nb: nat)
    requires nb <= |g.addrs|
    requires g'.blksize == g.blksize && g.addrs <= g'.addrs
    ensures Exts(g', e, from, nb) == Exts(g, e, from, nb)
  {
    if from < nb {
      ExtsPrefix(g, g', e, from, nb - 1);
    }
  }

  /** A record that reaches into block nb - 1 has one piece on each block from `from` on. */
  lemma {:induction false} ExtsShape(g: Geo, e: int, from: nat, nb: nat)
    requires g.Valid() && from <= nb <= |g.addrs| && 0 < nb && Times(nb - 1, g.blksize) < e
    ensures |Exts(g, e, from, nb)| == nb - from
    ensures forall j :: 0 <= j < nb - from ==>
              Exts(g, e, from, nb)[j] == Ext(Addr(g.addrs[from + j], 0), Min(g.blksize, e - Times(from + j, g.blksize)),
                from + j)
  {
    if from < nb && 1 < nb {
      TimesMono(nb - 2, nb - 1, g.blksize);
      ExtsShape(g, e, from, nb - 1);
    }
  }

  /** A record whose data begins on block b, once that block is scanned. */
  lemma {:induction false} InfoFirst(g: Geo, rs: seq<Record>, i: nat, b: nat)
    requires g.Valid() && i < |rs| && b < |g.addrs|
    requires Times(b, g.blksize) <= Pos(rs, i) + 2 < Times(b + 1, g.blksize)
    ensures InfoAt(g, rs, i, b + 1) ==
            var off := Pos(rs, i) + 2 - Times(b, g.blksize);
            RecordInfo(|rs[i]|, Addr(g.addrs[b], off), Min(|rs[i]|, g.blksize - off),
                       FileStart(rs, i, g.Lf()), [], b)
  {
    QuotIs(Pos(rs, i) + 2, g.blksize, b);
  }

  /** A record begun before block b and not ended there gets one more piece. */
  lemma {:induction false} InfoExt(g: Geo, rs: seq<Record>, i: nat, b: nat)
    requires g.Valid() && i < |rs| && b < |g.addrs|
    requires Pos(rs, i) + 2 < Times(b, g.blksize) < Pos(rs, i + 1)
    ensures var was := InfoAt(g, rs, i, b);
            InfoAt(g, rs, i, b + 1) ==
            was.(ext := was.ext + [Ext(Addr(g.addrs[b], 0), Min(g.blksize, Pos(rs, i + 1) - Times(b, g.blksize)), b)])
  {
    var d := Pos(rs, i) + 2;
    QuotOf(d, g.blksize);
    TimesCancel(Quot(d, g.blksize), b, g.blksize);
  }

  /** A header that ends exactly with block b, or is cut in half by its end. */
  lemma {:induction false} InfoHeaderOnly(g: Geo, rs: seq<Record>, i: nat, b: nat)
    requires g.Valid() && i < |rs| && b < |g.addrs|
    requires Times(b + 1, g.blksize) <= Pos(rs, i) + 2 <= Times(b + 1, g.blksize) + 1
    ensures InfoAt(g, rs, i, b + 1) ==
            EmptyInfo.(total_len := if Pos(rs, i) + 2 == Times(b + 1, g.blksize) then |rs[i]| else Word(Hi(|rs[i]|), 0))
  {
    QuotIs(Pos(rs, i) + 2, g.blksize, b + 1);
  }

  // ----- scanner states --------------------------------------------------------------

  datatype ScanState = HeaderStarted | HeaderComplete | DataBlockStarted | DataBlockExt

  predicate InData(s: ScanState) {
    s == DataBlockStarted || s == DataBlockExt
  }

  /** Logical bytes counted once records 0..k have been entered. */
  function TotalThrough(g: Geo, rs: seq<Record>, k: int): int
    requires -1 <= k < |rs|
  {
    if k < 0 then 0 else FileStart(rs, k, g.Lf()) + |rs[k]|
  }

  /** The record table under construction, with the scan state, the number of the
      record scanned last (-1 before the first) and the logical bytes counted so far. */
  datatype Scan = Scan(rlist: seq<RecordInfo>, state: ScanState, record: int, total: int)

  /** Records 0..k are the ones begun, and their entries are what nb scanned blocks tell. */
  ghost predicate TableAt(g: Geo, rs: seq<Record>, nb: nat, k: int, rlist: seq<RecordInfo>)
    requires g.Valid() && nb <= |g.addrs|
  {
    && -1 <= k < |rs| == |rlist|
    && (forall i :: 0 <= i <= k ==> rlist[i] == InfoAt(g, rs, i, nb))
    && (forall i :: k < i < |rs| ==> rlist[i] == EmptyInfo)
  }

  /** State and total as they must be with record k current and scanning stopped at offset q. */
  ghost predicate StateAt(g: Geo, rs: seq<Record>, q: int, t: Scan)
    requires -1 <= t.record < |rs|
  {
    if 0 <= t.record && q <= Pos(rs, t.record) + 2 then
      && t.state == (if q < Pos(rs, t.record) + 2 then HeaderStarted else HeaderComplete)
      && t.total == TotalThrough(g, rs, t.record - 1)
    else InData(t.state) && t.total == TotalThrough(g, rs, t.record)
  }

  /** The scanner between two blocks, the first nb being done. */
  ghost predicate ScanAt(g: Geo, rs: seq<Record>, nb: nat, t: Scan)
    requires g.Valid() && nb <= |g.addrs|
  {
    var q := Times(nb, g.blksize);
    && TableAt(g, rs, nb, t.record, t.rlist)
    && (0 <= t.record ==> Pos(rs, t.record) < q)
    && (t.record + 1 < |rs| ==> q <= Pos(rs, t.record + 1))
    && StateAt(g, rs, q, t)
  }

  /** The scanner inside block b, off bytes in, in front of the header of the next record. */
  ghost predicate AlignedAt(g: Geo, rs: seq<Record>, b: nat, off: nat, t: Scan)
    requires g.Valid() && b < |g.addrs|
  {
    && TableAt(g, rs, b + 1, t.record, t.rlist)
    && off <= g.blksize
    && Times(b, g.blksize) + off == Pos(rs, t.record + 1)
    && InData(t.state)
    && t.total == TotalThrough(g, rs, t.record)
  }

  lemma {:induction false} AlignedEnd(g: Geo, rs: seq<Record>, b: nat, off: nat, t: Scan)
    requires g.Valid() && b < |g.addrs|
    requires AlignedAt(g, rs, b, off, t)
    requires off == g.blksize || t.record == |rs| - 1
    ensures ScanAt(g, rs, b + 1, t)
  {
  }

  lemma {:induction false} AlignedStart(g: Geo, rs: seq<Record>, b: nat, t: Scan)
    requires g.Valid() && b < |g.addrs|
    requires ScanAt(g, rs, b, t)
    requires Pos(rs, t.record + 1) == Times(b, g.blksize)
    ensures AlignedAt(g, rs, b, 0, t)
  {
    forall i | 0 <= i <= t.record
      ensures t.rlist[i] == InfoAt(g, rs, i, b + 1)
    {
      PosMono(rs, i + 1, t.record + 1);
      InfoStable(g, rs, i, b, b + 1);
    }
  }

  /** Only the current record gains information when one more block is scanned. */
  lemma {:induction false} TableStep(g: Geo, rs: seq<Record>, b: nat, k: nat, was: seq<RecordInfo>,
                                     now: seq<RecordInfo>)
    requires g.Valid() && b < |g.addrs|
    requires TableAt(g, rs, b, k, was) && Pos(rs, k) <= Times(b, g.blksize)
    requires now == was[k := InfoAt(g, rs, k, b + 1)]
    ensures TableAt(g, rs, b + 1, k, now)
  {
    forall i | 0 <= i < k
      ensures now[i] == InfoAt(g, rs, i, b + 1)
    {
      PosMono(rs, i + 1, k);
      InfoStable(g, rs, i, b, b + 1);
    }
  }

  /** The record whose header came before block b puts its first data there. */
  lemma {:induction false} EnterFirst(g: Geo, rs: seq<Record>, b: nat, k: nat, off: nat, was: seq<RecordInfo>)
    requires g.Valid() && b < |g.addrs| && off < 2
    requires TableAt(g, rs, b, k, was) && Pos(rs, k) + 2 == Times(b, g.blksize) + off
    ensures TableAt(g, rs, b + 1, k,
                    was[k := RecordInfo(|rs[k]|, Addr(g.addrs[b], off), Min(|rs[k]|, g.blksize - off),
                                        FileStart(rs, k, g.Lf()), [], b)])
  {
    InfoFirst(g, rs, k, b);
    TableStep(g, rs, b, k, was, was[k := InfoAt(g, rs, k, b + 1)]);
  }

  /** The record under way continues on block b. */
  lemma {:induction false} EnterExt(g: Geo, rs: seq<Record>, b: nat, k: nat, was: seq<RecordInfo>)
    requires g.Valid() && b < |g.addrs|
    requires TableAt(g, rs, b, k, was) && Pos(rs, k) + 2 < Times(b, g.blksize) < Pos(rs, k + 1)
    ensures TableAt(g, rs, b + 1, k,
                    was[k := was[k].(ext := was[k].ext +
                          [Ext(Addr(g.addrs[b], 0), Min(g.blksize, Pos(rs, k + 1) - Times(b, g.blksize)), b)])])
  {
    InfoExt(g, rs, k, b);
    TableStep(g, rs, b, k, was, was[k := InfoAt(g, rs, k, b + 1)]);
  }

  /** A record whose header lies on block b, with room for data behind it. */
  lemma {:induction false} NewFirst(g: Geo, rs: seq<Record>, b: nat, k: nat, was: seq<RecordInfo>)
    requires g.Valid() && b < |g.addrs| && k < |rs|
    requires TableAt(g, rs, b + 1, k - 1, was)
    requires Times(b, g.blksize) <= Pos(rs, k) + 2 < Times(b + 1, g.blksize)
    ensures var off := Pos(rs, k) + 2 - Times(b, g.blksize);
            TableAt(g, rs, b + 1, k,
                    was[k := RecordInfo(|rs[k]|, Addr(g.addrs[b], off), Min(|rs[k]|, g.blksize - off),
                                        FileStart(rs, k, g.Lf()), [], b)])
  {
    InfoFirst(g, rs, k, b);
  }

  /** A header that takes the last byte, or the last two bytes, of block b. */
  lemma {:induction false} NewHeaderOnly(g: Geo, rs: seq<Record>, b: nat, k: nat, was: seq<RecordInfo>)
    requires g.Valid() && b < |g.addrs| && k < |rs|
    requires TableAt(g, rs, b + 1, k - 1, was)
    requires Times(b + 1, g.blksize) <= Pos(rs, k) + 2 <= Times(b + 1, g.blksize) + 1
    ensures TableAt(g, rs, b + 1, k,
                    was[k := EmptyInfo.(total_len := if Pos(rs, k) + 2 == Times(b + 1, g.blksize)
                                                     then |rs[k]| else Word(Hi(|rs[k]|), 0))])
  {
    InfoHeaderOnly(g, rs, k, b);
  }

  /** Entering record k advances the logical total past its linefeed and its bytes. */
  lemma {:induction false} TotalStep(g: Geo, rs: seq<Record>, k: nat)
    requires k < |rs|
    ensures TotalThrough(g, rs, k - 1) + (if g.linefeed && k != 0 then 1 else 0) == FileStart(rs, k, g.Lf())
  {
  }

  // ----- disk contents ----------------------------------------------------------------

  /** The records as laid out on zero-filled blocks. */
  ghost predicate Holds(f: seq<byte>, rs: seq<Record>) {
    Filled(f, Stream(rs))
  }

  function Zeros(n: nat): (z: seq<byte>)
    ensures |z| == n && forall i :: 0 <= i < n ==> z[i] == 0
  {
    seq(n, _ => 0)
  }

  ghost predicate Filled(f: seq<byte>, data: seq<byte>) {
    |data| <= |f| && forall p :: 0 <= p < |f| ==> f[p] == if p < |data| then data[p] else 0
  }

  type Disk = map<int, seq<byte>>

  ghost predicate BlockIs(disk: Disk, addr: int, f: seq<byte>, base: nat, n: nat) {
    && addr in disk && |disk[addr]| == n && base + n <= |f|
    && forall j :: 0 <= j < n ==> disk[addr][j] == f[base + j]
  }

  /** Block b of the file, for each b < n, carries at its disk address the bytes of f from b * blksize on. */
  ghost predicate OnDiskTo(disk: Disk, g: Geo, f: seq<byte>, n: nat)
    requires n <= |g.addrs|
  {
    n == 0 || (OnDiskTo(disk, g, f, n - 1) && BlockIs(disk, g.addrs[n - 1], f, Times(n - 1, g.blksize), g.blksize))
  }

  ghost predicate OnDisk(disk: Disk, g: Geo, f: seq<byte>) {
    |f| == Times(|g.addrs|, g.blksize) && OnDiskTo(disk, g, f, |g.addrs|)
  }

  lemma {:induction false} OnDiskAt(disk: Disk, g: Geo, f: seq<byte>, n: nat, b: nat)
    requires b < n <= |g.addrs| && OnDiskTo(disk, g, f, n)
    ensures BlockIs(disk, g.addrs[b], f, Times(b, g.blksize), g.blksize)
  {
    if b < n - 1 {
      OnDiskAt(disk, g, f, n - 1, b);
    }
  }

  ghost predicate Readable(disk: Disk, a: Addr) {
    a.blk in disk && 0 <= a.off < |disk[a.blk]|
  }

  function ByteAt(disk: Disk, a: Addr): byte
    requires Readable(disk, a)
  {
    disk[a.blk][a.off]
  }

  function WordAt(disk: Disk, a: Addr): int
    requires Readable(disk, a) && Readable(disk, a.Plus(1))
  {
    Word(ByteAt(disk, a), ByteAt(disk, a.Plus(1)))
  }

  lemma {:induction false} DiskByte(disk: Disk, g: Geo, f: seq<byte>, b: nat, off: nat)
    requires g.Valid() && OnDisk(disk, g, f) && b < |g.addrs| && off < g.blksize
    ensures Readable(disk, Addr(g.addrs[b], off)) && Times(b, g.blksize) + off < |f|
    ensures ByteAt(disk, Addr(g.addrs[b], off)) == f[Times(b, g.blksize) + off]
  {
    OnDiskAt(disk, g, f, |g.addrs|, b);
  }

  lemma {:induction false} DiskWord(disk: Disk, g: Geo, f: seq<byte>, b: nat, off: nat)
    requires g.Valid() && OnDisk(disk, g, f) && b < |g.addrs| && off + 1 < g.blksize
    ensures Readable(disk, Addr(g.addrs[b], off)) && Readable(disk, Addr(g.addrs[b], off).Plus(1))
    ensures Times(b, g.blksize) + off + 1 < |f|
    ensures WordAt(disk, Addr(g.addrs[b], off)) == Word(f[Times(b, g.blksize) + off], f[Times(b, g.blksize) + off + 1])
  {
    DiskByte(disk, g, f, b, off);
    DiskByte(disk, g, f, b, off + 1);
  }

  /** The length read in front of the record after k: 0 says that k was the last. */
  lemma {:induction false} NextLen(disk: Disk, g: Geo, rs: seq<Record>, f: seq<byte>, b: nat, off: nat, k: int)
    requires g.Valid() && OnDisk(disk, g, f) && Holds(f, rs)
    requires b < |g.addrs| && -1 <= k < |rs| && off + 1 < g.blksize && Pos(rs, k + 1) == Times(b, g.blksize) + off
    ensures Readable(disk, Addr(g.addrs[b], off)) && Readable(disk, Addr(g.addrs[b], off).Plus(1))
    ensures WordAt(disk, Addr(g.addrs[b], off)) == if k + 1 < |rs| then |rs[k + 1]| else 0
  {
    DiskWord(disk, g, f, b, off);
    if k + 1 < |rs| {
      HeaderAt(f, rs, k + 1);
      WordOfHalves(|rs[k + 1]|);
    } else {
      TrailerAt(f, rs, Pos(rs, |rs|));
      TrailerAt(f, rs, Pos(rs, |rs|) + 1);
    }
  }

  /** The first half of a header cut by the end of block b. */
  lemma {:induction false} HalfHeaderAt(disk: Disk, g: Geo, rs: seq<Record>, f: seq<byte>, b: nat, k: nat)
    requires g.Valid() && OnDisk(disk, g, f) && Holds(f, rs)
    requires b < |g.addrs| && k < |rs| && Pos(rs, k) == Times(b, g.blksize) + g.blksize - 1
    ensures Readable(disk, Addr(g.addrs[b], g.blksize - 1))
    ensures ByteAt(disk, Addr(g.addrs[b], g.blksize - 1)) == Hi(|rs[k]|)
  {
    var h := Hi(|rs[k]|);
    assert Pos(rs, k) < |f| && f[Pos(rs, k)] == h by { HeaderAt(f, rs, k); }
    DiskByte(disk, g, f, b, g.blksize - 1);
  }

  /** The second half of a header cut by the start of block b. */
  lemma {:induction false} SplitHeaderAt(disk: Disk, g: Geo, rs: seq<Record>, f: seq<byte>, b: nat, k: nat)
    requires g.Valid() && OnDisk(disk, g, f) && Holds(f, rs)
    requires b < |g.addrs| && k < |rs| && Pos(rs, k) + 1 == Times(b, g.blksize)
    ensures Readable(disk, Addr(g.addrs[b], 0)) && ByteAt(disk, Addr(g.addrs[b], 0)) == Lo(|rs[k]|)
  {
    var h := Lo(|rs[k]|);
    assert Pos(rs, k) + 1 < |f| && f[Pos(rs, k) + 1] == h by { HeaderAt(f, rs, k); }
    DiskByte(disk, g, f, b, 0);
  }

  /** Behind the last record everything reads as zero. */
  lemma {:induction false} TrailerAt(f: seq<byte>, rs: seq<Record>, p: nat)
    requires Holds(f, rs) && Pos(rs, |rs|) <= p < |f|
    ensures f[p] == 0
  {
    StreamLen(rs);
  }

  lemma {:induction false} HeaderAt(f: seq<byte>, rs: seq<Record>, i: nat)
    requires Holds(f, rs) && i < |rs|
    ensures Pos(rs, i) + 2 + |rs[i]| <= |f|
    ensures f[Pos(rs, i)] == Hi(|rs[i]|)
    ensures f[Pos(rs, i) + 1] == Lo(|rs[i]|)
  {
    StreamAt(rs, i);
    var p := Pos(rs, i);
    assert f[p] == Stream(rs)[p] == Stream(rs)[p..p + 2][0];
    assert f[p + 1] == Stream(rs)[p + 1] == Stream(rs)[p..p + 2][1];
  }
}
