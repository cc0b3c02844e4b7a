/** The open file as an object, and whole runs over it. */
module OpenFile {
  import opened Arith
  import opened RecordStream
  import opened Writer
  import opened VarFile
  import opened FileRead
  import opened PointerTree
  import opened FileTree

  class File {
    const ppb: nat
    const blksize: nat
    const linefeed: bool
    var vol: Volume

    /** The records of the file, what its data blocks hold, and the blocks its pointer tree shows. */
    ghost var records: seq<Record>
    ghost var content: seq<byte>
    ghost var shown: seq<Block>

    ghost predicate Valid()
      reads this
    {
      VolumeOk(ppb, blksize, linefeed, vol, content, records, shown)
    }

    /** A file just created: no blocks, no records. */
    constructor Create(ppb: nat, blksize: nat, linefeed: bool, disk: Disk, ptrs: Blocks)
      requires 2 <= ppb && 4 <= blksize <= 0xffff && 0 !in disk
      ensures Valid() && records == [] && this.ppb == ppb && this.blksize == blksize && this.linefeed == linefeed
      ensures Around(disk, ptrs, vol)
    {
      this.ppb, this.blksize, this.linefeed := ppb, blksize, linefeed;
      vol := Volume(Fields(Out(disk, [], NULL_ADDR, BlockNotInit, 0, RecComplete, 0), [], 0, 0, 0, 0), ptrs, 0, 0);
      records, content, shown := [], [], [];
    }

    /** A file found through its directory entry. */
    constructor Open(ppb: nat, blksize: nat, linefeed: bool, disk: Disk, ptrs: Blocks, e: Fst,
                     ghost bl: seq<Block>, ghost f: seq<byte>, ghost rs: seq<Record>)
      requires Listed(ppb, blksize, disk, ptrs, e, bl, f, rs) && |bl| <= Power(ppb, e.levels)
      ensures Valid() && records == rs && this.ppb == ppb && this.blksize == blksize && this.linefeed == linefeed
      ensures vol.Disk() == disk && vol.ptrs == ptrs && vol.file.nr_records == |rs| && Entry(vol) == e
    {
      var v := OpenEntry(ppb, blksize, linefeed, disk, ptrs, e, bl, f, rs);
      this.ppb, this.blksize, this.linefeed := ppb, blksize, linefeed;
      vol, records, content, shown := v, rs, f, bl;
    }

    /** One record, 1..65535 bytes, at the end of the file; no block outside the file is touched or leaked. */
    method Append(buf: seq<byte>)
      requires Valid() && 1 <= |buf| <= 0xffff
      modifies this
      ensures Valid() && records == old(records) + [buf] && Isolated(old(vol), vol)
      ensures vol.file.record_len == Max(old(vol.file.record_len), |buf|)
    {
      vol, content, shown := FileTree.Append(ppb, blksize, linefeed, vol, buf, content, records, buf, shown);
      records := records + [buf];
    }

    /** Any range of the file; only the read hint changes. */
    method Read(size: nat, offset: nat) returns (buf: seq<byte>)
      requires Valid()
      modifies this`vol
      ensures Valid() && vol == old(vol).(file := old(vol).file.(next_record_hint := vol.file.next_record_hint))
      ensures IsRange(buf, Logical(records, if linefeed then 1 else 0), size, offset)
    {
      var s;
      buf, s := FileRead.Read(blksize, linefeed, vol.file, size, offset, content, records);
      vol := vol.(file := s);
    }
  }

  /** buf is what a read of size bytes at offset gives of l. */
  ghost predicate IsRange(buf: seq<byte>, l: seq<byte>, size: nat, offset: nat) {
    Copied(buf, l, Min(offset, |l|)) && |buf| == Min(size, |l| - Min(offset, |l|))
  }

  /** The blocks that were in use before the file was created: still in use, and unchanged. */
  ghost predicate Around(disk: Disk, ptrs: Blocks, v: Volume) {
    v.Foreign() == disk.Keys && SameData(disk, v.Disk(), disk.Keys) && Agree(ptrs, v.ptrs, disk.Keys)
  }

  lemma {:induction false} AroundStep(disk: Disk, ptrs: Blocks, v: Volume, v': Volume)
    requires Around(disk, ptrs, v) && Isolated(v, v')
    ensures Around(disk, ptrs, v')
  {
  }

  /** Any run of appends to a file just created. */
  method WriteAll(ppb: nat, blksize: nat, linefeed: bool, disk: Disk, ptrs: Blocks, rs: seq<Record>) returns (w: File)
    requires 2 <= ppb && 4 <= blksize <= 0xffff && 0 !in disk
    ensures fresh(w) && w.Valid() && w.records == rs && w.ppb == ppb && w.blksize == blksize && w.linefeed == linefeed
    ensures Around(disk, ptrs, w.vol)
  {
    w := new File.Create(ppb, blksize, linefeed, disk, ptrs);
    for i := 0 to |rs|
      invariant w.Valid() && fresh(w) && w.records == rs[..i] && w.ppb == ppb && w.blksize == blksize
                && w.linefeed == linefeed
      invariant Around(disk, ptrs, w.vol)
    {
      ghost var v := w.vol;
      w.Append(rs[i]);
      AroundStep(disk, ptrs, v, w.vol);
    }
  }

  /** The number of blocks is fixed by the records. */
  lemma {:induction false} BlockCount(blksize: nat, nb: nat, w: nat)
    requires 0 < blksize && Tight(blksize, nb, w)
    ensures nb == CeilQuot(w, blksize)
  {
    CeilQuotIs(w, blksize);
    var n := CeilQuot(w, blksize);
    if n < nb {
      TimesMono(n, nb - 1, blksize);
    } else if nb < n {
      TimesMono(nb, n - 1, blksize);
    }
  }

  /** Whatever a file object has written, a second object reads that knows nothing but the directory entry. */
  method Reread(w: File, size: nat, offset: nat) returns (buf: seq<byte>)
    requires w.Valid() && Reachable(w.ppb, CeilQuot(Pos(w.records, |w.records|), w.blksize))
    ensures IsRange(buf, Logical(w.records, if w.linefeed then 1 else 0), size, offset)
  {
    BlockCount(w.blksize, |w.vol.Blist()|, Pos(w.records, |w.records|));
    ReachesAllIff(w.ppb, |w.vol.Blist()|, w.vol.levels);
    EntryListed(w.ppb, w.blksize, w.linefeed, w.vol, w.content, w.records, w.shown);
    var r := new File.Open(w.ppb, w.blksize, w.linefeed, w.vol.Disk(), w.vol.ptrs, Entry(w.vol), w.vol.Blist(),
        w.content, w.records);
    buf := r.Read(size, offset);
  }

  /** The same for a file whose tree is a level short: the second object finds part of the blocks, and an I/O error
      unless the last of them is marked with the last record. */
  method ReopenInGap(w: File) returns (found: seq<Block>, ok: bool)
    requires w.Valid() && !Reachable(w.ppb, CeilQuot(Pos(w.records, |w.records|), w.blksize))
    ensures 0 < |found| < |w.vol.Blist()| == |w.shown| && PointerTree.Found(w.vol.Blist(), found, |found|)
    ensures ok <==> w.shown[|found| - 1].hi_record_nr == |w.records|
    ensures 0 < |w.records| &&
            (w.shown == w.vol.Blist() ==> (ok <==> Pos(w.records, |w.records| - 1) < Times(|found|, w.blksize)))
  {
    BlockCount(w.blksize, |w.vol.Blist()|, Pos(w.records, |w.records|));
    found, ok := OpenInGap(w.ppb, w.blksize, w.vol, w.linefeed, w.content, w.records, w.shown);
  }

  /** A whole run: any records, written one after the other to an empty file, read back in any range. */
  method WriteThenRead(ppb: nat, blksize: nat, linefeed: bool, disk: Disk, ptrs: Blocks, rs: seq<Record>, size: nat,
                       offset: nat)
    returns (buf: seq<byte>)
    requires 2 <= ppb && 4 <= blksize <= 0xffff && 0 !in disk
    requires Reachable(ppb, CeilQuot(Pos(rs, |rs|), blksize))
    ensures IsRange(buf, Logical(rs, if linefeed then 1 else 0), size, offset)
  {
    var w := WriteAll(ppb, blksize, linefeed, disk, ptrs, rs);
    buf := Reread(w, size, offset);
  }
}
