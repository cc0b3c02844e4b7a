/** The tree of pointer blocks that leads from a directory entry to the data blocks of a variable
    file: writing it, walking it back, finding and updating its last entry, and freeing it. */
module PointerTree {
  import opened Arith
  import opened Writer
  import opened LowestFirst

  /** One entry of a pointer block: the block it leads to, the highest record begun there, and the
      displacement of the first data block under it. */
  datatype VarPtr = VarPtr(next: int, hi_record_nr: int, disp: int)

  const NO_PTR := VarPtr(0, 0, 0)

  /** A pointer block; back is the index of its last used entry. */
  datatype PtrBlock = PtrBlock(vptrs: seq<VarPtr>, back: int)

  type Blocks = map<int, PtrBlock>

  /** What pointer blocks hold, and which blocks of the disk are allocated. */
  datatype Meta = Meta(ptrs: Blocks, used: set<int>)

  function ZeroPtrBlock(ppb: nat): PtrBlock {
    PtrBlock(seq(ppb, _ => NO_PTR), 0)
  }

  // ----- numbering -------------------------------------------------------------------------

  /** get_first_block_nr: the first data block under entry number `entry` of a level. */
  function FirstBlockNr(ppb: nat, level: nat, entry: nat): nat {
    if level <= 1 then entry else FirstBlockNr(ppb, level - 1, Times(entry, ppb))
  }

  /** get_last_block_nr: the last data block in front of entry number `entry`. */
  function LastBlockNr(ppb: nat, level: nat, entry: nat, nr_blocks: nat): int {
    Min(FirstBlockNr(ppb, level, entry) - 1, nr_blocks - 1)
  }

  /** per_level_var: how many entries are needed to reach `entries` things through `level` levels. */
  function PerLevel(ppb: nat, level: nat, entries: nat): nat
    requires 0 < ppb
  {
    if level == 0 then entries else PerLevel(ppb, level - 1, CeilQuot(entries, ppb))
  }

  lemma {:induction false} FirstMono(ppb: nat, level: nat, i: nat, j: nat)
    requires 0 < ppb && i < j
    ensures FirstBlockNr(ppb, level, i) < FirstBlockNr(ppb, level, j)
  {
    if 1 < level {
      TimesMono(i, j, ppb);
      FirstMono(ppb, level - 1, Times(i, ppb), Times(j, ppb));
    }
  }

  lemma {:induction false} FirstScale(ppb: nat, level: nat, i: nat)
    requires 1 < level
    ensures FirstBlockNr(ppb, level, i) == Times(FirstBlockNr(ppb, level - 1, i), ppb)
  {
    if 2 < level {
      FirstScale(ppb, level - 1, Times(i, ppb));
    }
  }

  /** The entries of a level are exactly those with a data block under them. */
  lemma {:induction false} EntryExists(ppb: nat, level: nat, i: nat, nr: nat)
    requires 0 < ppb && 0 < level
    ensures i < PerLevel(ppb, level - 1, nr) <==> FirstBlockNr(ppb, level, i) < nr
  {
    if 1 < level {
      var m, x := CeilQuot(nr, ppb), FirstBlockNr(ppb, level - 1, i);
      EntryExists(ppb, level - 1, i, m);
      FirstScale(ppb, level, i);
      CeilQuotIs(nr, ppb);
      if x < m {
        TimesMono(x, m - 1, ppb);
      } else {
        TimesMono(m, x, ppb);
      }
    }
  }

  /** Used entries of the pointer block whose first entry is `start`. */
  function EndEntry(ppb: nat, level: nat, start: nat, nr: nat): nat
    requires 0 < ppb && 0 < level
  {
    Min(start + ppb, PerLevel(ppb, level - 1, nr))
  }

  /** The first data block behind the pointer block whose first entry is `start`. */
  function EndBlock(ppb: nat, level: nat, start: nat, nr: nat): nat {
    Min(FirstBlockNr(ppb, level, start + ppb), nr)
  }

  lemma {:induction false} EndEntryIs(ppb: nat, level: nat, start: nat, nr: nat)
    requires 0 < ppb && 0 < level && FirstBlockNr(ppb, level, start) < nr
    ensures var end := EndEntry(ppb, level, start, nr);
            start < end && LastBlockNr(ppb, level, end, nr) == EndBlock(ppb, level, start, nr) - 1
  {
    EntryExists(ppb, level, start, nr);
    var end := EndEntry(ppb, level, start, nr);
    EntryExists(ppb, level, end, nr);
    if end < start + ppb {
      FirstMono(ppb, level, end, start + ppb);
    }
  }

  // ----- the tree in the pointer blocks --------------------------------------------------------

  /** The pointer blocks under the first n entries. */
  ghost function Kids(ps: Blocks, level: nat, v: seq<VarPtr>, n: nat): set<int>
    requires n <= |v|
    decreases level, 0, n
  {
    if n == 0 || level <= 1 then {} else Kids(ps, level, v, n - 1) + Nodes(ps, level - 1, v[n - 1].next)
  }

  /** A pointer block with all pointer blocks under it. */
  ghost function Nodes(ps: Blocks, level: nat, addr: int): set<int>
    decreases level, 1, 0
  {
    if level == 0 || addr !in ps then {} else
      {addr} + Kids(ps, level, ps[addr].vptrs, Min(Max(ps[addr].back + 1, 0), |ps[addr].vptrs|))
  }

  /** Entry number i of a level says what it must about the data blocks under it. */
  ghost predicate EntryOk(ppb: nat, ps: Blocks, bl: seq<Block>, level: nat, e: VarPtr, i: nat)
    requires 0 < ppb && 0 < level
    decreases level, 0, 0
  {
    && FirstBlockNr(ppb, level, i) < |bl|
    && 0 <= LastBlockNr(ppb, level, i + 1, |bl|)
    && e.disp == bl[FirstBlockNr(ppb, level, i)].disp
    && e.hi_record_nr == bl[LastBlockNr(ppb, level, i + 1, |bl|)].hi_record_nr
    && e.next != 0
    && if level == 1 then e.next == bl[i].disk_addr else Node(ppb, ps, bl, level - 1, e.next, Times(i, ppb))
  }

  /** The first n entries are right, and lead to separate parts of the tree. */
  ghost predicate EntriesOk(ppb: nat, ps: Blocks, bl: seq<Block>, level: nat, v: seq<VarPtr>, start: nat, n: nat)
    requires 0 < ppb && 0 < level && n <= |v|
    decreases level, 1, n
  {
    n == 0 || (&& EntriesOk(ppb, ps, bl, level, v, start, n - 1)
               && EntryOk(ppb, ps, bl, level, v[n - 1], start + n - 1)
               && (1 < level ==> Nodes(ps, level - 1, v[n - 1].next) !! Kids(ps, level, v, n - 1)))
  }

  /** addr is the pointer block whose first entry is `start`, and everything under it is right. */
  ghost predicate Node(ppb: nat, ps: Blocks, bl: seq<Block>, level: nat, addr: int, start: nat)
    requires 0 < ppb && 0 < level
    decreases level, 2, 0
  {
    && addr in ps && |ps[addr].vptrs| == ppb
    && var n := EndEntry(ppb, level, start, |bl|) - start;
       && 0 < n <= ppb && ps[addr].back == n - 1
       && (n < ppb ==> ps[addr].vptrs[n] == NO_PTR)
       && EntriesOk(ppb, ps, bl, level, ps[addr].vptrs, start, n)
       && addr !in Kids(ps, level, ps[addr].vptrs, n)
  }

  /** ps and ps' hold the same in the blocks of s. */
  ghost predicate Agree(ps: Blocks, ps': Blocks, s: set<int>) {
    forall a :: a in s ==> (a in ps <==> a in ps') && (a in ps ==> ps'[a] == ps[a])
  }

  /** The first n blocks of two block lists are the same. */
  ghost predicate SameFirst(bl: seq<Block>, bl': seq<Block>, n: nat) {
    n <= |bl| == |bl'| && forall b :: 0 <= b < n ==> bl'[b] == bl[b]
  }

  /** A tree depends on its own pointer blocks and on the data blocks under it only. */
  lemma {:induction false} FrameNode(ppb: nat, ps: Blocks, ps': Blocks, bl: seq<Block>, bl': seq<Block>, level: nat,
                                     addr: int, start: nat)
    requires 0 < ppb && 0 < level && Node(ppb, ps, bl, level, addr, start)
    requires Agree(ps, ps', Nodes(ps, level, addr))
    requires SameFirst(bl, bl', EndBlock(ppb, level, start, |bl|))
    ensures Node(ppb, ps', bl', level, addr, start) && Nodes(ps', level, addr) == Nodes(ps, level, addr)
    decreases level, 1, 0
  {
    var v, n := ps[addr].vptrs, ps[addr].back + 1;
    assert addr in Nodes(ps, level, addr);
    assert Kids(ps, level, v, n) <= Nodes(ps, level, addr);
    EndsWith(ppb, level, start, n, |bl|);
    FrameEntries(ppb, ps, ps', bl, bl', level, v, v, start, n);
  }

  /** The blocks under the entries of a pointer block end where the pointer block ends. */
  lemma {:induction false} EndsWith(ppb: nat, level: nat, start: nat, n: nat, nr: nat)
    requires 0 < ppb && 0 < level && 0 < n && start + n == EndEntry(ppb, level, start, nr)
    ensures Min(FirstBlockNr(ppb, level, start + n), nr) == EndBlock(ppb, level, start, nr)
  {
    EntryExists(ppb, level, start + n, nr);
    if n < ppb {
      FirstMono(ppb, level, start + n, start + ppb);
    }
  }

  lemma {:induction false} FrameEntries(ppb: nat, ps: Blocks, ps': Blocks, bl: seq<Block>, bl': seq<Block>, level: nat,
                                        v: seq<VarPtr>, v': seq<VarPtr>, start: nat, n: nat)
    requires 0 < ppb && 0 < level && n <= |v| == |v'|
    requires EntriesOk(ppb, ps, bl, level, v, start, n)
    requires Agree(ps, ps', Kids(ps, level, v, n))
    requires forall j :: 0 <= j < n ==> v'[j] == v[j]
    requires SameFirst(bl, bl', Min(FirstBlockNr(ppb, level, start + n), |bl|))
    ensures EntriesOk(ppb, ps', bl', level, v', start, n) && Kids(ps', level, v', n) == Kids(ps, level, v, n)
    decreases level, 0, n
  {
    if n != 0 {
      var i := start + n - 1;
      FirstMono(ppb, level, i, i + 1);
      FrameEntries(ppb, ps, ps', bl, bl', level, v, v', start, n - 1);
      if 1 < level {
        FrameNode(ppb, ps, ps', bl, bl', level - 1, v[n - 1].next, Times(i, ppb));
      }
    }
  }

  // ----- writing the tree ----------------------------------------------------------------------

  /** get_reserved_block: the lowest block not in use, filled with zeros. */
  method GetReservedBlock(ppb: nat, m: Meta) returns (m': Meta, addr: int)
    ensures 0 < addr && addr !in m.used && FullTo(m.used, addr)
    ensures m' == Meta(m.ptrs[addr := ZeroPtrBlock(ppb)], m.used + {addr})
  {
    ghost var top := BoundedAbove(m.used);
    addr := 1;
    while addr in m.used
      invariant 1 <= addr <= top + 1 && FullTo(m.used, addr)
      decreases top + 1 - addr
    {
      addr := addr + 1;
    }
    m' := Meta(m.ptrs[addr := ZeroPtrBlock(ppb)], m.used + {addr});
  }

  /** Store entry number j of a pointer block. */
  function StorePtr(ps: Blocks, dst: int, j: nat, p: VarPtr): Blocks
    requires dst in ps && j < |ps[dst].vptrs|
  {
    ps[dst := ps[dst].(vptrs := ps[dst].vptrs[j := p])]
  }

  /** Data blocks have addresses; there are no null blocks. */
  ghost predicate NoNull(bl: seq<Block>) {
    forall b :: 0 <= b < |bl| ==> bl[b].disk_addr != 0
  }

  /** n entries of pointer block dst are written; the blocks allocated for it are the blocks under it. */
  ghost predicate Partial(ppb: nat, used: set<int>, m: Meta, bl: seq<Block>, level: nat, dst: int, start: nat, n: nat)
    requires 0 < ppb && 0 < level
  {
    && dst in m.ptrs && dst in used && used <= m.used && |m.ptrs[dst].vptrs| == ppb && n <= ppb
    && EntriesOk(ppb, m.ptrs, bl, level, m.ptrs[dst].vptrs, start, n)
    && Kids(m.ptrs, level, m.ptrs[dst].vptrs, n) == m.used - used
    && forall j :: n <= j < ppb ==> m.ptrs[dst].vptrs[j] == NO_PTR
  }

  /** The step that adds one entry, its subtree written: nothing that was there before has moved. */
  lemma {:induction false} PartialStep(ppb: nat, used: set<int>, m: Meta, m': Meta, bl: seq<Block>, level: nat,
                                       dst: int,
                                       start: nat, n: nat, e: VarPtr)
    requires 0 < ppb && 0 < level && n < ppb && Partial(ppb, used, m, bl, level, dst, start, n)
    requires dst in m'.ptrs && m'.ptrs[dst].vptrs == m.ptrs[dst].vptrs[n := e]
    requires Agree(m.ptrs, m'.ptrs, m.used - {dst}) && m.used <= m'.used
    requires EntryOk(ppb, m'.ptrs, bl, level, e, start + n)
    requires m'.used - m.used == if level == 1 then {} else Nodes(m'.ptrs, level - 1, e.next)
    ensures Partial(ppb, used, m', bl, level, dst, start, n + 1)
  {
    var v, v' := m.ptrs[dst].vptrs, m'.ptrs[dst].vptrs;
    FrameEntries(ppb, m.ptrs, m'.ptrs, bl, bl, level, v, v', start, n);
    assert v'[n] == e;
  }

  /** rewrite_pointer_block_variable: the pointer block with first entry `start`, and all blocks under it. */
  method RewritePointerBlock(ppb: nat, bl: seq<Block>, m: Meta, level: nat, dst: int, start: nat) returns (m': Meta)
    requires 0 < ppb && 0 < level && NoNull(bl) && FirstBlockNr(ppb, level, start) < |bl|
    requires dst in m.ptrs && m.ptrs[dst] == ZeroPtrBlock(ppb) && dst in m.used
    ensures Node(ppb, m'.ptrs, bl, level, dst, start)
    ensures Packs(m.used, m'.used) && Agree(m.ptrs, m'.ptrs, m.used - {dst})
    ensures Nodes(m'.ptrs, level, dst) == m'.used - m.used + {dst}
    decreases level, 1
  {
    var end := EndEntry(ppb, level, start, |bl|);
    EndEntryIs(ppb, level, start, |bl|);
    m' := m;
    for i := start to end
      invariant Partial(ppb, m.used, m', bl, level, dst, start, i - start)
      invariant Agree(m.ptrs, m'.ptrs, m.used - {dst}) && Packs(m.used, m'.used)
    {
      ghost var used := m'.used;
      m' := WriteEntry(ppb, bl, m', level, dst, start, i, m.used);
      PacksTrans(m.used, used, m'.used);
    }
    ghost var v := m'.ptrs[dst].vptrs;
    ghost var was := m'.ptrs;
    m' := m'.(ptrs := m'.ptrs[dst := m'.ptrs[dst].(back := end - start - 1)]);
    FrameEntries(ppb, was, m'.ptrs, bl, bl, level, v, v, start, end - start);
  }

  /** One round of the entry loop: the pointer, then the blocks under it. */
  method WriteEntry(ppb: nat, bl: seq<Block>, m: Meta, level: nat, dst: int, start: nat, i: nat, ghost used: set<int>)
    returns (m': Meta)
    requires 0 < ppb && 0 < level && NoNull(bl) && start <= i < EndEntry(ppb, level, start, |bl|)
    requires Partial(ppb, used, m, bl, level, dst, start, i - start)
    ensures Partial(ppb, used, m', bl, level, dst, start, i - start + 1)
    ensures Agree(m.ptrs, m'.ptrs, m.used - {dst}) && Packs(m.used, m'.used)
    decreases level, 0
  {
    EntryExists(ppb, level, i, |bl|);
    FirstMono(ppb, level, i, i + 1);
    var addr;
    m' := m;
    if level == 1 {
      addr := bl[i].disk_addr;
    } else {
      m', addr := GetReservedBlock(ppb, m);
      PacksNext(m.used, m.used, addr);
    }
    ghost var used1 := m'.used;
    var ptr := VarPtr(addr, bl[LastBlockNr(ppb, level, i + 1, |bl|)].hi_record_nr,
        bl[FirstBlockNr(ppb, level, i)].disp);
    m' := m'.(ptrs := StorePtr(m'.ptrs, dst, i - start, ptr));
    if level > 1 {
      m' := RewritePointerBlock(ppb, bl, m', level - 1, addr, Times(i, ppb));
      PacksTrans(m.used, used1, m'.used);
    }
    PartialStep(ppb, used, m, m', bl, level, dst, start, i - start, ptr);
  }

  lemma {:induction false} EntriesAt(ppb: nat, ps: Blocks, bl: seq<Block>, level: nat, v: seq<VarPtr>, start: nat,
                                     n: nat, j: nat)
    requires 0 < ppb && 0 < level && j < n <= |v| && EntriesOk(ppb, ps, bl, level, v, start, n)
    ensures EntryOk(ppb, ps, bl, level, v[j], start + j)
    ensures EntriesOk(ppb, ps, bl, level, v, start, j + 1)
    ensures Kids(ps, level, v, j + 1) <= Kids(ps, level, v, n)
  {
    if j < n - 1 {
      EntriesAt(ppb, ps, bl, level, v, start, n - 1, j);
    }
  }

  // ----- walking the tree ----------------------------------------------------------------------

  /** The data pointers found so far: addresses and displacements of the first blocks of the file. */
  ghost predicate Found(bl: seq<Block>, vs: seq<Block>, n: int) {
    0 <= n == |vs| <= |bl| && forall b :: 0 <= b < n ==> vs[b].disk_addr == bl[b].disk_addr && vs[b].disp == bl[b].disp
  }

  /** cache_file_variable: the data blocks under a pointer block in file order, each with the displacement
      its pointer carries; a pointer of zeros ends the file. */
  method WalkPointers(ppb: nat, ps: Blocks, level: nat, addr: int, disp: int, nr_blocks: nat, vs0: seq<Block>,
                      ghost bl: seq<Block>, ghost start: nat)
    returns (vs: seq<Block>)
    requires 0 < ppb && nr_blocks == |bl| && Found(bl, vs0, FirstBlockNr(ppb, level, start))
    requires if level == 0 then start < |bl| && addr == bl[start].disk_addr && disp == bl[start].disp
             else Node(ppb, ps, bl, level, addr, start)
    ensures Found(bl, vs, if level == 0 then start + 1 else EndBlock(ppb, level, start, |bl|))
    decreases level
  {
    vs := vs0;
    if level == 0 {
      if |vs| < nr_blocks {
        vs := vs + [Block(addr, disp, 0)];
      }
      return;
    }
    var v := ps[addr].vptrs;
    ghost var n := ps[addr].back + 1;
    EndsWith(ppb, level, start, n, |bl|);
    for j := 0 to ppb
      invariant j <= n && Found(bl, vs, Min(FirstBlockNr(ppb, level, start + j), |bl|))
    {
      if v[j].next == 0 && v[j].hi_record_nr == 0 {
        if j < n {
          EntriesAt(ppb, ps, bl, level, v, start, n, j);
        }
        return;
      }
      EntriesAt(ppb, ps, bl, level, v, start, n, j);
      vs := WalkPointers(ppb, ps, level - 1, v[j].next, v[j].disp, nr_blocks, vs, bl,
                         if level == 1 then start + j else Times(start + j, ppb));
    }
  }

  // ----- freeing the tree ----------------------------------------------------------------------

  /** free_block, for a block that is allocated. */
  function FreeBlock(m: Meta, addr: int): Meta
    requires addr in m.used
  {
    m.(used := m.used - {addr})
  }

  /** purge_pointer_block_variable: every pointer block of the tree is freed once, and no other block. */
  method PurgePointerBlock(ppb: nat, m: Meta, level: nat, addr: int, ghost bl: seq<Block>, ghost start: nat)
    returns (m': Meta)
    requires 0 < ppb && 0 < level && Node(ppb, m.ptrs, bl, level, addr, start)
    requires Nodes(m.ptrs, level, addr) <= m.used
    ensures m'.used == m.used - Nodes(m.ptrs, level, addr) && m'.ptrs == m.ptrs
    decreases level
  {
    m' := m;
    var v := m.ptrs[addr].vptrs;
    ghost var n := m.ptrs[addr].back + 1;
    var j := 0;
    while j < ppb
      invariant 0 <= j <= n && m'.ptrs == m.ptrs
      invariant m'.used == m.used - Kids(m.ptrs, level, v, j)
      invariant level == 1 ==> j == 0
    {
      if level == 1 {
        break;
      }
      if v[j].next == 0 && v[j].hi_record_nr == 0 {
        if j < n {
          EntriesAt(ppb, m.ptrs, bl, level, v, start, n, j);
        }
        break;
      }
      EntriesAt(ppb, m.ptrs, bl, level, v, start, n, j);
      if v[j].next != 0 {
        m' := PurgePointerBlock(ppb, m', level - 1, v[j].next, bl, Times(start + j, ppb));
      }
      j := j + 1;
    }
    assert Kids(m.ptrs, level, v, j) == Kids(m.ptrs, level, v, n);
    m' := FreeBlock(m', addr);
  }

  // ----- the last entry --------------------------------------------------------------------------

  /** locate_last_data_vptr: down the back pointers to the entry of the last data block; an entry whose
      record number is not the file's is an I/O error. */
  method LocateLast(ppb: nat, ps: Blocks, level: nat, addr: int, nr_records: int, ghost bl: seq<Block>,
                    ghost start: nat)
    returns (ok: bool, vptr: VarPtr)
    requires 0 < ppb && 0 < level && Node(ppb, ps, bl, level, addr, start)
    ensures 0 < EndBlock(ppb, level, start, |bl|)
    ensures var last := bl[EndBlock(ppb, level, start, |bl|) - 1];
            && ok == (last.hi_record_nr == nr_records)
            && (ok ==> vptr == VarPtr(last.disk_addr, nr_records, last.disp))
    decreases level
  {
    var last := ps[addr].back;
    vptr := ps[addr].vptrs[last];
    EntriesAt(ppb, ps, bl, level, ps[addr].vptrs, start, last + 1, last);
    EntryExists(ppb, level, start, |bl|);
    EndEntryIs(ppb, level, start, |bl|);
    if vptr.hi_record_nr != nr_records {
      return false, vptr;
    }
    if level == 1 || vptr.next == 0 {
      return true, vptr;
    }
    ok, vptr := LocateLast(ppb, ps, level - 1, vptr.next, nr_records, bl, Times(start + last, ppb));
  }

  /** Only blocks of s differ. */
  ghost predicate OnlyIn(ps: Blocks, ps': Blocks, s: set<int>) {
    ps'.Keys == ps.Keys && forall a :: a in ps && a !in s ==> ps'[a] == ps[a]
  }

  /** Block list with a new record number for block b. */
  function SetHi(bl: seq<Block>, b: nat, hi: int): seq<Block>
    requires b < |bl|
  {
    bl[b := bl[b].(hi_record_nr := hi)]
  }

  /** What is under a pointer block: the blocks under the entries before the last, and the last subtree,
      which ends at the same data block as the whole. */
  lemma {:induction false} LastChild(ppb: nat, ps: Blocks, bl: seq<Block>, level: nat, addr: int, start: nat)
    requires 0 < ppb && 0 < level && Node(ppb, ps, bl, level, addr, start)
    ensures 0 < EndBlock(ppb, level, start, |bl|)
    ensures var last, v := ps[addr].back, ps[addr].vptrs;
            && 0 <= last < |v|
            && EntriesOk(ppb, ps, bl, level, v, start, last)
            && FirstBlockNr(ppb, level, start + last) < EndBlock(ppb, level, start, |bl|)
            && LastBlockNr(ppb, level, start + last + 1, |bl|) == EndBlock(ppb, level, start, |bl|) - 1
            && EntryOk(ppb, ps, bl, level, v[last], start + last)
            && addr !in Kids(ps, level, v, last)
            && (1 < level ==>
                  && Nodes(ps, level - 1, v[last].next) !! {addr} + Kids(ps, level, v, last)
                  && EndBlock(ppb, level - 1, Times(start + last, ppb), |bl|) == EndBlock(ppb, level, start, |bl|))
  {
    var last, v := ps[addr].back, ps[addr].vptrs;
    EntryExists(ppb, level, start, |bl|);
    EndEntryIs(ppb, level, start, |bl|);
    EntriesAt(ppb, ps, bl, level, v, start, last + 1, last);
    FirstMono(ppb, level, start + last, start + last + 1);
  }

  lemma {:induction false} NodeFrom(ppb: nat, ps: Blocks, bl: seq<Block>, level: nat, addr: int, start: nat, last: nat,
                                    v: seq<VarPtr>)
    requires 0 < ppb && 0 < level && last < ppb == |v| && addr in ps && ps[addr] == PtrBlock(v, last)
    requires start + last + 1 == EndEntry(ppb, level, start, |bl|) && (last + 1 < ppb ==> v[last + 1] == NO_PTR)
    requires EntriesOk(ppb, ps, bl, level, v, start, last) && EntryOk(ppb, ps, bl, level, v[last], start + last)
    requires addr !in Kids(ps, level, v, last)
    requires 1 < level ==> Nodes(ps, level - 1, v[last].next) !! {addr} + Kids(ps, level, v, last)
    ensures Node(ppb, ps, bl, level, addr, start)
  {
    assert EntriesOk(ppb, ps, bl, level, v, start, last + 1);
  }

  lemma {:induction false} NodesAre(ps: Blocks, level: nat, addr: int, last: nat, v: seq<VarPtr>)
    requires 0 < level && last < |v| && addr in ps && ps[addr] == PtrBlock(v, last)
    ensures Nodes(ps, level, addr) ==
            {addr} + (Kids(ps, level, v, last) + if level == 1 then {} else Nodes(ps, level - 1, v[last].next))
  {
  }

  lemma {:induction false} SetEntry(ppb: nat, ps: Blocks, ps': Blocks, bl: seq<Block>, bl': seq<Block>, level: nat,
                                    e: VarPtr, i: nat, hi: int)
    requires 0 < ppb && 0 < level && EntryOk(ppb, ps, bl, level, e, i)
    requires bl' == SetHi(bl, LastBlockNr(ppb, level, i + 1, |bl|), hi)
    requires 1 < level ==> Node(ppb, ps', bl', level - 1, e.next, Times(i, ppb))
    ensures EntryOk(ppb, ps', bl', level, e.(hi_record_nr := hi), i)
  {
  }

  /** A pointer block whose last entry, and what is under it, follows a new record number. */
  lemma {:induction false} LastEntryUpdated(ppb: nat, ps: Blocks, ps': Blocks, bl: seq<Block>, bl': seq<Block>,
                                            level: nat, addr: int,
                                            start: nat, hi: int, last: nat, v: seq<VarPtr>, v': seq<VarPtr>)
    requires 0 < ppb && 0 < level && Node(ppb, ps, bl, level, addr, start) && ps[addr] == PtrBlock(v, last)
             && last < |v|
    requires 0 < EndBlock(ppb, level, start, |bl|) && bl' == SetHi(bl, EndBlock(ppb, level, start, |bl|) - 1, hi)
    requires v' == v[last := v[last].(hi_record_nr := hi)] && addr in ps' && ps'[addr] == PtrBlock(v', last)
    requires Agree(ps, ps', Kids(ps, level, v, last))
    requires 1 < level ==> && Node(ppb, ps', bl', level - 1, v[last].next, Times(start + last, ppb))
                           && Nodes(ps', level - 1, v[last].next) == Nodes(ps, level - 1, v[last].next)
    ensures Node(ppb, ps', bl', level, addr, start) && Nodes(ps', level, addr) == Nodes(ps, level, addr)
  {
    assert EntriesOk(ppb, ps', bl', level, v', start, last)
           && Kids(ps', level, v', last) == Kids(ps, level, v, last) by {
      LastChild(ppb, ps, bl, level, addr, start);
      FrameEntries(ppb, ps, ps', bl, bl', level, v, v', start, last);
    }
    assert EntryOk(ppb, ps', bl', level, v'[last], start + last) by {
      LastChild(ppb, ps, bl, level, addr, start);
      SetEntry(ppb, ps, ps', bl, bl', level, v[last], start + last, hi);
    }
    assert addr !in Kids(ps, level, v, last) && (1 < level
           ==> Nodes(ps, level - 1, v[last].next) !! {addr} + Kids(ps, level, v, last)) by {
      LastChild(ppb, ps, bl, level, addr, start);
    }
    NodeFrom(ppb, ps', bl', level, addr, start, last, v');
    NodesAre(ps, level, addr, last, v);
    NodesAre(ps', level, addr, last, v');
  }

  /** The entry has been changed, nothing under it yet. */
  lemma {:induction false} EntryStored(ppb: nat, ps: Blocks, bl: seq<Block>, level: nat, addr: int, start: nat,
                                       last: nat, vptr: VarPtr)
    requires 0 < ppb && 0 < level && Node(ppb, ps, bl, level, addr, start) && last == ps[addr].back
             && last < |ps[addr].vptrs|
    requires vptr.next == ps[addr].vptrs[last].next
    ensures vptr.next != 0 && 0 < EndBlock(ppb, level, start, |bl|)
    ensures var ps1 := StorePtr(ps, addr, last, vptr);
            1 < level ==>
              && Node(ppb, ps1, bl, level - 1, vptr.next, Times(start + last, ppb))
              && Nodes(ps1, level - 1, vptr.next) == Nodes(ps, level - 1, vptr.next)
              && EndBlock(ppb, level - 1, Times(start + last, ppb), |bl|) == EndBlock(ppb, level, start, |bl|)
  {
    LastChild(ppb, ps, bl, level, addr, start);
    if 1 < level {
      FrameNode(ppb, ps, StorePtr(ps, addr, last, vptr), bl, bl, level - 1, vptr.next, Times(start + last, ppb));
    }
  }

  /** The entry has been changed, and what is under it too. */
  lemma {:induction false} EntryUpdated(ppb: nat, ps: Blocks, ps1: Blocks, ps': Blocks, bl: seq<Block>, bl': seq<Block>,
                                        level: nat, addr: int,
                                        start: nat, last: nat, next: int, hi: int)
    requires 0 < ppb && 0 < level && Node(ppb, ps, bl, level, addr, start) && last == ps[addr].back
             && last < |ps[addr].vptrs|
    requires 0 < EndBlock(ppb, level, start, |bl|) && bl' == SetHi(bl, EndBlock(ppb, level, start, |bl|) - 1, hi)
    requires next == ps[addr].vptrs[last].next
    requires ps1 == StorePtr(ps, addr, last, ps[addr].vptrs[last].(hi_record_nr := hi))
    requires if level == 1 then ps' == ps1
             else && Node(ppb, ps', bl', level - 1, next, Times(start + last, ppb))
                  && Nodes(ps', level - 1, next) == Nodes(ps, level - 1, next)
                  && OnlyIn(ps1, ps', Nodes(ps, level - 1, next))
    ensures Node(ppb, ps', bl', level, addr, start)
    ensures Nodes(ps', level, addr) == Nodes(ps, level, addr) && OnlyIn(ps, ps', Nodes(ps, level, addr))
  {
    var v := ps[addr].vptrs;
    assert addr !in Kids(ps, level, v, last) && (1 < level
           ==> Nodes(ps, level - 1, next) !! {addr} + Kids(ps, level, v, last)) by {
      LastChild(ppb, ps, bl, level, addr, start);
    }
    LastEntryUpdated(ppb, ps, ps', bl, bl', level, addr, start, hi, last, v, ps'[addr].vptrs);
    NodesAre(ps, level, addr, last, v);
  }

  /** update_last_block_vptr: in place, down the back pointers; afterwards the tree is the one a rewrite for
      the changed block list would produce. */
  method UpdateLast(ppb: nat, ps: Blocks, level: nat, addr: int, nr_records: int, ghost bl: seq<Block>,
                    ghost start: nat)
    returns (ps': Blocks)
    requires 0 < ppb && 0 < level && Node(ppb, ps, bl, level, addr, start)
    ensures 0 < EndBlock(ppb, level, start, |bl|)
    ensures Node(ppb, ps', SetHi(bl, EndBlock(ppb, level, start, |bl|) - 1, nr_records), level, addr, start)
    ensures Nodes(ps', level, addr) == Nodes(ps, level, addr) && OnlyIn(ps, ps', Nodes(ps, level, addr))
    decreases level
  {
    var last := ps[addr].back;
    var vptr := ps[addr].vptrs[last];
    vptr := vptr.(hi_record_nr := nr_records);
    ps' := StorePtr(ps, addr, last, vptr);
    ghost var ps1 := ps';
    EntryStored(ppb, ps, bl, level, addr, start, last, vptr);
    if level > 1 && vptr.next != 0 {
      ps' := UpdateLast(ppb, ps', level - 1, vptr.next, nr_records, bl, Times(start + last, ppb));
    }
    EntryUpdated(ppb, ps, ps1, ps', bl, SetHi(bl, EndBlock(ppb, level, start, |bl|) - 1, nr_records), level, addr,
                 start, last, vptr.next, nr_records);
  }

  // ----- how many levels -------------------------------------------------------------------------

  lemma {:induction false} FirstIsPower(ppb: nat, level: nat, i: nat)
    requires 0 < level
    ensures FirstBlockNr(ppb, level, i) == Times(i, Power(ppb, level - 1))
  {
    if level == 1 {
      TimesOne(i);
    } else {
      FirstIsPower(ppb, level - 1, Times(i, ppb));
      TimesAssoc(i, ppb, Power(ppb, level - 2));
    }
  }

  /** The least number of levels, from 1 on, whose reach comes within one pointer block of nr. */
  ghost predicate LeastLevels(ppb: nat, nr: nat, levels: nat) {
    if nr < 2 then levels == 0 else
      && 0 < levels && nr < Times(ppb + 1, Power(ppb, levels - 1))
      && forall l: nat {:trigger Power(ppb, l)} :: l + 1 < levels ==> Times(ppb + 1, Power(ppb, l)) <= nr
  }

  lemma {:induction false} QuotLess(x: nat, b: nat)
    requires 2 <= b <= x
    ensures Quot(x, b) < x
  {
    QuotAtMost(x - b, b);
  }

  lemma {:induction false} QuotAtMost(x: nat, b: nat)
    requires 0 < b
    ensures Quot(x, b) <= x
  {
    if b <= x {
      QuotAtMost(x - b, b);
    }
  }

  /** update_levels. */
  method UpdateLevels(ppb: nat, nr_blocks: nat) returns (levels: nat)
    requires 2 <= ppb
    ensures LeastLevels(ppb, nr_blocks, levels)
  {
    var blocks := nr_blocks;
    levels := 1;
    if blocks < 2 {
      return 0;
    }
    TimesOne(blocks);
    while Quot(blocks, ppb + 1) != 0
      invariant 1 <= levels
      invariant Times(blocks, Power(ppb, levels - 1)) <= nr_blocks < Times(blocks + 1, Power(ppb, levels - 1))
      invariant forall l: nat {:trigger Power(ppb, l)} :: l + 1 < levels ==> Times(ppb + 1, Power(ppb, l)) <= nr_blocks
      decreases blocks
    {
      TimesMono(ppb + 1, blocks, Power(ppb, levels - 1));
      DivideTwice(nr_blocks, blocks, ppb, Power(ppb, levels - 1));
      QuotLess(blocks, ppb);
      levels := levels + 1;
      blocks := Quot(blocks, ppb);
    }
    TimesMono(blocks + 1, ppb + 1, Power(ppb, levels - 1));
  }

  /** Never deeper than needed: one level less would not do. */
  lemma {:induction false} NeverTooDeep(ppb: nat, nr: nat, levels: nat)
    requires 0 < ppb && LeastLevels(ppb, nr, levels) && 0 < levels
    ensures Power(ppb, levels - 1) < nr
  {
    if 1 < levels {
      assert Times(ppb + 1, Power(ppb, levels - 2)) <= nr;
      PowerPositive(ppb, levels - 2);
    }
  }

  /** The block counts for which the division in update_levels, which rounds down, leaves the tree one level short. */
  ghost predicate InGap(ppb: nat, nr: nat, l: nat) {
    2 <= l && Power(ppb, l) < nr < Times(ppb + 1, Power(ppb, l - 1))
  }

  /** The block count is in none of the gaps. */
  ghost predicate Reachable(ppb: nat, nr: nat) {
    forall l: nat :: !InGap(ppb, nr, l)
  }

  /** The tree reaches every block exactly when the block count is in none of the gaps. */
  lemma {:induction false} ReachesAllIff(ppb: nat, nr: nat, levels: nat)
    requires 2 <= ppb && LeastLevels(ppb, nr, levels)
    ensures nr <= Power(ppb, levels) <==> Reachable(ppb, nr)
  {
    if 2 <= nr {
      TimesOne(ppb);
      if Power(ppb, levels) < nr {
        TimesOne(ppb + 1);
        assert InGap(ppb, nr, levels);
      } else {
        forall l: nat
          ensures !InGap(ppb, nr, l)
        {
          if 1 <= l < levels {
            assert Times(ppb + 1, Power(ppb, l - 1)) <= nr;
          } else if levels <= l {
            PowerMono(ppb, levels, l);
          }
        }
      }
    }
  }

  /** 42 pointers fit a block of 512 bytes: a file of 1765 blocks gets two levels, which reach 1764. */
  lemma {:induction false} GapExample()
    ensures LeastLevels(42, 1765, 2) && InGap(42, 1765, 2) && Power(42, 2) == 1764
  {
    TimesIsMul(42, 42);
    TimesIsMul(43, 42);
    TimesOne(42);
    TimesOne(43);
    assert Power(42, 1) == 42;
  }

  // ----- the pointers of a file --------------------------------------------------------------------

  /** fop leads through `levels` levels of pointer blocks to the data blocks. */
  ghost predicate Rooted(ppb: nat, ps: Blocks, bl: seq<Block>, levels: nat, fop: int)
    requires 0 < ppb
  {
    if |bl| < 2 then levels == 0 && fop == (if |bl| == 0 then 0 else bl[0].disk_addr)
    else 0 < levels && Node(ppb, ps, bl, levels, fop, 0)
  }

  /** rewrite_pointers: a new tree in blocks that were free. */
  method RewritePointers(ppb: nat, bl: seq<Block>, m: Meta, levels: nat) returns (m': Meta, fop: int)
    requires 0 < ppb && NoNull(bl) && (|bl| < 2 <==> levels == 0)
    ensures Rooted(ppb, m'.ptrs, bl, levels, fop)
    ensures Packs(m.used, m'.used) && Agree(m.ptrs, m'.ptrs, m.used)
    ensures Nodes(m'.ptrs, levels, fop) == m'.used - m.used
  {
    m' := m;
    if |bl| == 0 {
      return m', 0;
    }
    if |bl| == 1 {
      return m', bl[0].disk_addr;
    }
    m', fop := GetReservedBlock(ppb, m);
    PacksNext(m.used, m.used, fop);
    ghost var used := m'.used;
    FirstIsPower(ppb, levels, 0);
    m' := RewritePointerBlock(ppb, bl, m', levels, fop, 0);
    PacksTrans(m.used, used, m'.used);
  }

  /** delete_pointers. */
  method DeletePointers(ppb: nat, m: Meta, levels: nat, fop: int, ghost bl: seq<Block>) returns (m': Meta)
    requires 0 < ppb && Rooted(ppb, m.ptrs, bl, levels, fop) && Nodes(m.ptrs, levels, fop) <= m.used
    ensures m'.ptrs == m.ptrs && m'.used == m.used - Nodes(m.ptrs, levels, fop)
  {
    m' := m;
    if levels != 0 {
      m' := PurgePointerBlock(ppb, m, levels, fop, bl, 0);
    }
  }

  /** Deleting the tree just written gives back exactly the blocks it took. */
  method WriteThenDelete(ppb: nat, bl: seq<Block>, m: Meta, levels: nat) returns (m': Meta)
    requires 0 < ppb && NoNull(bl) && (|bl| < 2 <==> levels == 0)
    ensures m'.used == m.used && Agree(m.ptrs, m'.ptrs, m.used)
  {
    var m1, fop := RewritePointers(ppb, bl, m, levels);
    m' := DeletePointers(ppb, m1, levels, fop, bl);
  }

  /** The pointers of a file, walked back: the first blocks, as many as the tree reaches, with their displacements. */
  method ReadPointers(ppb: nat, ps: Blocks, levels: nat, fop: int, nr_blocks: nat, ghost bl: seq<Block>)
    returns (vs: seq<Block>)
    requires 0 < ppb && Rooted(ppb, ps, bl, levels, fop) && nr_blocks == |bl| && (0 < |bl| ==> bl[0].disp == 0)
    ensures Found(bl, vs, Min(|bl|, Power(ppb, levels)))
  {
    PowerPositive(ppb, levels);
    if nr_blocks == 0 {
      return [];
    }
    if levels != 0 {
      FirstIsPower(ppb, levels, 0);
      FirstIsPower(ppb, levels, ppb);
    }
    vs := WalkPointers(ppb, ps, levels, fop, 0, nr_blocks, [], bl, 0);
  }

  /** Round trip: written with the levels that update_levels gives, walked back, the pointers are the block list
      again if and only if the block count is in none of the gaps. */
  method PointerRoundTrip(ppb: nat, bl: seq<Block>, m: Meta) returns (vs: seq<Block>)
    requires 2 <= ppb && NoNull(bl) && (0 < |bl| ==> bl[0].disp == 0)
    ensures Found(bl, vs, |vs|)
    ensures Found(bl, vs, |bl|) <==> Reachable(ppb, |bl|)
  {
    var levels := UpdateLevels(ppb, |bl|);
    var m', fop := RewritePointers(ppb, bl, m, levels);
    vs := ReadPointers(ppb, m'.ptrs, levels, fop, |bl|, bl);
    ReachesAllIff(ppb, |bl|, levels);
  }
}
