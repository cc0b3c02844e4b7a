/** One byte of the allocation map; bit 0 is the most significant one. */
module MapByte {

  const MASKS: seq<bv8> := [0x80, 0x40, 0x20, 0x10, 0x08, 0x04, 0x02, 0x01]

  /** 1 << (7 - bit), see MaskIsShift. */
  function Mask(bit: nat): bv8
    requires bit < 8
  {
    MASKS[bit]
  }

  lemma {:induction false} MaskIsShift(bit: nat)
    requires bit < 8
    ensures Mask(bit) == (1 as bv8) << (7 - bit)
  {
    assert bit == 0 || bit == 1 || bit == 2 || bit == 3 || bit == 4 || bit == 5 || bit == 6 || bit == 7;
  }

  predicate BitIn(e: bv8, bit: nat)
    requires bit < 8
  {
    e & Mask(bit) != 0
  }

  function TurnOn(e: bv8, bit: nat): bv8
    requires bit < 8
  {
    e | Mask(bit)
  }

  function TurnOff(e: bv8, bit: nat): bv8
    requires bit < 8
  {
    e & !Mask(bit)
  }

  lemma {:induction false} MasksApart(i: nat, j: nat)
    requires i < 8 && j < 8
    ensures if i == j then Mask(i) & Mask(j) == Mask(i) && Mask(i) != 0 else Mask(i) & Mask(j) == 0
  {
    assert i == 0 || i == 1 || i == 2 || i == 3 || i == 4 || i == 5 || i == 6 || i == 7;
    assert j == 0 || j == 1 || j == 2 || j == 3 || j == 4 || j == 5 || j == 6 || j == 7;
  }

  lemma {:induction false} OnAlgebra(e: bv8, m: bv8, n: bv8)
    requires m & n == 0
    ensures (e | m) & n == e & n
  {
  }

  lemma {:induction false} OffAlgebra(e: bv8, m: bv8, n: bv8)
    requires m & n == 0
    ensures (e & !m) & n == e & n
  {
  }

  lemma {:induction false} SameAlgebra(e: bv8, m: bv8)
    ensures (e | m) & m == m && (e & !m) & m == 0 && (e & m == 0 ==> (e | m) & !m == e)
  {
  }

  /** Turning a bit on or off changes that bit only. */
  lemma {:induction false} OtherBit(e: bv8, i: nat, j: nat)
    requires i < 8 && j < 8 && i != j
    ensures BitIn(TurnOn(e, i), j) == BitIn(e, j) && BitIn(TurnOff(e, i), j) == BitIn(e, j)
  {
    MasksApart(i, j);
    OnAlgebra(e, Mask(i), Mask(j));
    OffAlgebra(e, Mask(i), Mask(j));
  }

  /** The bit itself; turning it off undoes turning it on. */
  lemma {:induction false} SameBit(e: bv8, i: nat)
    requires i < 8
    ensures BitIn(TurnOn(e, i), i) && !BitIn(TurnOff(e, i), i) && (!BitIn(e, i) ==> TurnOff(TurnOn(e, i), i) == e)
  {
    MasksApart(i, i);
    SameAlgebra(e, Mask(i));
  }

  lemma {:induction false} TurnedOn(e: bv8, i: nat, j: nat)
    requires i < 8 && j < 8
    ensures BitIn(TurnOn(e, i), j) == (i == j || BitIn(e, j))
    ensures BitIn(TurnOff(e, i), j) == (i != j && BitIn(e, j))
    ensures !BitIn(e, i) ==> TurnOff(TurnOn(e, i), i) == e
  {
    SameBit(e, i);
    if i != j {
      OtherBit(e, i, j);
    }
  }

  lemma {:induction false} AllOn(e: bv8)
    ensures e == 0xff <==> forall i :: 0 <= i < 8 ==> BitIn(e, i)
  {
    if forall i :: 0 <= i < 8 ==> BitIn(e, i) {
      assert BitIn(e, 0) && BitIn(e, 1) && BitIn(e, 2) && BitIn(e, 3) && BitIn(e, 4) && BitIn(e, 5) && BitIn(e, 6)
             && BitIn(e, 7);
    }
  }

  /** A byte is its bits. */
  lemma {:induction false} SameBits(e: bv8, e': bv8)
    requires forall i :: 0 <= i < 8 ==> BitIn(e, i) == BitIn(e', i)
    ensures e == e'
  {
    assert BitIn(e, 0) == BitIn(e', 0) && BitIn(e, 1) == BitIn(e', 1) && BitIn(e, 2) == BitIn(e', 2)
           && BitIn(e, 3) == BitIn(e', 3);
    assert BitIn(e, 4) == BitIn(e', 4) && BitIn(e, 5) == BitIn(e', 5) && BitIn(e, 6) == BitIn(e', 6)
           && BitIn(e, 7) == BitIn(e', 7);
  }

  /** find_first_empty_bit: there is one, since the byte is not full. */
  method FindFirstEmptyBit(e: bv8) returns (bit: nat)
    requires e != 0xff
    ensures bit < 8 && !BitIn(e, bit) && forall j :: 0 <= j < bit ==> BitIn(e, j)
  {
    AllOn(e);
    bit := 0;
    while bit < 8
      invariant bit <= 8 && forall j :: 0 <= j < bit ==> BitIn(e, j)
    {
      if !BitIn(e, bit) {
        return;
      }
      bit := bit + 1;
    }
  }
}

/** The allocation map: a bitmap of the disk's blocks, cut into bitmap blocks that a tree of pointer
    blocks leads to, with a hint where to look for the next free block. */
module AllocMap {
  import opened Arith
  import opened MapByte

  /** What does not change: block size, pointers per block, disk size in blocks, root and depth of the tree,
      its pointer blocks, and how many bitmap blocks there are. */
  datatype Layout = Layout(blksize: nat, ppb: nat, total_blocks: nat, levels: nat, root: int,
                           ptrs: map<int, seq<int>>, leaves: nat) {
    /** Disk blocks one bitmap block stands for. */
    function Bits(): nat { 8 * blksize }

    /** Bytes of disk one bitmap block stands for. */
    function BytesPerBlock(): nat { Times(Bits(), blksize) }
  }

  type Bitmaps = map<int, seq<bv8>>

  /** Where the last allocation or the last free of a lower block happened: the byte of the map, and the disk
      address. */
  datatype Hint = NoHint | Hint(amap: int, byte: int, addr: int)

  datatype Amap = Amap(maps: Bitmaps, hint: Hint, used_blocks: int)

  // ----- addressing ---------------------------------------------------------------------------------

  /** amap_blocknumber_level, from the number of the bitmap block on. */
  function AtLevel(ppb: nat, level: nat, k: nat): nat
    requires 0 < ppb
  {
    if level <= 1 then k else AtLevel(ppb, level - 1, Quot(k, ppb))
  }

  /** get_amap_addr: down the tree to bitmap block number k. */
  function LeafFrom(l: Layout, level: nat, ptr: int, k: nat): int
    requires 0 < l.ppb
  {
    if level == 0 then ptr else
      var block := Rem(AtLevel(l.ppb, level, k), l.ppb);
      if ptr in l.ptrs && block < |l.ptrs[ptr]| then LeafFrom(l, level - 1, l.ptrs[ptr][block], k) else 0
  }

  function Leaf(l: Layout, k: nat): int
    requires 0 < l.ppb
  {
    LeafFrom(l, l.levels, l.root, k)
  }

  /** The tree under ptr has a pointer for every bitmap block from k on that exists, and null behind. */
  ghost predicate TreeOk(l: Layout, level: nat, ptr: int, k: nat)
    requires 0 < l.ppb
    decreases level
  {
    ptr != 0 && k < l.leaves &&
    (level == 0 || (&& ptr in l.ptrs && |l.ptrs[ptr]| == l.ppb
                    && forall i {:trigger l.ptrs[ptr][i]} :: 0 <= i < l.ppb ==>
                         ChildOk(l, level, l.ptrs[ptr][i], k + Times(i, Power(l.ppb, level - 1)))))
  }

  ghost predicate ChildOk(l: Layout, level: nat, ptr: int, k: nat)
    requires 0 < l.ppb && 0 < level
    decreases level, 0
  {
    if k < l.leaves then TreeOk(l, level - 1, ptr, k) else ptr == 0
  }

  ghost predicate LayoutOk(l: Layout) {
    && 0 < l.blksize && 0 < l.ppb
    && l.total_blocks <= Times(l.leaves, l.Bits()) && l.leaves <= Power(l.ppb, l.levels)
    && TreeOk(l, l.levels, l.root, 0)
    && forall j, k {:trigger Leaf(l, j), Leaf(l, k)} :: 0 <= j < k < l.leaves ==> Leaf(l, j) != Leaf(l, k)
  }

  ghost predicate MapsOk(l: Layout, maps: Bitmaps)
    requires 0 < l.ppb
  {
    forall k {:trigger Leaf(l, k)} :: 0 <= k < l.leaves ==> Leaf(l, k) in maps && |maps[Leaf(l, k)]| == l.blksize
  }

  /** Where bit number n of the map stands. */
  function LeafNr(l: Layout, n: nat): nat
    requires 0 < l.blksize
  {
    Quot(n, l.Bits())
  }

  function ByteNr(l: Layout, n: nat): (b: nat)
    requires 0 < l.blksize
    ensures b < l.blksize
  {
    Rem(n, l.Bits()) / 8
  }

  function BitNr(l: Layout, n: nat): (b: nat)
    requires 0 < l.blksize
    ensures b < 8
  {
    Rem(n, l.Bits()) % 8
  }

  /** Block n is marked as allocated. */
  ghost predicate Marked(l: Layout, maps: Bitmaps, n: nat)
    requires 0 < l.blksize && 0 < l.ppb
  {
    var leaf := Leaf(l, LeafNr(l, n));
    leaf in maps && ByteNr(l, n) < |maps[leaf]| && BitIn(maps[leaf][ByteNr(l, n)], BitNr(l, n))
  }

  function PutByte(maps: Bitmaps, leaf: int, byte: nat, e: bv8): Bitmaps {
    if leaf in maps && byte < |maps[leaf]| then maps[leaf := maps[leaf][byte := e]] else maps
  }

  function GetByte(maps: Bitmaps, leaf: int, byte: nat): bv8 {
    if leaf in maps && byte < |maps[leaf]| then maps[leaf][byte] else 0
  }

  /** Bit number of a position in the map. */
  function BlockAt(l: Layout, k: nat, byte: nat, bit: nat): nat {
    Times(k, l.Bits()) + 8 * byte + bit
  }

  lemma {:induction false} PlaceOf(l: Layout, k: nat, byte: nat, bit: nat)
    requires 0 < l.blksize && byte < l.blksize && bit < 8
    ensures var n := BlockAt(l, k, byte, bit); LeafNr(l, n) == k && ByteNr(l, n) == byte && BitNr(l, n) == bit
  {
    QuotIs(BlockAt(l, k, byte, bit), l.Bits(), k);
  }

  lemma {:induction false} PlaceIs(l: Layout, n: nat)
    requires 0 < l.blksize
    ensures n == BlockAt(l, LeafNr(l, n), ByteNr(l, n), BitNr(l, n))
  {
    QuotOf(n, l.Bits());
  }

  /** A block number below the end of the map has a bitmap block. */
  lemma {:induction false} LeafExists(l: Layout, n: nat)
    requires 0 < l.blksize && n < Times(l.leaves, l.Bits())
    ensures LeafNr(l, n) < l.leaves
  {
    QuotOf(n, l.Bits());
    TimesCancel(LeafNr(l, n), l.leaves, l.Bits());
  }

  /** Different blocks have different bits. */
  lemma {:induction false} MarkedPut(l: Layout, maps: Bitmaps, n: nat, e: bv8, m: nat)
    requires LayoutOk(l) && MapsOk(l, maps) && n < Times(l.leaves, l.Bits()) && m < Times(l.leaves, l.Bits())
    requires forall j :: 0 <= j < 8 && j != BitNr(l, n)
               ==> BitIn(e, j) == BitIn(GetByte(maps, Leaf(l, LeafNr(l, n)), ByteNr(l, n)), j)
    ensures var maps' := PutByte(maps, Leaf(l, LeafNr(l, n)), ByteNr(l, n), e);
            && MapsOk(l, maps')
            && Marked(l, maps', m) == if m == n then BitIn(e, BitNr(l, n)) else Marked(l, maps, m)
  {
    LeafExists(l, n);
    LeafExists(l, m);
    PlaceIs(l, n);
    PlaceIs(l, m);
    var j, k := LeafNr(l, n), LeafNr(l, m);
    assert Leaf(l, j) in maps && Leaf(l, k) in maps;
    assert j != k ==> Leaf(l, j) != Leaf(l, k);
  }

  // ----- the tree is walked in the order of the disk -----------------------------------------------------

  lemma {:induction false} AtLevelIs(ppb: nat, level: nat, k: nat)
    requires 0 < ppb && 0 < level && 0 < Power(ppb, level - 1)
    ensures AtLevel(ppb, level, k) == Quot(k, Power(ppb, level - 1))
  {
    if level == 1 {
      TimesOne(k);
      QuotIs(k, 1, k);
    } else {
      PowerPositive(ppb, level - 2);
      AtLevelIs(ppb, level - 1, Quot(k, ppb));
      TimesSwap(ppb, Power(ppb, level - 2));
      QuotQuot(k, Power(ppb, level - 2), ppb);
    }
  }

  /** The bitmap blocks from k on, as many as the level spans, are found through ptr. */
  ghost predicate Through(l: Layout, level: nat, ptr: int, k: nat)
    requires 0 < l.ppb
  {
    forall j {:trigger Leaf(l, j)} :: k <= j < k + Power(l.ppb, level) ==> Leaf(l, j) == LeafFrom(l, level, ptr, j)
  }

  lemma {:induction false} ChildIndex(ppb: nat, level: nat, q: nat, i: nat, j: nat)
    requires 0 < ppb && 0 < level && i < ppb
    requires var r := Power(ppb, level - 1);
             Times(q, Power(ppb, level)) + Times(i, r) <= j < Times(q, Power(ppb, level)) + Times(i + 1, r)
    ensures Rem(AtLevel(ppb, level, j), ppb) == i
  {
    var r := Power(ppb, level - 1);
    PowerPositive(ppb, level - 1);
    AtLevelIs(ppb, level, j);
    TimesAssoc(q, ppb, r);
    TimesAdd(Times(q, ppb), i, r);
    QuotIs(j, r, Times(q, ppb) + i);
    QuotIs(Times(q, ppb) + i, ppb, q);
  }

  lemma {:induction false} ThroughChild(l: Layout, level: nat, ptr: int, k: nat, q: nat, i: nat)
    requires 0 < l.ppb && 0 < level && i < l.ppb && k == Times(q, Power(l.ppb, level))
    requires ptr in l.ptrs && |l.ptrs[ptr]| == l.ppb && Through(l, level, ptr, k)
    ensures Through(l, level - 1, l.ptrs[ptr][i], k + Times(i, Power(l.ppb, level - 1)))
    ensures k + Times(i, Power(l.ppb, level - 1)) == Times(Times(q, l.ppb) + i, Power(l.ppb, level - 1))
  {
    var r := Power(l.ppb, level - 1);
    TimesAssoc(q, l.ppb, r);
    TimesAdd(Times(q, l.ppb), i, r);
    TimesMono(i + 1, l.ppb, r);
    forall j | k + Times(i, r) <= j < k + Times(i, r) + r
      ensures Leaf(l, j) == LeafFrom(l, level - 1, l.ptrs[ptr][i], j)
    {
      ChildIndex(l.ppb, level, q, i, j);
    }
  }

  // ----- finding the lowest free block --------------------------------------------------------------------

  ghost predicate AllMarked(l: Layout, maps: Bitmaps, n: int)
    requires 0 < l.blksize && 0 < l.ppb
  {
    forall m {:trigger Marked(l, maps, m)} :: 0 <= m < n ==> Marked(l, maps, m)
  }

  function Mark(l: Layout, maps: Bitmaps, n: nat): Bitmaps
    requires 0 < l.blksize && 0 < l.ppb
  {
    var leaf := Leaf(l, LeafNr(l, n));
    PutByte(maps, leaf, ByteNr(l, n), TurnOn(GetByte(maps, leaf, ByteNr(l, n)), BitNr(l, n)))
  }

  function Unmark(l: Layout, maps: Bitmaps, n: nat): Bitmaps
    requires 0 < l.blksize && 0 < l.ppb
  {
    var leaf := Leaf(l, LeafNr(l, n));
    PutByte(maps, leaf, ByteNr(l, n), TurnOff(GetByte(maps, leaf, ByteNr(l, n)), BitNr(l, n)))
  }

  lemma {:induction false} MarkedMark(l: Layout, maps: Bitmaps, n: nat, m: nat)
    requires LayoutOk(l) && MapsOk(l, maps) && n < Times(l.leaves, l.Bits()) && m < Times(l.leaves, l.Bits())
    ensures MapsOk(l, Mark(l, maps, n)) && Marked(l, Mark(l, maps, n), m) == (m == n || Marked(l, maps, m))
    ensures MapsOk(l, Unmark(l, maps, n)) && Marked(l, Unmark(l, maps, n), m) == (m != n && Marked(l, maps, m))
  {
    var e, b := GetByte(maps, Leaf(l, LeafNr(l, n)), ByteNr(l, n)), BitNr(l, n);
    forall j | 0 <= j < 8
      ensures BitIn(TurnOn(e, b), j) == (b == j || BitIn(e, j)) && BitIn(TurnOff(e, b), j) == (b != j && BitIn(e, j))
    {
      TurnedOn(e, b, j);
    }
    MarkedPut(l, maps, n, TurnOn(e, b), m);
    MarkedPut(l, maps, n, TurnOff(e, b), m);
  }

  /** Unmarking undoes marking, byte for byte. */
  lemma {:induction false} UnmarkMark(l: Layout, maps: Bitmaps, n: nat)
    requires LayoutOk(l) && MapsOk(l, maps) && n < Times(l.leaves, l.Bits()) && !Marked(l, maps, n)
    ensures Unmark(l, Mark(l, maps, n), n) == maps
  {
    LeafExists(l, n);
    var leaf, byte, bit := Leaf(l, LeafNr(l, n)), ByteNr(l, n), BitNr(l, n);
    TurnedOn(GetByte(maps, leaf, byte), bit, bit);
    var maps' := Mark(l, maps, n);
    assert maps'[leaf][byte := maps[leaf][byte]] == maps[leaf];
  }

  /** The byte loop of both searches: the first byte from `from` on that is not full, and its first empty bit. */
  method ScanBytes(map_block: seq<bv8>, from: nat) returns (i: nat, bit: nat)
    requires from <= |map_block|
    ensures from <= i <= |map_block| && forall j :: from <= j < i ==> map_block[j] == 0xff
    ensures i < |map_block| ==>
              bit < 8 && !BitIn(map_block[i], bit) && forall j :: 0 <= j < bit ==> BitIn(map_block[i], j)
  {
    i, bit := from, 0;
    while i < |map_block|
      invariant from <= i <= |map_block| && forall j :: from <= j < i ==> map_block[j] == 0xff
    {
      if map_block[i] != 0xff {
        bit := FindFirstEmptyBit(map_block[i]);
        return;
      }
      i := i + 1;
    }
  }

  /** Full bytes extend the part of the map that is known to be marked. */
  lemma {:induction false} FullBytes(l: Layout, maps: Bitmaps, k: nat, from: nat, i: nat, bit: nat)
    requires LayoutOk(l) && MapsOk(l, maps) && k < l.leaves && from <= i <= l.blksize && bit < 8
    requires AllMarked(l, maps, BlockAt(l, k, from, 0))
    requires forall j :: from <= j < i ==> maps[Leaf(l, k)][j] == 0xff
    requires bit == 0 || (i < l.blksize && forall j :: 0 <= j < bit ==> BitIn(maps[Leaf(l, k)][i], j))
    ensures AllMarked(l, maps, BlockAt(l, k, i, bit))
  {
    forall m | BlockAt(l, k, from, 0) <= m < BlockAt(l, k, i, bit)
      ensures Marked(l, maps, m)
    {
      var o := m - Times(k, l.Bits());
      PlaceOf(l, k, o / 8, o % 8);
      if o / 8 < i {
        AllOn(maps[Leaf(l, k)][o / 8]);
      }
    }
  }

  /** Block n, the lowest that is free, has been taken, and the hint points to it. */
  ghost predicate Taken(l: Layout, a: Amap, a': Amap, n: nat, addr: int)
    requires 0 < l.blksize && 0 < l.ppb
  {
    && 0 < n < Times(l.leaves, l.Bits()) && addr == Times(n, l.blksize) && 0 < addr
    && AllMarked(l, a.maps, n) && !Marked(l, a.maps, n)
    && a' == a.(maps := Mark(l, a.maps, n), hint := Hint(Leaf(l, LeafNr(l, n)), ByteNr(l, n), addr))
  }

  /** Disk address of a place in the map, as both searches compute it. */
  lemma {:induction false} AddressOf(l: Layout, k: nat, byte: nat, bit: nat)
    ensures Times(k, l.BytesPerBlock()) + Times(8 * byte, l.blksize)
            + Times(bit, l.blksize) == Times(BlockAt(l, k, byte, bit), l.blksize)
  {
    TimesAssoc(k, l.Bits(), l.blksize);
    TimesAdd(Times(k, l.Bits()), 8 * byte, l.blksize);
    TimesAdd(Times(k, l.Bits()) + 8 * byte, bit, l.blksize);
  }

  /** amap_block_set, then the hint. */
  method TakeBit(l: Layout, a: Amap, amap: int, byte: nat, bit: nat, addr: int, ghost k: nat)
    returns (a': Amap, ghost n: nat)
    requires LayoutOk(l) && MapsOk(l, a.maps) && k < l.leaves && amap == Leaf(l, k) && byte < l.blksize && bit < 8
    requires addr == Times(BlockAt(l, k, byte, bit), l.blksize)
    requires AllMarked(l, a.maps, BlockAt(l, k, byte, bit)) && !BitIn(a.maps[amap][byte], bit) && Marked(l, a.maps, 0)
    ensures n == BlockAt(l, k, byte, bit) && Taken(l, a, a', n, addr)
  {
    n := BlockAt(l, k, byte, bit);
    PlaceOf(l, k, byte, bit);
    TimesMono(k + 1, l.leaves, l.Bits());
    assert n != 0;
    TimesMono(1, n, l.blksize);
    a' := Amap(PutByte(a.maps, amap, byte, TurnOn(a.maps[amap][byte], bit)), Hint(amap, byte, addr), a.used_blocks);
  }

  /** The bytes of disk one pointer entry of a level stands for. */
  function BytesPerLevel(l: Layout, level: nat): nat
    requires 0 < level
  {
    Times(Power(l.ppb, level - 1), l.BytesPerBlock())
  }

  /** The search through one bitmap block. */
  method SearchLeaf(l: Layout, a: Amap, amap: int, from: nat, addr: int, ghost k: nat)
    returns (a': Amap, found: int, ghost n: nat)
    requires LayoutOk(l) && MapsOk(l, a.maps) && Marked(l, a.maps, 0) && k < l.leaves && amap == Leaf(l, k)
             && from <= l.blksize
    requires addr == Times(k, l.BytesPerBlock()) && AllMarked(l, a.maps, BlockAt(l, k, from, 0))
    ensures if found != 0 then Taken(l, a, a', n, found) else a' == a && AllMarked(l, a.maps, Times(k + 1, l.Bits()))
  {
    a', found, n := a, 0, 0;
    var i, bit := ScanBytes(a.maps[amap], from);
    if i < l.blksize {
      FullBytes(l, a.maps, k, from, i, bit);
      AddressOf(l, k, i, bit);
      found := addr + Times(8 * i, l.blksize) + Times(bit, l.blksize);
      a', n := TakeBit(l, a, amap, i, bit, found, k);
    } else {
      FullBytes(l, a.maps, k, from, i, 0);
    }
  }

  /** amap is the pointer block (or at level 0 the bitmap block) of the bitmap blocks from k on. */
  ghost predicate Under(l: Layout, level: nat, amap: int, addr: int, k: nat, q: nat)
    requires 0 < l.ppb
  {
    && TreeOk(l, level, amap, k) && Through(l, level, amap, k)
    && k == Times(q, Power(l.ppb, level)) && addr == Times(k, l.BytesPerBlock())
  }

  /** The bitmap blocks in front of number k are full. */
  ghost predicate Full(l: Layout, maps: Bitmaps, k: int)
    requires 0 < l.blksize && 0 < l.ppb && 0 <= k
  {
    AllMarked(l, maps, Times(Min(k, l.leaves), l.Bits()))
  }

  lemma {:induction false} ChildNull(l: Layout, level: nat, ptr: int, k: nat)
    requires 0 < l.ppb && 0 < level && ChildOk(l, level, ptr, k)
    ensures ptr == 0 <==> l.leaves <= k
    ensures ptr != 0 ==> TreeOk(l, level - 1, ptr, k)
  {
    if k < l.leaves {
      assert TreeOk(l, level - 1, ptr, k);
    }
  }

  /** What a child pointer says, and where the blocks under it are. */
  lemma {:induction false} ChildOf(l: Layout, level: nat, amap: int, addr: int, k: nat, q: nat, i: nat)
    requires LayoutOk(l) && 0 < level && i < l.ppb && Under(l, level, amap, addr, k, q)
    ensures var ptr, k' := l.ptrs[amap][i], k + Times(i, Power(l.ppb, level - 1));
            if ptr == 0 then l.leaves <= k' <= k + Power(l.ppb, level)
            else Under(l, level - 1, ptr, addr + Times(i, BytesPerLevel(l, level)), k', Times(q, l.ppb) + i)
  {
    var ptr, r := l.ptrs[amap][i], Power(l.ppb, level - 1);
    assert ChildOk(l, level, ptr, k + Times(i, r));
    ChildNull(l, level, ptr, k + Times(i, r));
    if ptr != 0 {
      ThroughChild(l, level, amap, k, q, i);
      TimesAdd(k, Times(i, r), l.BytesPerBlock());
      TimesAssoc(i, r, l.BytesPerBlock());
    } else {
      TimesMono(i, l.ppb, r);
    }
  }

  /** __get_free_block: the search through the whole tree; 0 if everything under amap is marked. */
  method GetFreeBlockSlow(l: Layout, a: Amap, level: nat, amap: int, addr: int, ghost k: nat, ghost q: nat)
    returns (a': Amap, found: int, ghost n: nat)
    requires LayoutOk(l) && MapsOk(l, a.maps) && Marked(l, a.maps, 0) && Under(l, level, amap, addr, k, q)
    requires Full(l, a.maps, k)
    ensures if found != 0 then Taken(l, a, a', n, found) else a' == a && Full(l, a.maps, k + Power(l.ppb, level))
    decreases level
  {
    if level == 0 {
      assert amap == Leaf(l, k);
      a', found, n := SearchLeaf(l, a, amap, 0, addr, k);
      return;
    }
    a', found, n := a, 0, 0;
    ghost var j: nat := k;
    for i := 0 to l.ppb
      invariant j == k + Times(i, Power(l.ppb, level - 1)) && Full(l, a.maps, j)
      invariant a' == a && found == 0
    {
      ChildOf(l, level, amap, addr, k, q, i);
      var ptr := l.ptrs[amap][i];
      if ptr == 0 {
        return;
      }
      a', found, n := GetFreeBlockSlow(l, a, level - 1, ptr, addr + Times(i, BytesPerLevel(l, level)), j,
        Times(q, l.ppb) + i);
      if found != 0 {
        return;
      }
      j := j + Power(l.ppb, level - 1);
    }
  }

  // ----- allocating and freeing -----------------------------------------------------------------------------

  /** The hint names a byte of the map in front of which everything is marked. */
  ghost predicate HintOk(l: Layout, a: Amap)
    requires 0 < l.blksize && 0 < l.ppb
  {
    a.hint == NoHint ||
    (&& 0 <= a.hint.addr
     && var n := Quot(a.hint.addr, l.blksize);
        && n < Times(l.leaves, l.Bits()) && a.hint.amap == Leaf(l, LeafNr(l, n)) && a.hint.byte == ByteNr(l, n)
        && AllMarked(l, a.maps, n - BitNr(l, n)))
  }

  /** The map marks, of the blocks of the disk, exactly those in use. */
  ghost predicate Tracks(l: Layout, maps: Bitmaps, used: set<int>)
    requires 0 < l.blksize && 0 < l.ppb
  {
    && (forall n :: n in used ==> 0 <= n < l.total_blocks)
    && (forall n {:trigger Marked(l, maps, n)} :: 0 <= n < l.total_blocks ==> (n in used <==> Marked(l, maps, n)))
  }

  ghost predicate AmapOk(l: Layout, a: Amap, used: set<int>) {
    && LayoutOk(l) && MapsOk(l, a.maps) && Tracks(l, a.maps, used) && HintOk(l, a)
    && 0 in used && a.used_blocks == |used|
  }

  /** Pigeonhole: fewer than t things cannot include all numbers below t. */
  lemma {:induction false} Pigeonhole(s: set<int>, t: nat)
    requires forall n :: 0 <= n < t ==> n in s
    ensures t <= |s|
  {
    if t != 0 {
      Pigeonhole(s - {t - 1}, t - 1);
    }
  }

  /** The lowest free block lies on the disk as long as not every block of the disk is in use. */
  lemma {:induction false} InsideDisk(l: Layout, maps: Bitmaps, used: set<int>, n: nat)
    requires LayoutOk(l) && Tracks(l, maps, used) && |used| < l.total_blocks && AllMarked(l, maps, n)
    ensures n < l.total_blocks
  {
    if l.total_blocks <= n {
      forall m | 0 <= m < l.total_blocks
        ensures m in used
      {
        assert Marked(l, maps, m);
      }
      Pigeonhole(used, l.total_blocks);
    }
  }

  /** An address in block n. */
  lemma {:induction false} AddressIn(l: Layout, addr: nat)
    requires 0 < l.blksize
    ensures var n := Quot(addr, l.blksize);
            Quot(addr, l.BytesPerBlock()) == LeafNr(l, n) && Times(LeafNr(l, n), l.BytesPerBlock()) <= addr &&
            Quot(addr - Times(LeafNr(l, n), l.BytesPerBlock()), l.blksize) == Rem(n, l.Bits())
  {
    var b, n := l.blksize, Quot(addr, l.blksize);
    var k := LeafNr(l, n);
    TimesMono(1, l.Bits(), b);
    QuotQuot(addr, l.Bits(), b);
    QuotOf(addr, b);
    QuotOf(n, l.Bits());
    TimesAssoc(k, l.Bits(), b);
    TimesMono(Times(k, l.Bits()), n, b);
    TimesAdd(Times(k, l.Bits()), Rem(n, l.Bits()), b);
    QuotIs(addr - Times(k, l.BytesPerBlock()), b, Rem(n, l.Bits()));
  }

  /** __get_free_block_fast: the bitmap block of the hint, from its byte on. */
  method GetFreeBlockFast(l: Layout, a: Amap) returns (a': Amap, found: int, ghost n: nat)
    requires LayoutOk(l) && MapsOk(l, a.maps) && Marked(l, a.maps, 0) && HintOk(l, a) && a.hint != NoHint
    ensures if found != 0 then Taken(l, a, a', n, found) else a' == a
  {
    ghost var h := Quot(a.hint.addr, l.blksize);
    AddressIn(l, a.hint.addr);
    TimesMono(1, l.Bits(), l.blksize);
    LeafExists(l, h);
    PlaceIs(l, h);
    var block := Quot(a.hint.addr, l.BytesPerBlock());
    a', found, n := SearchLeaf(l, a, a.hint.amap, a.hint.byte, Times(block, l.BytesPerBlock()), block);
  }

  lemma {:induction false} TakenOk(l: Layout, a: Amap, a': Amap, used: set<int>, n: nat, addr: int)
    requires AmapOk(l, a, used) && |used| < l.total_blocks && Taken(l, a, a', n, addr)
    ensures n < l.total_blocks && n !in used && forall m :: 0 <= m < n ==> m in used
    ensures AmapOk(l, a'.(used_blocks := a.used_blocks + 1), used + {n})
  {
    InsideDisk(l, a.maps, used, n);
    forall m | 0 <= m < n
      ensures m in used
    {
      assert Marked(l, a.maps, m);
    }
    forall m | 0 <= m < Times(l.leaves, l.Bits())
      ensures MapsOk(l, a'.maps) && Marked(l, a'.maps, m) == (m == n || Marked(l, a.maps, m))
    {
      MarkedMark(l, a.maps, n, m);
    }
    MarkedMark(l, a.maps, n, n);
    QuotIs(addr, l.blksize, n);
  }

  /** get_free_block: no space exactly when used and reserved blocks fill the disk; otherwise the lowest
      free block, which lies on the disk.  The search always succeeds. */
  method GetFreeBlock(l: Layout, a: Amap, reserved_blocks: int, ghost used: set<int>)
    returns (ok: bool, a': Amap, addr: int, ghost n: nat)
    requires AmapOk(l, a, used) && 0 <= reserved_blocks
    ensures ok <==> |used| + reserved_blocks < l.total_blocks
    ensures !ok ==> a' == a
    ensures ok ==>
              addr == Times(n, l.blksize) && 0 < n < l.total_blocks && n !in used
              && forall m :: 0 <= m < n ==> m in used
    ensures ok ==> AmapOk(l, a', used + {n}) && a'.maps == Mark(l, a.maps, n) && !Marked(l, a.maps, n)
  {
    a', addr, n := a, 0, 0;
    if a.used_blocks + reserved_blocks >= l.total_blocks {
      return false, a', addr, n;
    }
    assert Marked(l, a.maps, 0);
    if a.hint != NoHint {
      a', addr, n := GetFreeBlockFast(l, a);
    }
    if addr == 0 {
      a', addr, n := GetFreeBlockSlow(l, a, l.levels, l.root, 0, 0, 0);
    }
    if addr == 0 {
      assert AllMarked(l, a.maps, l.total_blocks);
      InsideDisk(l, a.maps, used, l.total_blocks);
      assert false;
    }
    TakenOk(l, a, a', used, n, addr);
    a' := a'.(used_blocks := a'.used_blocks + 1);
    ok := true;
  }

  /** The hint after block n has been unmarked. */
  lemma {:induction false} HintAfterFree(l: Layout, a: Amap, a': Amap, n: nat, addr: nat)
    requires LayoutOk(l) && MapsOk(l, a.maps) && HintOk(l, a) && n == Quot(addr, l.blksize)
             && n < Times(l.leaves, l.Bits())
    requires a'.maps == Unmark(l, a.maps, n)
    requires a'.hint == if a.hint != NoHint && addr < a.hint.addr then Hint(Leaf(l, LeafNr(l, n)), ByteNr(l, n), addr)
             else a.hint
    ensures HintOk(l, a')
  {
    if a'.hint != NoHint {
      if addr < a.hint.addr {
        QuotMono(l.blksize, addr, a.hint.addr);
      } else {
        QuotMono(l.blksize, a.hint.addr, addr);
      }
      var h, h' := Quot(a.hint.addr, l.blksize), Quot(a'.hint.addr, l.blksize);
      PlaceIs(l, h);
      PlaceIs(l, h');
      PlaceIs(l, n);
      ByteStart(l, h', h);
      forall m | 0 <= m < h' - BitNr(l, h')
        ensures Marked(l, a'.maps, m)
      {
        assert Marked(l, a.maps, m);
        ByteStart(l, h', n);
        MarkedMark(l, a.maps, n, m);
      }
    }
  }

  lemma {:induction false} QuotMono(b: nat, x: nat, y: nat)
    requires 0 < b && x <= y
    ensures Quot(x, b) <= Quot(y, b)
  {
    QuotOf(x, b);
    QuotOf(y, b);
    TimesCancel(Quot(x, b), Quot(y, b) + 1, b);
  }

  /** The byte of a lower block starts no later. */
  lemma {:induction false} ByteStart(l: Layout, m: nat, n: nat)
    requires 0 < l.blksize && m <= n
    ensures m - BitNr(l, m) <= n - BitNr(l, n)
  {
    var w := l.Bits();
    QuotOf(m, w);
    QuotOf(n, w);
    QuotMono(w, m, n);
    TimesMono(Quot(m, w), Quot(n, w), w);
  }

  lemma {:induction false} FreedOk(l: Layout, a: Amap, a': Amap, used: set<int>, n: nat)
    requires AmapOk(l, a, used) && 0 < n && n in used && HintOk(l, a')
    requires a'.maps == Unmark(l, a.maps, n) && a'.used_blocks == a.used_blocks - 1
    ensures AmapOk(l, a', used - {n})
  {
    forall m | 0 <= m < Times(l.leaves, l.Bits())
      ensures MapsOk(l, a'.maps) && Marked(l, a'.maps, m) == (m != n && Marked(l, a.maps, m))
    {
      MarkedMark(l, a.maps, n, m);
    }
    MarkedMark(l, a.maps, n, n);
  }

  /** amap_block_clear on the bitmap: the bit of the block that addr lies in. */
  method ClearBit(l: Layout, maps: Bitmaps, addr: nat) returns (maps': Bitmaps, amap: int, byte: nat)
    requires LayoutOk(l) && MapsOk(l, maps) && Quot(addr, l.blksize) < Times(l.leaves, l.Bits())
    ensures var n := Quot(addr, l.blksize);
            maps' == Unmark(l, maps, n) && amap == Leaf(l, LeafNr(l, n)) && byte == ByteNr(l, n)
  {
    ghost var n := Quot(addr, l.blksize);
    AddressIn(l, addr);
    TimesMono(1, l.Bits(), l.blksize);
    LeafExists(l, n);
    var block := Quot(addr, l.BytesPerBlock());
    amap := Leaf(l, block);
    var rest := Quot(addr - Times(block, l.BytesPerBlock()), l.blksize);
    byte := rest / 8;
    maps' := PutByte(maps, amap, byte, TurnOff(GetByte(maps, amap, byte), rest % 8));
  }

  /** free_block and amap_block_clear, for any address inside a block in use; address 0 is ignored. */
  method FreeBlock(l: Layout, a: Amap, addr: nat, ghost used: set<int>) returns (a': Amap)
    requires AmapOk(l, a, used)
    requires addr != 0 ==> 0 < Quot(addr, l.blksize) && Quot(addr, l.blksize) in used
    ensures addr == 0 ==> a' == a
    ensures addr != 0 ==> var n := Quot(addr, l.blksize); AmapOk(l, a', used - {n}) && a'.maps == Unmark(l, a.maps, n)
  {
    a' := a;
    if addr != 0 {
      ghost var n := Quot(addr, l.blksize);
      var maps, amap, byte := ClearBit(l, a.maps, addr);
      var hint := a.hint;
      if hint != NoHint && addr < hint.addr {
        hint := Hint(amap, byte, addr);
      }
      a' := Amap(maps, hint, a.used_blocks - 1);
      HintAfterFree(l, a, a', n, addr);
      FreedOk(l, a, a', used, n);
    }
  }

  /** Allocating and then freeing, by any address inside the block, restores the map and the count. */
  method AllocThenFree(l: Layout, a: Amap, off: nat, ghost used: set<int>) returns (a': Amap)
    requires AmapOk(l, a, used) && off < l.blksize
    ensures a'.maps == a.maps && a'.used_blocks == a.used_blocks && AmapOk(l, a', used)
  {
    var ok, a1, addr;
    ghost var n;
    ok, a1, addr, n := GetFreeBlock(l, a, 0, used);
    if !ok {
      return a1;
    }
    QuotIs(addr + off, l.blksize, n);
    a' := FreeBlock(l, a1, addr + off, used + {n});
    assert used + {n} - {n} == used;
    UnmarkMark(l, a.maps, n);
  }

  // ----- the same blocks in use, the same map -----------------------------------------------------------------

  ghost predicate IsLeaf(l: Layout, a: int)
    requires 0 < l.ppb
  {
    exists k :: 0 <= k < l.leaves && Leaf(l, k) == a
  }

  /** Nothing but bits of blocks of the disk differs. */
  ghost predicate SameRest(l: Layout, maps: Bitmaps, maps': Bitmaps)
    requires 0 < l.blksize && 0 < l.ppb
  {
    && maps'.Keys == maps.Keys
    && (forall a {:trigger maps'[a]} :: a in maps && !IsLeaf(l, a) ==> maps'[a] == maps[a])
    && (forall n {:trigger Marked(l, maps', n)} :: l.total_blocks <= n < Times(l.leaves, l.Bits()) ==>
          Marked(l, maps', n) == Marked(l, maps, n))
  }

  lemma {:induction false} RestTrans(l: Layout, maps: Bitmaps, maps1: Bitmaps, maps2: Bitmaps)
    requires 0 < l.blksize && 0 < l.ppb && SameRest(l, maps, maps1) && SameRest(l, maps1, maps2)
    ensures SameRest(l, maps, maps2)
  {
    forall n | l.total_blocks <= n < Times(l.leaves, l.Bits())
      ensures Marked(l, maps2, n) == Marked(l, maps, n)
    {
      assert Marked(l, maps1, n) == Marked(l, maps, n);
    }
    forall a | a in maps && !IsLeaf(l, a)
      ensures maps2[a] == maps[a]
    {
      assert maps1[a] == maps[a];
    }
  }

  lemma {:induction false} MarkRest(l: Layout, maps: Bitmaps, n: nat)
    requires LayoutOk(l) && MapsOk(l, maps) && n < l.total_blocks
    ensures SameRest(l, maps, Mark(l, maps, n)) && SameRest(l, maps, Unmark(l, maps, n))
  {
    LeafExists(l, n);
    assert IsLeaf(l, Leaf(l, LeafNr(l, n)));
    forall m | l.total_blocks <= m < Times(l.leaves, l.Bits())
      ensures Marked(l, Mark(l, maps, n), m) == Marked(l, maps, m)
              && Marked(l, Unmark(l, maps, n), m) == Marked(l, maps, m)
    {
      MarkedMark(l, maps, n, m);
    }
  }

  lemma {:induction false} SameByte(l: Layout, maps: Bitmaps, maps': Bitmaps, used: set<int>, k: nat, i: nat)
    requires LayoutOk(l) && MapsOk(l, maps) && MapsOk(l, maps') && Tracks(l, maps, used) && Tracks(l, maps', used)
    requires SameRest(l, maps, maps') && k < l.leaves && i < l.blksize
    ensures maps'[Leaf(l, k)][i] == maps[Leaf(l, k)][i]
  {
    var a := Leaf(l, k);
    forall j | 0 <= j < 8
      ensures BitIn(maps[a][i], j) == BitIn(maps'[a][i], j)
    {
      var n := BlockAt(l, k, i, j);
      PlaceOf(l, k, i, j);
      TimesMono(k + 1, l.leaves, l.Bits());
      assert Marked(l, maps, n) == BitIn(maps[a][i], j) && Marked(l, maps', n) == BitIn(maps'[a][i], j);
    }
    SameBits(maps[a][i], maps'[a][i]);
  }

  /** The blocks in use determine the map, byte for byte. */
  lemma {:induction false} SameMaps(l: Layout, maps: Bitmaps, maps': Bitmaps, used: set<int>)
    requires LayoutOk(l) && MapsOk(l, maps) && MapsOk(l, maps') && Tracks(l, maps, used) && Tracks(l, maps', used)
    requires SameRest(l, maps, maps')
    ensures maps' == maps
  {
    forall a | a in maps
      ensures maps'[a] == maps[a]
    {
      if IsLeaf(l, a) {
        var k :| 0 <= k < l.leaves && Leaf(l, k) == a;
        forall i | 0 <= i < l.blksize
          ensures maps'[a][i] == maps[a][i]
        {
          SameByte(l, maps, maps', used, k, i);
        }
      }
    }
  }

  // ----- whole runs -----------------------------------------------------------------------------------------

  /** The allocator of a mounted disk. */
  class Allocator {
    const layout: Layout
    var amap: Amap
    var reserved_blocks: nat

    /** The numbers of the blocks in use. */
    ghost var used: set<int>

    ghost predicate Valid()
      reads this
    {
      AmapOk(layout, amap, used)
    }

    /** A disk found with a map and a count that agree; there is no hint yet. */
    constructor (layout: Layout, maps: Bitmaps, used_blocks: int, ghost used: set<int>)
      requires AmapOk(layout, Amap(maps, NoHint, used_blocks), used)
      ensures Valid() && this.layout == layout && this.used == used && reserved_blocks == 0
    {
      this.layout, this.amap, this.used, this.reserved_blocks := layout, Amap(maps, NoHint, used_blocks), used, 0;
    }

    method Alloc() returns (ok: bool, addr: int, ghost n: nat)
      requires Valid()
      modifies this
      ensures Valid() && reserved_blocks == old(reserved_blocks)
      ensures ok <==> |old(used)| + reserved_blocks < layout.total_blocks
      ensures if ok then addr == Times(n, layout.blksize) && IsLowestFree(old(used), n) && 0 < n < layout.total_blocks
              && used == old(used) + {n}
              else used == old(used)
      ensures SameRest(layout, old(amap.maps), amap.maps)
    {
      var a;
      ok, a, addr, n := GetFreeBlock(layout, amap, reserved_blocks, used);
      if ok {
        MarkRest(layout, amap.maps, n);
        used := used + {n};
      }
      amap := a;
    }

    method Free(addr: nat)
      requires Valid()
      requires addr != 0 ==> 0 < Quot(addr, layout.blksize) && Quot(addr, layout.blksize) in used
      modifies this
      ensures Valid() && reserved_blocks == old(reserved_blocks)
      ensures used == if addr == 0 then old(used) else old(used) - {Quot(addr, layout.blksize)}
      ensures SameRest(layout, old(amap.maps), amap.maps)
    {
      if addr != 0 {
        MarkRest(layout, amap.maps, Quot(addr, layout.blksize));
      }
      amap := FreeBlock(layout, amap, addr, used);
      if addr != 0 {
        used := used - {Quot(addr, layout.blksize)};
      }
    }
  }

  ghost predicate IsLowestFree(used: set<int>, n: nat) {
    n !in used && forall m :: 0 <= m < n ==> m in used
  }

  /** The reference: the lowest number from m on that is not in use. */
  ghost function Lowest(used: set<int>, m: nat): nat
    decreases |used|
  {
    if m in used then Lowest(used - {m}, m + 1) else m
  }

  lemma {:induction false} LowestIs(used: set<int>, m: nat, n: nat)
    requires m <= n && n !in used && forall j :: m <= j < n ==> j in used
    ensures Lowest(used, m) == n
    decreases n - m
  {
    if m < n {
      LowestIs(used - {m}, m + 1, n);
    }
  }

  /** An operation of a run: allocate, or free block number n through an address inside it. */
  datatype Op = Alloc | Free(n: nat, off: nat)

  ghost function Answer(l: Layout, used: set<int>, op: Op): int {
    if op.Alloc? && |used| < l.total_blocks then Lowest(used, 0) else -1
  }

  ghost function After(l: Layout, used: set<int>, op: Op): set<int> {
    match op
    case Alloc => if |used| < l.total_blocks then used + {Lowest(used, 0)} else used
    case Free(n, _) => used - {n}
  }

  /** The blocks in use at the end of a run. */
  ghost function Final(l: Layout, ops: seq<Op>, used: set<int>, i: nat): set<int>
    requires i <= |ops|
    decreases |ops| - i
  {
    if i == |ops| then used else Final(l, ops, After(l, used, ops[i]), i + 1)
  }

  /** Only blocks in use are freed. */
  ghost predicate Legal(l: Layout, ops: seq<Op>, used: set<int>, i: nat)
    requires i <= |ops|
    decreases |ops| - i
  {
    i == |ops| ||
    (&& (ops[i].Free? ==> 0 < ops[i].n && ops[i].n in used && ops[i].off < l.blksize)
     && Legal(l, ops, After(l, used, ops[i]), i + 1))
  }

  /** From operation i on, the answers are those of the set of blocks in use. */
  ghost predicate Answers(l: Layout, ops: seq<Op>, used: set<int>, got: seq<int>, i: nat)
    requires i <= |ops| == |got|
    decreases |ops| - i
  {
    i == |ops| || (got[i] == Answer(l, used, ops[i]) && Answers(l, ops, After(l, used, ops[i]), got, i + 1))
  }

  /** One operation of a run. */
  method Step(al: Allocator, op: Op) returns (x: int)
    requires al.Valid() && al.reserved_blocks == 0
    requires op.Free? ==> 0 < op.n && op.n in al.used && op.off < al.layout.blksize
    modifies al
    ensures al.Valid() && al.reserved_blocks == 0
    ensures x == Answer(al.layout, old(al.used), op) && al.used == After(al.layout, old(al.used), op)
    ensures SameRest(al.layout, old(al.amap.maps), al.amap.maps)
  {
    x := -1;
    match op {
      case Alloc =>
        var ok, addr;
        ghost var n;
        ghost var was := al.used;
        ok, addr, n := al.Alloc();
        if ok {
          LowestIs(was, 0, n);
          QuotIs(addr, al.layout.blksize, n);
          x := Quot(addr, al.layout.blksize);
        }
      case Free(n, off) =>
        TimesMono(1, n, al.layout.blksize);
        QuotIs(Times(n, al.layout.blksize) + off, al.layout.blksize, n);
        al.Free(Times(n, al.layout.blksize) + off);
    }
  }

  /** Any run of allocations and frees answers as the set of blocks in use does: the hint and the tree never show.  A
      run that ends with the blocks in use that it started with leaves the bitmap as it was, byte for byte, and the
      count. */
  method Run(al: Allocator, ops: seq<Op>, i: nat, got0: seq<int>) returns (got: seq<int>)
    requires al.Valid() && al.reserved_blocks == 0 && i <= |ops| && |got0| == i && Legal(al.layout, ops, al.used, i)
    modifies al
    ensures al.Valid() && |got| == |ops| && got[..i] == got0 && Answers(al.layout, ops, old(al.used), got, i)
    ensures al.used == Final(al.layout, ops, old(al.used), i) && SameRest(al.layout, old(al.amap.maps), al.amap.maps)
    ensures al.used == old(al.used) ==>
              al.amap.maps == old(al.amap.maps) && al.amap.used_blocks == old(al.amap.used_blocks)
    decreases |ops| - i
  {
    if i == |ops| {
      return got0;
    }
    ghost var maps := al.amap.maps;
    var x := Step(al, ops[i]);
    ghost var maps1 := al.amap.maps;
    got := Run(al, ops, i + 1, got0 + [x]);
    assert got[..i] == got[..i + 1][..i];
    RestTrans(al.layout, maps, maps1, al.amap.maps);
    if al.used == old(al.used) {
      SameMaps(al.layout, maps, al.amap.maps, al.used);
    }
  }
}
