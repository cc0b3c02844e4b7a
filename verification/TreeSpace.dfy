/** Sets of blocks in use that grow lowest block first. */
module LowestFirst {

  /** Every block in front of x is in use. */
  ghost predicate FullTo(used: set<int>, x: int) {
    forall m {:trigger m in used} :: 0 < m < x ==> m in used
  }

  /** The blocks of used' that are not in used were taken lowest first. */
  ghost predicate Packs(used: set<int>, used': set<int>) {
    used <= used' && forall x {:trigger x in used'} :: x in used' && x !in used ==> 0 < x && FullTo(used', x)
  }

  lemma {:induction false} PacksNext(used: set<int>, used': set<int>, n: int)
    requires Packs(used, used') && 0 < n && FullTo(used', n)
    ensures Packs(used, used' + {n})
  {
  }

  lemma {:induction false} PacksTrans(used: set<int>, used1: set<int>, used2: set<int>)
    requires Packs(used, used1) && Packs(used1, used2)
    ensures Packs(used, used2)
  {
    forall x | x in used2 && x !in used
      ensures 0 < x && FullTo(used2, x)
    {
      if x in used1 {
        assert FullTo(used1, x);
      }
    }
  }

  lemma {:induction false} SmallerOrEqual(a: set<int>, b: set<int>)
    requires a <= b && |a| == |b|
    ensures a == b
  {
    assert b == a + (b - a) && |b| == |a| + |b - a|;
  }

  /** How many blocks have been taken decides which. */
  lemma {:induction false} PacksUnique(used: set<int>, a: set<int>, b: set<int>)
    requires Packs(used, a) && Packs(used, b) && |a| == |b|
    ensures a == b
  {
    if x :| x in a && x !in b {
      if y :| y in b && y !in a {
        assert false;
      } else {
        assert forall y :: y in b ==> y in a;
        SmallerOrEqual(b, a);
      }
    } else {
      assert forall x :: x in a ==> x in b;
      SmallerOrEqual(a, b);
    }
  }
}

/** A pointer tree and the allocation map: writing and deleting a tree leaves the bitmap as it was. */
module TreeSpace {
  import opened Arith
  import opened Writer
  import opened LowestFirst
  import opened PointerTree
  import opened AllocMap

  /** Take c blocks, one after the other. */
  method AllocMany(al: Allocator, c: nat)
    requires al.Valid() && al.reserved_blocks == 0 && |al.used| + c <= al.layout.total_blocks
    modifies al
    ensures al.Valid() && al.reserved_blocks == 0 && Packs(old(al.used), al.used) && |al.used| == |old(al.used)| + c
    ensures SameRest(al.layout, old(al.amap.maps), al.amap.maps)
  {
    for i := 0 to c
      invariant al.Valid() && al.reserved_blocks == 0 && Packs(old(al.used), al.used) && |al.used| == |old(al.used)| + i
      invariant SameRest(al.layout, old(al.amap.maps), al.amap.maps)
    {
      ghost var used, maps := al.used, al.amap.maps;
      var ok, addr;
      ghost var n;
      ok, addr, n := al.Alloc();
      PacksNext(old(al.used), used, n);
      RestTrans(al.layout, old(al.amap.maps), maps, al.amap.maps);
    }
  }

  /** Give back the blocks of s, in any order. */
  method FreeAll(al: Allocator, s: set<int>)
    requires al.Valid() && al.reserved_blocks == 0 && s <= al.used && forall n :: n in s ==> 0 < n
    modifies al
    ensures al.Valid() && al.reserved_blocks == 0 && al.used == old(al.used) - s
    ensures SameRest(al.layout, old(al.amap.maps), al.amap.maps)
    decreases |s|
  {
    if n :| n in s {
      ghost var maps := al.amap.maps;
      TimesMono(1, n, al.layout.blksize);
      QuotIs(Times(n, al.layout.blksize), al.layout.blksize, n);
      al.Free(Times(n, al.layout.blksize));
      ghost var maps1 := al.amap.maps;
      FreeAll(al, s - {n});
      RestTrans(al.layout, maps, maps1, al.amap.maps);
    } else {
      assert forall n :: n in al.used ==> n !in s;
    }
  }

  /** The tree that rewrite_pointers writes and the blocks that the allocation map gives for it are the same blocks;
      with the tree deleted again, bitmap and count of used blocks have their earlier values. */
  method TreeConservation(al: Allocator, used: set<int>, ppb: nat, bl: seq<Block>, ptrs: Blocks, levels: nat)
    returns (ok: bool, ghost during: set<int>, ghost nodes: set<int>)
    requires al.Valid() && al.reserved_blocks == 0 && used == al.used
    requires 0 < ppb && NoNull(bl) && (|bl| < 2 <==> levels == 0)
    modifies al
    ensures al.Valid() && al.used == used
    ensures ok <==> |used| + |nodes| <= al.layout.total_blocks
    ensures ok ==> during == used + nodes && nodes !! used
    ensures al.amap.maps == old(al.amap.maps) && al.amap.used_blocks == old(al.amap.used_blocks)
  {
    ghost var maps := al.amap.maps;
    var m, fop := RewritePointers(ppb, bl, Meta(ptrs, used), levels);
    nodes, during := Nodes(m.ptrs, levels, fop), used;
    assert m.used == used + nodes;
    var taken := m.used - used;
    if |used| + |taken| > al.layout.total_blocks {
      return false, during, nodes;
    }
    ok := true;
    AllocMany(al, |taken|);
    PacksUnique(used, al.used, m.used);
    during := al.used;
    ghost var maps1 := al.amap.maps;
    var m' := DeletePointers(ppb, m, levels, fop, bl);
    FreeAll(al, m.used - m'.used);
    RestTrans(al.layout, maps, maps1, al.amap.maps);
    SameMaps(al.layout, maps, al.amap.maps, used);
  }
}
