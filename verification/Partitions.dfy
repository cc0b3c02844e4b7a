/** The partition table of a DASD while fdasd edits it: a doubly linked list with used entries in front, sorted by
    track, and counters for the free tracks in front of the first and behind every partition. */
module Partitions {
  import opened Arith

  const USABLE_PARTITIONS := 3
  const FIRST_USABLE_TRK := 2

  datatype Part = Part(used: bool, start_trk: int, end_trk: int, len_trk: int, fspace_trk: int)

  const EMPTY := Part(false, 0, 0, 0, 0)

  datatype Table = Table(fspace_trk: int, parts: seq<Part>)

  datatype Extent = Extent(start: int, stop: int)

  // ----- what the table must say about its extents ---------------------------------------------------------

  /** Extents in ascending order, apart from each other, on the usable tracks up to max. */
  ghost predicate Sorted(xs: seq<Extent>, max: int) {
    && (forall i {:trigger xs[i]} :: 0 <= i < |xs| ==> FIRST_USABLE_TRK <= xs[i].start <= xs[i].stop <= max)
    && (forall i, j {:trigger xs[i], xs[j]} :: 0 <= i < j < |xs| ==> xs[i].stop < xs[j].start)
  }

  /** The track behind the gap that follows extent i - 1. */
  ghost function GapEnd(xs: seq<Extent>, i: nat, max: int): int {
    if i < |xs| then xs[i].start else max + 1
  }

  /** The entry of extent i. */
  ghost function Entry(xs: seq<Extent>, i: nat, max: int): Part
    requires i < |xs|
  {
    Part(true, xs[i].start, xs[i].stop, xs[i].stop - xs[i].start + 1, GapEnd(xs, i + 1, max) - xs[i].stop - 1)
  }

  /** The table of the extents xs: one entry each, with the exact gap behind it, then empty entries. */
  ghost predicate Describes(t: Table, xs: seq<Extent>, max: int) {
    && |xs| <= USABLE_PARTITIONS == |t.parts| && Sorted(xs, max) && FIRST_USABLE_TRK <= max + 1
    && t.fspace_trk == GapEnd(xs, 0, max) - FIRST_USABLE_TRK
    && (forall i {:trigger t.parts[i]} :: 0 <= i < |xs| ==> t.parts[i] == Entry(xs, i, max))
    && (forall i {:trigger t.parts[i]} :: |xs| <= i < USABLE_PARTITIONS ==> t.parts[i] == EMPTY)
  }

  /** Extents fix the table. */
  lemma {:induction false} OneTable(t: Table, t': Table, xs: seq<Extent>, max: int)
    requires Describes(t, xs, max) && Describes(t', xs, max)
    ensures t == t'
  {
    forall i | 0 <= i < USABLE_PARTITIONS
      ensures t.parts[i] == t'.parts[i]
    {
    }
  }

  /** Tracks of the first n entries and the gaps behind them. */
  function Tracks(parts: seq<Part>, n: nat): int
    requires n <= |parts|
  {
    if n == 0 then 0 else Tracks(parts, n - 1) + parts[n - 1].len_trk + parts[n - 1].fspace_trk
  }

  lemma {:induction false} TracksTo(t: Table, xs: seq<Extent>, max: int, n: nat)
    requires Describes(t, xs, max) && n <= USABLE_PARTITIONS
    ensures t.fspace_trk + Tracks(t.parts, n) == GapEnd(xs, Min(n, |xs|), max) - FIRST_USABLE_TRK
  {
    if n != 0 {
      TracksTo(t, xs, max, n - 1);
    }
  }

  /** Nothing is lost: partitions and gaps together are the usable tracks, and no gap is negative. */
  lemma {:induction false} Conservation(t: Table, xs: seq<Extent>, max: int)
    requires Describes(t, xs, max)
    ensures t.fspace_trk + Tracks(t.parts, USABLE_PARTITIONS) == max + 1 - FIRST_USABLE_TRK
    ensures |t.parts| == 3 && t.fspace_trk + t.parts[0].len_trk + t.parts[0].fspace_trk + t.parts[1].len_trk
            + t.parts[1].fspace_trk + t.parts[2].len_trk + t.parts[2].fspace_trk == max + 1 - 2
    ensures forall i :: 0 <= i < |xs| ==>
              t.parts[i] == Part(true, xs[i].start, xs[i].stop, xs[i].stop - xs[i].start + 1,
                                 (if i + 1 < |xs| then xs[i + 1].start else max + 1) - xs[i].stop - 1)
    ensures 0 <= t.fspace_trk
    ensures forall i :: 0 <= i < USABLE_PARTITIONS ==> 0 <= t.parts[i].len_trk && 0 <= t.parts[i].fspace_trk
  {
    TracksTo(t, xs, max, USABLE_PARTITIONS);
    TracksTo(t, xs, max, 2);
    TracksTo(t, xs, max, 1);
    forall i | 0 <= i < USABLE_PARTITIONS
      ensures 0 <= t.parts[i].len_trk && 0 <= t.parts[i].fspace_trk
    {
      if i + 1 < |xs| {
        assert xs[i].stop < xs[i + 1].start;
      }
    }
  }

  // ----- adding and removing an extent --------------------------------------------------------------------------

  /** x lies in one gap: on usable tracks, and clear of every extent. */
  ghost predicate InGap(xs: seq<Extent>, x: Extent, max: int) {
    && FIRST_USABLE_TRK <= x.start <= x.stop <= max
    && forall i {:trigger xs[i]} :: 0 <= i < |xs| ==> x.stop < xs[i].start || xs[i].stop < x.start
  }

  /** x comes behind exactly the first k extents. */
  ghost predicate Place(xs: seq<Extent>, x: Extent, k: nat) {
    && k <= |xs|
    && (forall i {:trigger xs[i]} :: 0 <= i < k ==> xs[i].stop < x.start)
    && (forall i {:trigger xs[i]} :: k <= i < |xs| ==> x.stop < xs[i].start)
  }

  function Insert<T>(s: seq<T>, k: nat, x: T): (r: seq<T>)
    requires k <= |s|
    ensures |r| == |s| + 1
  {
    seq(|s| + 1, i requires 0 <= i <= |s| => if i < k then s[i] else if i == k then x else s[i - 1])
  }

  function Remove<T>(s: seq<T>, k: nat): (r: seq<T>)
    requires k < |s|
    ensures |r| == |s| - 1
  {
    seq(|s| - 1, i requires 0 <= i < |s| - 1 => if i < k then s[i] else s[i + 1])
  }

  lemma {:induction false} RemoveInsert<T>(s: seq<T>, k: nat, x: T)
    requires k <= |s|
    ensures Remove(Insert(s, k, x), k) == s
  {
  }

  lemma {:induction false} InsertSorted(xs: seq<Extent>, x: Extent, k: nat, max: int)
    requires Sorted(xs, max) && InGap(xs, x, max) && Place(xs, x, k)
    ensures Sorted(Insert(xs, k, x), max)
  {
    var ys := Insert(xs, k, x);
    forall i, j | 0 <= i < j < |ys|
      ensures ys[i].stop < ys[j].start
    {
      var a, b := if i < k then i else i - 1, if j < k then j else j - 1;
      if i != k && j != k {
        assert xs[a].stop < xs[b].start;
      }
    }
  }

  lemma {:induction false} RemoveSorted(xs: seq<Extent>, k: nat, max: int)
    requires Sorted(xs, max) && k < |xs|
    ensures Sorted(Remove(xs, k), max)
  {
    var ys := Remove(xs, k);
    forall i, j | 0 <= i < j < |ys|
      ensures ys[i].stop < ys[j].start
    {
      assert xs[if i < k then i else i + 1].stop < xs[if j < k then j else j + 1].start;
    }
  }

  /** The table after an extent has been put in at k: the gap it lies in is split. */
  ghost predicate Split(t: Table, t': Table, k: nat, x: Extent)
    requires |t.parts| == USABLE_PARTITIONS && k < USABLE_PARTITIONS
  {
    var len := x.stop - x.start + 1;
    var front := if k == 0 then x.start - FIRST_USABLE_TRK else x.start - t.parts[k - 1].end_trk - 1;
    var gap := if k == 0 then t.fspace_trk else t.parts[k - 1].fspace_trk;
    && |t'.parts| == USABLE_PARTITIONS
    && t'.parts[k] == Part(true, x.start, x.stop, len, gap - len - front)
    && t'.fspace_trk == (if k == 0 then front else t.fspace_trk)
    && (forall i {:trigger t'.parts[i]} :: 0 <= i < k
          ==> t'.parts[i] == if i == k - 1 then t.parts[i].(fspace_trk := front) else t.parts[i])
    && (forall i {:trigger t'.parts[i]} :: k < i < USABLE_PARTITIONS ==> t'.parts[i] == t.parts[i - 1])
  }

  lemma {:induction false} SplitEntry(t: Table, t': Table, xs: seq<Extent>, x: Extent, k: nat, i: nat, max: int)
    requires Describes(t, xs, max) && |xs| < USABLE_PARTITIONS && Place(xs, x, k) && Split(t, t', k, x) && i <= |xs|
    ensures t'.parts[i] == Entry(Insert(xs, k, x), i, max)
  {
    var ys := Insert(xs, k, x);
    assert GapEnd(ys, i + 1, max) == if i + 1 < k then GapEnd(xs, i + 1, max) else if i + 1 == k then x.start
           else GapEnd(xs, i, max);
    if i < k {
      assert t.parts[i] == Entry(xs, i, max);
    } else if i == k {
      if 0 < k {
        assert t.parts[k - 1] == Entry(xs, k - 1, max);
      }
    } else {
      assert t.parts[i - 1] == Entry(xs, i - 1, max);
    }
  }

  lemma {:induction false} SplitDescribes(t: Table, t': Table, xs: seq<Extent>, x: Extent, k: nat, max: int)
    requires Describes(t, xs, max) && |xs| < USABLE_PARTITIONS && InGap(xs, x, max) && Place(xs, x, k)
             && Split(t, t', k, x)
    ensures Describes(t', Insert(xs, k, x), max)
  {
    InsertSorted(xs, x, k, max);
    forall i | 0 <= i < |xs| + 1
      ensures t'.parts[i] == Entry(Insert(xs, k, x), i, max)
    {
      SplitEntry(t, t', xs, x, k, i, max);
    }
    forall i | |xs| + 1 <= i < USABLE_PARTITIONS
      ensures t'.parts[i] == EMPTY
    {
      assert t.parts[i - 1] == EMPTY;
    }
  }

  /** The table after entry k has been taken out: its tracks and its gap go to the gap in front. */
  ghost predicate Merged(t: Table, t': Table, k: nat)
    requires |t.parts| == USABLE_PARTITIONS && k < USABLE_PARTITIONS
  {
    var more := t.parts[k].len_trk + t.parts[k].fspace_trk;
    && |t'.parts| == USABLE_PARTITIONS
    && t'.fspace_trk == (if k == 0 then t.fspace_trk + more else t.fspace_trk)
    && (forall i {:trigger t'.parts[i]} :: 0 <= i < k
          ==> t'.parts[i] == if i == k - 1 then t.parts[i].(fspace_trk := t.parts[i].fspace_trk + more) else t.parts[i])
    && (forall i {:trigger t'.parts[i]} :: k <= i < USABLE_PARTITIONS - 1 ==> t'.parts[i] == t.parts[i + 1])
    && t'.parts[USABLE_PARTITIONS - 1] == EMPTY
  }

  lemma {:induction false} MergedGap(xs: seq<Extent>, k: nat, i: nat, max: int)
    requires k < |xs| && i <= |xs|
    ensures GapEnd(Remove(xs, k), i, max) == if i < k then GapEnd(xs, i, max) else GapEnd(xs, i + 1, max)
  {
  }

  lemma {:induction false} MergedEntry(t: Table, t': Table, xs: seq<Extent>, k: nat, i: nat, max: int)
    requires Describes(t, xs, max) && k < |xs| && Merged(t, t', k) && i < |xs| - 1
    ensures t'.parts[i] == Entry(Remove(xs, k), i, max)
  {
    MergedGap(xs, k, i + 1, max);
    if k <= i {
      assert t.parts[i + 1] == Entry(xs, i + 1, max);
    } else {
      assert t.parts[i] == Entry(xs, i, max) && t.parts[k] == Entry(xs, k, max);
    }
  }

  lemma {:induction false} MergedDescribes(t: Table, t': Table, xs: seq<Extent>, k: nat, max: int)
    requires Describes(t, xs, max) && k < |xs| && Merged(t, t', k)
    ensures Describes(t', Remove(xs, k), max)
  {
    RemoveSorted(xs, k, max);
    MergedGap(xs, k, 0, max);
    assert t.parts[k] == Entry(xs, k, max);
    forall i | 0 <= i < |xs| - 1
      ensures t'.parts[i] == Entry(Remove(xs, k), i, max)
    {
      MergedEntry(t, t', xs, k, i, max);
    }
    forall i | |xs| - 1 <= i < USABLE_PARTITIONS
      ensures t'.parts[i] == EMPTY
    {
      if i < USABLE_PARTITIONS - 1 {
        assert t.parts[i + 1] == EMPTY;
      }
    }
  }

  /** The new entry in its place, counters not yet updated. */
  ghost function Placed(t: Table, x: Extent, k: nat): (r: Table)
    requires |t.parts| == USABLE_PARTITIONS && k < USABLE_PARTITIONS
    ensures |r.parts| == USABLE_PARTITIONS
  {
    t.(parts := Insert(t.parts[..2], k, Part(true, x.start, x.stop, x.stop - x.start + 1, t.parts[2].fspace_trk)))
  }

  /** The counters around entry k, from those before it came. */
  ghost function Counted(t: Table, k: nat): Table
    requires |t.parts| == USABLE_PARTITIONS && k < USABLE_PARTITIONS
  {
    var p := t.parts[k];
    var front := if k == 0 then p.start_trk - FIRST_USABLE_TRK else p.start_trk - t.parts[k - 1].end_trk - 1;
    if k == 0 then Table(front, t.parts[0 := p.(fspace_trk := t.fspace_trk - p.len_trk - front)])
    else
      t.(parts := t.parts[k - 1 := t.parts[k - 1].(fspace_trk := front)]
                         [k := p.(fspace_trk := t.parts[k - 1].fspace_trk - p.len_trk - front)])
  }

  /** The tracks of entry k and the gap behind it, added to the gap in front. */
  ghost function Returned(t: Table, k: nat): (r: Table)
    requires |t.parts| == USABLE_PARTITIONS && k < USABLE_PARTITIONS
    ensures |r.parts| == USABLE_PARTITIONS
  {
    var more := t.parts[k].len_trk + t.parts[k].fspace_trk;
    if k == 0 then t.(fspace_trk := t.fspace_trk + more)
    else t.(parts := t.parts[k - 1 := t.parts[k - 1].(fspace_trk := t.parts[k - 1].fspace_trk + more)])
  }

  lemma {:induction false} CountedSplits(t: Table, x: Extent, k: nat)
    requires |t.parts| == USABLE_PARTITIONS && k < USABLE_PARTITIONS
    ensures Split(t, Counted(Placed(t, x, k), k), k, x)
  {
  }

  // ----- the list ------------------------------------------------------------------------------------------------

  class Node {
    var used: bool
    var start_trk: int
    var end_trk: int
    var len_trk: int
    var fspace_trk: int
    var next: Node?
    var prev: Node?

    constructor ()
      ensures Value() == EMPTY && next == null && prev == null
    {
      used, start_trk, end_trk, len_trk, fspace_trk := false, 0, 0, 0, 0;
      next, prev := null, null;
    }

    function Value(): Part
      reads this
    {
      Part(used, start_trk, end_trk, len_trk, fspace_trk)
    }
  }

  class Anchor {
    var first: Node
    var last: Node
    var fspace_trk: int
    const max: int

    /** The nodes in list order, and the extents of the partitions. */
    ghost var nodes: seq<Node>
    ghost var extents: seq<Extent>

    /** The three nodes are linked both ways, first to last. */
    ghost predicate Linked()
      reads this, nodes
    {
      && |nodes| == 3 && nodes[0] != nodes[1] && nodes[1] != nodes[2] && nodes[0] != nodes[2]
      && first == nodes[0] && last == nodes[2]
      && nodes[0].prev == null && nodes[0].next == nodes[1]
      && nodes[1].prev == nodes[0] && nodes[1].next == nodes[2]
      && nodes[2].prev == nodes[1] && nodes[2].next == null
    }

    ghost function Contents(): Table
      requires |nodes| == 3
      reads this, nodes
    {
      Table(fspace_trk, [nodes[0].Value(), nodes[1].Value(), nodes[2].Value()])
    }

    ghost predicate Valid()
      reads this, nodes
    {
      Linked() && Describes(Contents(), extents, max)
    }

    /** An empty disk. */
    constructor (max: int)
      requires FIRST_USABLE_TRK <= max
      ensures Valid() && extents == [] && this.max == max
      ensures fresh(nodes)
    {
      this.max := max;
      fspace_trk := max - FIRST_USABLE_TRK + 1;
      var a := new Node();
      var b := new Node();
      var c := new Node();
      first, last := a, c;
      nodes, extents := [a, b, c], [];
      new;
      a.next, b.prev, b.next, c.prev := b, a, c, b;
    }

    /** The search of fdasd_enqueue_new_partition: the entry the new one goes in front of. */
    method FindPlace(start: int) returns (part_tmp: Node, ghost k: nat)
      requires Linked()
      ensures k < 3 && part_tmp == nodes[k]
      ensures forall i {:trigger nodes[i]} :: 0 <= i < k ==> nodes[i].end_trk != 0 && nodes[i].start_trk <= start
      ensures k < 2 ==> nodes[k].end_trk == 0 || start < nodes[k].start_trk
    {
      part_tmp, k := first, 0;
      var i := 1;
      while i < USABLE_PARTITIONS
        invariant 1 <= i <= 3 && k == i - 1 && part_tmp == nodes[k]
        invariant forall j {:trigger nodes[j]} :: 0 <= j < k ==> nodes[j].end_trk != 0 && nodes[j].start_trk <= start
      {
        if part_tmp.end_trk == 0 || start < part_tmp.start_trk {
          return;
        }
        part_tmp := part_tmp.next;
        k := k + 1;
        i := i + 1;
      }
    }

    /** The last node moves in front of part_tmp, and is in use from then on. */
    method MoveLast(part_tmp: Node, ghost k: nat)
      requires Linked() && k < 3 && part_tmp == nodes[k]
      modifies this, nodes
      ensures Linked() && extents == old(extents) && fspace_trk == old(fspace_trk)
      ensures nodes == Insert(old(nodes[..2]), k, old(nodes[2]))
      ensures Contents().parts == Insert(old(Contents().parts[..2]), k, old(Contents().parts[2]).(used := true))
    {
      var part_info := last;
      if first == part_tmp {
        first := part_info;
      }
      if part_info != part_tmp {
        last.prev.next := null;
        last := last.prev;
        part_info.next := part_tmp;
        part_info.prev := part_tmp.prev;
        part_tmp.prev := part_info;
        if part_info.prev != null {
          part_info.prev.next := part_info;
        }
      }
      nodes := Insert(nodes[..2], k, nodes[2]);
      part_info.used := true;
    }

    /** The gap that the new entry, now number k, lies in is split. */
    method SplitGap(part_info: Node, ghost k: nat)
      requires Linked() && k < 3 && part_info == nodes[k]
      modifies this`fspace_trk, nodes
      ensures Linked() && first == old(first) && nodes == old(nodes) && extents == old(extents)
      ensures Contents() == Counted(old(Contents()), k)
    {
      if first == part_info {
        if part_info.start_trk == FIRST_USABLE_TRK {
          part_info.fspace_trk := fspace_trk - part_info.len_trk;
          fspace_trk := 0;
        } else {
          part_info.fspace_trk := fspace_trk - part_info.len_trk - part_info.start_trk + FIRST_USABLE_TRK;
          fspace_trk := part_info.start_trk - FIRST_USABLE_TRK;
        }
      } else {
        if part_info.start_trk == part_info.prev.end_trk + 1 {
          part_info.fspace_trk := part_info.prev.fspace_trk - part_info.len_trk;
          part_info.prev.fspace_trk := 0;
        } else {
          part_info.fspace_trk := part_info.prev.fspace_trk - part_info.len_trk - part_info.start_trk
            + part_info.prev.end_trk + 1;
          part_info.prev.fspace_trk := part_info.start_trk - part_info.prev.end_trk - 1;
        }
      }
    }

    /** The end of fdasd_get_partition_data: the new extent is noted in the last entry. */
    method SetLast(start: int, stop: int)
      requires Linked()
      modifies last
      ensures Linked() && first == old(first) && last == old(last)
      ensures Contents() == old(Contents()).(parts := old(Contents().parts[2 := Contents().parts[2].(
                start_trk := start, end_trk := stop, len_trk := stop - start + 1)]))
    {
      last.len_trk, last.start_trk, last.end_trk := stop - start + 1, start, stop;
    }

    /** The new entry is linked in at its place. */
    method LinkIn(start: int, stop: int) returns (part_info: Node, ghost k: nat)
      requires Valid() && |extents| < USABLE_PARTITIONS && InGap(extents, Extent(start, stop), max)
      modifies this, nodes
      ensures Linked() && extents == old(extents) && Place(extents, Extent(start, stop), k) && k < 3
              && part_info == nodes[k]
      ensures Contents() == Placed(old(Contents()), Extent(start, stop), k)
      ensures forall n :: n in nodes ==> n in old(nodes)
    {
      part_info := last;
      ghost var t := Contents();
      SetLast(start, stop);
      var part_tmp;
      part_tmp, k := FindPlace(start);
      PlaceFound(t, extents, Extent(start, stop), k, max);
      assert Contents().parts[..2] == t.parts[..2];
      MoveLast(part_tmp, k);
    }

    /** fdasd_enqueue_new_partition, for an extent that lies in one gap. */
    method Enqueue(start: int, stop: int) returns (part_info: Node, ghost k: nat)
      requires Valid() && |extents| < USABLE_PARTITIONS && InGap(extents, Extent(start, stop), max)
      modifies this, nodes
      ensures Valid() && Place(old(extents), Extent(start, stop), k)
              && extents == Insert(old(extents), k, Extent(start, stop))
      ensures part_info == nodes[k]
      ensures forall n :: n in nodes ==> n in old(nodes)
    {
      ghost var t, x := Contents(), Extent(start, stop);
      part_info, k := LinkIn(start, stop);
      assert nodes[0] in old(nodes) && nodes[1] in old(nodes) && nodes[2] in old(nodes);
      SplitGap(part_info, k);
      CountedSplits(t, x, k);
      SplitDescribes(t, Contents(), extents, x, k, max);
      extents := Insert(extents, k, x);
    }

    /** The tracks of entry k go to the gap in front of it, and the entry goes to the end of the list. */
    method MoveToEnd(part_info: Node, ghost k: nat)
      requires Linked() && k < 3 && part_info == nodes[k]
      modifies this, nodes
      ensures Linked() && extents == old(extents) && last == part_info
      ensures forall n :: n in nodes ==> n in old(nodes)
      ensures Contents().fspace_trk == Returned(old(Contents()), k).fspace_trk
      ensures Contents().parts == Insert(Remove(Returned(old(Contents()), k).parts, k), 2, old(Contents().parts[k]))
    {
      if part_info != first && part_info != last {
        part_info.prev.next := part_info.next;
        part_info.next.prev := part_info.prev;
      }
      if part_info == first {
        first := part_info.next;
        part_info.next.prev := null;
        fspace_trk := fspace_trk + (part_info.len_trk + part_info.fspace_trk);
      } else {
        part_info.prev.fspace_trk := part_info.prev.fspace_trk + (part_info.len_trk + part_info.fspace_trk);
      }
      if part_info != last {
        part_info.prev := last;
        part_info.next := null;
        last.next := part_info;
        last := part_info;
      }
      nodes := Insert(Remove(nodes, k), 2, part_info);
    }

    /** fdasd_dequeue_old_partition, for the partition number k. */
    method Dequeue(part_info: Node, ghost k: nat)
      requires Valid() && k < |extents| && part_info == nodes[k]
      modifies this, nodes
      ensures Valid() && extents == Remove(old(extents), k)
      ensures forall n :: n in nodes ==> n in old(nodes)
    {
      ghost var t := Contents();
      MoveToEnd(part_info, k);
      ghost var t1 := Contents();
      part_info.used := false;
      part_info.len_trk, part_info.start_trk, part_info.end_trk, part_info.fspace_trk := 0, 0, 0, 0;
      assert Contents() == t1.(parts := t1.parts[2 := EMPTY]);
      MergedDescribes(t, Contents(), extents, k, max);
      extents := Remove(extents, k);
    }

    /** A list without partitions; the counter of the anchor is not yet set. */
    ghost predicate Blank()
      reads this, nodes
    {
      && Linked() && FIRST_USABLE_TRK <= max + 1
      && nodes[0].Value() == EMPTY && nodes[1].Value() == EMPTY && nodes[2].Value() == EMPTY
    }

    /** One entry of the configuration: refused, or noted with the gap behind it. */
    method TakeConfig(part_info: Node, conf: seq<Extent>, i: nat) returns (ok: bool)
      requires Linked() && |conf| == USABLE_PARTITIONS && i < USABLE_PARTITIONS && part_info == nodes[i]
      modifies this`fspace_trk, nodes
      ensures Linked() && ok == ConfigOk(conf, i, max)
      ensures ok ==> Contents() == ConfigTaken(old(Contents()), conf, i, max)
    {
      var start, stop := conf[i].start, conf[i].stop;
      var first_trk, last_trk := FIRST_USABLE_TRK, max;
      if start < first_trk || start > last_trk {
        return false;
      }
      if stop < first_trk || stop > last_trk {
        return false;
      }
      if start >= stop {
        return false;
      }
      if i > 0 && start <= conf[i - 1].stop {
        return false;
      }
      if i < USABLE_PARTITIONS - 1 && conf[i + 1].start > 0 && stop >= conf[i + 1].start {
        return false;
      }
      part_info.used := true;
      part_info.start_trk, part_info.end_trk, part_info.len_trk := start, stop, stop - start + 1;
      if i == 0 {
        fspace_trk := start - FIRST_USABLE_TRK;
      }
      if i < USABLE_PARTITIONS - 1 {
        if conf[i + 1].start != 0 {
          part_info.fspace_trk := conf[i + 1].start - stop - 1;
        } else {
          part_info.fspace_trk := last_trk - stop;
        }
      } else {
        part_info.fspace_trk := last_trk - stop;
      }
      ok := true;
    }

    /** The loop of fdasd_check_conffile_input, up to the first entry that is not given. */
    method TakeAll(conf: seq<Extent>, ghost n: nat) returns (ok: bool)
      requires Blank() && Configured(conf, n)
      modifies this`fspace_trk, nodes
      ensures Linked() && (ok <==> AllOk(conf, n, max))
      ensures ok ==> Contents() == ConfigTable(conf, n, max, old(fspace_trk))
      ensures n == 0 ==> Blank() && fspace_trk == old(fspace_trk)
    {
      var part_info: Node? := first;
      ok := true;
      var i := 0;
      while i < USABLE_PARTITIONS
        invariant Linked() && 0 <= i <= n && part_info == (if i < 3 then nodes[i] else null) && ok
                  && AllOk(conf, i, max)
        invariant Contents() == ConfigTable(conf, i, max, old(fspace_trk))
      {
        if conf[i].start == 0 || conf[i].stop == 0 {
          break;
        }
        ok := TakeConfig(part_info, conf, i);
        if !ok {
          NotAllOk(conf, n, i, max);
          return;
        }
        part_info := part_info.next;
        i := i + 1;
      }
    }

    /** fdasd_check_conffile_input: refused exactly when the extents are not ascending, apart, on usable tracks and
        longer than one track; otherwise the table of these extents.  Without any extent nothing is touched. */
    method CheckConfig(conf: seq<Extent>, ghost n: nat) returns (ok: bool)
      requires Blank() && Configured(conf, n)
      modifies this, nodes
      ensures ok <==> Sorted(conf[..n], max) && Long(conf[..n])
      ensures ok && 0 < n ==> Valid() && extents == conf[..n]
      ensures n == 0 ==> Blank() && fspace_trk == old(fspace_trk)
    {
      ok := TakeAll(conf, n);
      ConfigIs(conf, n, max);
      if ok && 0 < n {
        ConfigDescribes(Contents(), conf, n, max);
      }
      extents := if n == 0 then extents else conf[..n];
    }

    /** One label: the entry, and the gap in front of it. */
    method TakeLabel(part_info: Node, prev_part_info: Node?, ext: Extent, i: nat)
      requires Linked() && 1 <= i <= USABLE_PARTITIONS && part_info == nodes[i - 1]
      requires prev_part_info == if i == 1 then null else nodes[i - 2]
      modifies this`fspace_trk, nodes
      ensures Linked() && Contents() == LabelTaken(old(Contents()), ext, i, max)
    {
      part_info.used := true;
      part_info.start_trk, part_info.end_trk := ext.start, ext.stop;
      part_info.len_trk := part_info.end_trk - part_info.start_trk + 1;
      if i == 1 {
        fspace_trk := part_info.start_trk - FIRST_USABLE_TRK;
      } else {
        if i == USABLE_PARTITIONS {
          part_info.fspace_trk := max - part_info.end_trk;
        }
        prev_part_info.fspace_trk := part_info.start_trk - prev_part_info.end_trk - 1;
      }
    }

    /** Behind the last partition, or on an empty disk, everything is free. */
    method NoMoreLabels(prev_part_info: Node?)
      modifies this`fspace_trk, prev_part_info
      ensures fspace_trk == if prev_part_info == null then max - FIRST_USABLE_TRK + 1 else old(fspace_trk)
      ensures prev_part_info != null
              ==> prev_part_info.Value() == old(prev_part_info.Value()).(fspace_trk := max - prev_part_info.end_trk)
      ensures prev_part_info != null ==>
                prev_part_info.next == old(prev_part_info.next) && prev_part_info.prev == old(prev_part_info.prev)
    {
      if prev_part_info == null {
        fspace_trk := max - FIRST_USABLE_TRK + 1;
      } else {
        prev_part_info.fspace_trk := max - prev_part_info.end_trk;
      }
    }

    /** The label loop, up to the first label that describes no partition. */
    method ScanLabels(labels: seq<Label>, ghost n: nat) returns (prev_part_info: Node?, i: nat)
      requires Blank() && Labelled(labels, n, max)
      modifies this`fspace_trk, nodes
      ensures Linked() && i == n + 1 && prev_part_info == if n == 0 then null else nodes[n - 1]
      ensures Contents() == LabelTable(labels, n, n, max, old(fspace_trk))
    {
      var part_info: Node? := first;
      prev_part_info := null;
      i := 1;
      while i <= USABLE_PARTITIONS
        invariant Linked() && 1 <= i <= n + 1 && i <= 4
        invariant prev_part_info == (if i == 1 then null else nodes[i - 2])
                  && part_info == (if i == 4 then null else nodes[i - 1])
        invariant Contents() == LabelTable(labels, i - 1, n, max, old(fspace_trk))
      {
        if !labels[i - 1].valid {
          break;
        }
        LabelStep(labels, i, n, max, old(fspace_trk));
        TakeLabel(part_info, prev_part_info, labels[i - 1].ext, i);
        prev_part_info := part_info;
        part_info := part_info.next;
        i := i + 1;
      }
    }

    /** fdasd_update_partition_info: the table of the extents in the labels. */
    method LoadLabels(labels: seq<Label>, ghost n: nat)
      requires Blank() && Labelled(labels, n, max)
      modifies this, nodes
      ensures Valid() && extents == Exts(labels, n)
    {
      var prev_part_info, i := ScanLabels(labels, n);
      if i <= USABLE_PARTITIONS {
        NoMoreLabels(prev_part_info);
      }
      extents := Exts(labels, n);
      LabelsDescribe(Contents(), labels, n, max);
    }
  }

  /** A format 1 label: whether it describes a partition, and its extent. */
  datatype Label = Label(valid: bool, ext: Extent)

  ghost function Exts(labels: seq<Label>, n: nat): (xs: seq<Extent>)
    requires n <= |labels|
    ensures |xs| == n && forall i {:trigger xs[i]} :: 0 <= i < n ==> xs[i] == labels[i].ext
  {
    seq(n, i requires 0 <= i < n => labels[i].ext)
  }

  /** The labels describe n partitions in track order, then none. */
  ghost predicate Labelled(labels: seq<Label>, n: nat, max: int) {
    && |labels| == USABLE_PARTITIONS && n <= USABLE_PARTITIONS
    && (forall i {:trigger labels[i]} :: 0 <= i < n ==> labels[i].valid) && (n < USABLE_PARTITIONS ==> !labels[n].valid)
    && Sorted(Exts(labels, n), max)
  }

  /** Entry i once the labels before number `seen` have been looked at: its gap is known when the next label is. */
  ghost function LabelPart(labels: seq<Label>, i: nat, seen: nat, n: nat, max: int): Part
    requires |labels| == USABLE_PARTITIONS && n <= USABLE_PARTITIONS && seen <= n
  {
    if seen <= i then EMPTY else
      var p := Entry(Exts(labels, n), i, max);
      if i + 1 < seen || i + 1 == USABLE_PARTITIONS then p else p.(fspace_trk := 0)
  }

  ghost function LabelTable(labels: seq<Label>, seen: nat, n: nat, max: int, fspace_trk: int): Table
    requires |labels| == USABLE_PARTITIONS && n <= USABLE_PARTITIONS && seen <= n
  {
    Table(if seen == 0 then fspace_trk else labels[0].ext.start - FIRST_USABLE_TRK,
          [LabelPart(labels, 0, seen, n, max), LabelPart(labels, 1, seen, n, max), LabelPart(labels, 2, seen, n, max)])
  }

  /** The table once label number i, counted from 1, has been taken. */
  ghost function LabelTaken(t: Table, ext: Extent, i: nat, max: int): Table
    requires |t.parts| == USABLE_PARTITIONS && 1 <= i <= USABLE_PARTITIONS
  {
    var p := Part(true, ext.start, ext.stop, ext.stop - ext.start + 1,
                  if i == USABLE_PARTITIONS then max - ext.stop else t.parts[i - 1].fspace_trk);
    if i == 1 then Table(ext.start - FIRST_USABLE_TRK, t.parts[0 := p])
    else
      t.(parts := t.parts[i - 1 := p]
                         [i - 2 := t.parts[i - 2].(fspace_trk := ext.start - t.parts[i - 2].end_trk - 1)])
  }

  lemma {:induction false} LabelStep(labels: seq<Label>, i: nat, n: nat, max: int, fspace_trk: int)
    requires |labels| == USABLE_PARTITIONS && 1 <= i <= n <= USABLE_PARTITIONS
    ensures LabelTaken(LabelTable(labels, i - 1, n, max, fspace_trk), labels[i - 1].ext, i, max)
            == LabelTable(labels, i, n, max, fspace_trk)
  {
  }

  lemma {:induction false} LabelsDescribe(t: Table, labels: seq<Label>, n: nat, max: int)
    requires Labelled(labels, n, max) && |t.parts| == USABLE_PARTITIONS && FIRST_USABLE_TRK <= max + 1
    requires t.fspace_trk == (if n == 0 then max + 1 else labels[0].ext.start) - FIRST_USABLE_TRK
    requires forall j {:trigger t.parts[j]} :: 0 <= j < 3 ==>
               t.parts[j] == if j == n - 1 && n < 3
                 then LabelPart(labels, j, n, n, max).(fspace_trk := max - labels[j].ext.stop)
                             else LabelPart(labels, j, n, n, max)
    ensures Describes(t, Exts(labels, n), max)
  {
  }

  /** What the configuration parser leaves: n extents, then zeros. */
  ghost predicate Configured(conf: seq<Extent>, n: nat) {
    && |conf| == USABLE_PARTITIONS && n <= USABLE_PARTITIONS
    && forall i {:trigger conf[i]} :: 0 <= i < USABLE_PARTITIONS
         ==> if i < n then 0 < conf[i].start && 0 < conf[i].stop else conf[i] == Extent(0, 0)
  }

  /** The checks on one entry. */
  ghost predicate ConfigOk(conf: seq<Extent>, i: nat, max: int)
    requires |conf| == USABLE_PARTITIONS && i < USABLE_PARTITIONS
  {
    && FIRST_USABLE_TRK <= conf[i].start < conf[i].stop <= max
    && (0 < i ==> conf[i - 1].stop < conf[i].start)
    && (i < USABLE_PARTITIONS - 1 && 0 < conf[i + 1].start ==> conf[i].stop < conf[i + 1].start)
  }

  ghost function ConfigPart(conf: seq<Extent>, i: nat, max: int): Part
    requires |conf| == USABLE_PARTITIONS && i < USABLE_PARTITIONS
  {
    var end := if i < USABLE_PARTITIONS - 1 && conf[i + 1].start != 0 then conf[i + 1].start else max + 1;
    Part(true, conf[i].start, conf[i].stop, conf[i].stop - conf[i].start + 1, end - conf[i].stop - 1)
  }

  ghost predicate AllOk(conf: seq<Extent>, n: nat, max: int)
    requires |conf| == USABLE_PARTITIONS && n <= USABLE_PARTITIONS
  {
    n == 0 || (AllOk(conf, n - 1, max) && ConfigOk(conf, n - 1, max))
  }

  lemma {:induction false} NotAllOk(conf: seq<Extent>, n: nat, i: nat, max: int)
    requires |conf| == USABLE_PARTITIONS && i < n <= USABLE_PARTITIONS && !ConfigOk(conf, i, max)
    ensures !AllOk(conf, n, max)
  {
    if i < n - 1 {
      NotAllOk(conf, n - 1, i, max);
    }
  }

  /** Every extent is longer than one track. */
  ghost predicate Long(xs: seq<Extent>) {
    forall i {:trigger xs[i]} :: 0 <= i < |xs| ==> xs[i].start < xs[i].stop
  }

  /** The table once the first i entries have been taken. */
  ghost function ConfigTable(conf: seq<Extent>, i: nat, max: int, fspace_trk: int): Table
    requires |conf| == USABLE_PARTITIONS && i <= USABLE_PARTITIONS
  {
    Table(if i == 0 then fspace_trk else conf[0].start - FIRST_USABLE_TRK,
          [if 0 < i then ConfigPart(conf, 0, max) else EMPTY, if 1 < i then ConfigPart(conf, 1, max) else EMPTY,
           if 2 < i then ConfigPart(conf, 2, max) else EMPTY])
  }

  ghost function ConfigTaken(t: Table, conf: seq<Extent>, i: nat, max: int): Table
    requires |t.parts| == USABLE_PARTITIONS && |conf| == USABLE_PARTITIONS && i < USABLE_PARTITIONS
  {
    Table(if i == 0 then conf[0].start - FIRST_USABLE_TRK else t.fspace_trk, t.parts[i := ConfigPart(conf, i, max)])
  }

  /** The checks of all entries together say that the extents are in order. */
  lemma {:induction false} ConfigIs(conf: seq<Extent>, n: nat, max: int)
    requires Configured(conf, n)
    ensures AllOk(conf, n, max) <==> Sorted(conf[..n], max) && Long(conf[..n])
  {
    var xs := conf[..n];
    if AllOk(conf, n, max) {
      ConfigSorted(conf, n, max);
    }
    if Sorted(xs, max) && Long(xs) {
      SortedOk(conf, n, n, max);
    }
  }

  lemma {:induction false} AllOkAt(conf: seq<Extent>, n: nat, i: nat, max: int)
    requires |conf| == USABLE_PARTITIONS && i < n <= USABLE_PARTITIONS && AllOk(conf, n, max)
    ensures ConfigOk(conf, i, max)
  {
    if i < n - 1 {
      AllOkAt(conf, n - 1, i, max);
    }
  }

  lemma {:induction false} ConfigSorted(conf: seq<Extent>, n: nat, max: int)
    requires Configured(conf, n) && AllOk(conf, n, max)
    ensures Sorted(conf[..n], max) && Long(conf[..n])
  {
    var xs := conf[..n];
    forall i | 0 <= i < n
      ensures FIRST_USABLE_TRK <= xs[i].start < xs[i].stop <= max
    {
      AllOkAt(conf, n, i, max);
    }
    forall i, j | 0 <= i < j < n
      ensures xs[i].stop < xs[j].start
    {
      AllOkAt(conf, n, i, max);
      AllOkAt(conf, n, i + 1, max);
      AllOkAt(conf, n, j, max);
    }
  }

  lemma {:induction false} SortedOk(conf: seq<Extent>, n: nat, m: nat, max: int)
    requires Configured(conf, n) && m <= n && Sorted(conf[..n], max) && Long(conf[..n])
    ensures AllOk(conf, m, max)
  {
    if m != 0 {
      SortedOk(conf, n, m - 1, max);
      var xs, i := conf[..n], m - 1;
      assert xs[i] == conf[i];
      if 0 < i {
        assert xs[i - 1] == conf[i - 1];
      }
      if i + 1 < n {
        assert xs[i + 1] == conf[i + 1];
      }
    }
  }

  lemma {:induction false} ConfigDescribes(t: Table, conf: seq<Extent>, n: nat, max: int)
    requires Configured(conf, n) && 0 < n && Sorted(conf[..n], max) && FIRST_USABLE_TRK <= max + 1
    requires t == ConfigTable(conf, n, max, t.fspace_trk)
    ensures Describes(t, conf[..n], max)
  {
    var xs := conf[..n];
    forall i | 0 <= i < n
      ensures ConfigPart(conf, i, max) == Entry(xs, i, max)
    {
      assert xs[i] == conf[i];
      if i + 1 < n {
        assert xs[i + 1] == conf[i + 1];
      }
    }
  }

  /** Dequeuing the partition just enqueued restores every counter and every entry. */
  method EnqueueThenDequeue(anc: Anchor, start: int, stop: int)
    requires anc.Valid() && |anc.extents| < USABLE_PARTITIONS && InGap(anc.extents, Extent(start, stop), anc.max)
    modifies anc, anc.nodes
    ensures anc.Valid() && anc.Contents() == old(anc.Contents())
  {
    ghost var t, xs := anc.Contents(), anc.extents;
    var part;
    ghost var k;
    part, k := anc.Enqueue(start, stop);
    assert anc.nodes[0] in old(anc.nodes) && anc.nodes[1] in old(anc.nodes) && anc.nodes[2] in old(anc.nodes);
    anc.Dequeue(part, k);
    RemoveInsert(xs, k, Extent(start, stop));
    OneTable(t, anc.Contents(), xs, anc.max);
  }

  lemma {:induction false} PlaceFound(t: Table, xs: seq<Extent>, x: Extent, k: nat, max: int)
    requires Describes(t, xs, max) && |xs| < USABLE_PARTITIONS && InGap(xs, x, max) && k < 3
    requires forall i {:trigger t.parts[i]} :: 0 <= i < k ==> t.parts[i].end_trk != 0 && t.parts[i].start_trk <= x.start
    requires k < 2 ==> t.parts[k].end_trk == 0 || x.start < t.parts[k].start_trk
    ensures Place(xs, x, k)
  {
    if 0 < k {
      assert t.parts[k - 1].end_trk != 0;
    }
    forall i | k <= i < |xs|
      ensures x.stop < xs[i].start
    {
      assert t.parts[k] == Entry(xs, k, max);
      assert i == k || xs[k].stop < xs[i].start;
    }
    forall i | 0 <= i < k
      ensures xs[i].stop < x.start
    {
      assert t.parts[i] == Entry(xs, i, max);
    }
  }
}
