/** The history of samples: a ring of history_max + 1 entries, read by how many intervals back. */
module History {
  import opened Arith

  /** A sample of everything the rules can ask for: /proc contents and the time stamp. */
  class Ring<Sample(0)> {
    const history_max: nat
    const samples: array<Sample>
    var history_current: int

    /** Every sample taken so far, oldest first. */
    ghost var taken: seq<Sample>

    /** The ring holds the latest samples: number k, as long as it is among them, at k modulo the size of the ring. */
    ghost predicate Valid()
      reads this, samples
    {
      && 1 <= history_max && samples.Length == history_max + 1
      && (0 < |taken| ==> history_current == Rem(|taken| - 1, history_max + 1))
      && forall k :: 0 <= k < |taken| && |taken| <= k + history_max + 1 ==> samples[Rem(k, history_max + 1)] == taken[k]
    }

    constructor (history_max: nat)
      requires 1 <= history_max
      ensures Valid() && taken == [] && fresh(samples) && this.history_max == history_max
    {
      this.history_max := history_max;
      samples := new Sample[history_max + 1];
      history_current, taken := 0, [];
    }

    /** Slots of samples that are less than a ring apart. */
    lemma {:induction false} SlotsApart(k: nat, n: nat)
      requires 1 <= history_max && k < n <= k + history_max
      ensures Rem(k, history_max + 1) != Rem(n, history_max + 1)
    {
      var m := history_max + 1;
      QuotOf(k, m);
      QuotOf(n, m);
      if Quot(k, m) == Quot(n, m) {
      } else if Quot(k, m) < Quot(n, m) {
        TimesMono(Quot(k, m) + 1, Quot(n, m), m);
      } else {
        TimesMono(Quot(n, m) + 1, Quot(k, m), m);
      }
    }

    /** One sample goes into slot number |taken| modulo the size of the ring. */
    method Store(slot: nat, x: Sample)
      requires Valid() && slot == Rem(|taken|, history_max + 1)
      modifies this, samples
      ensures Valid() && taken == old(taken) + [x] && history_current == slot
    {
      ghost var m := history_max + 1;
      forall k | 0 <= k < |taken| && |taken| <= k + history_max
        ensures Rem(k, m) != slot
      {
        SlotsApart(k, |taken|);
      }
      samples[slot] := x;
      history_current := slot;
      taken := taken + [x];
    }

    /** setup_history: history_max samples, the last of them current. */
    method Setup(first: seq<Sample>)
      requires Valid() && taken == [] && |first| == history_max
      modifies this, samples
      ensures Valid() && taken == first
    {
      var i := 0;
      while i < history_max
        invariant 0 <= i <= history_max && Valid() && taken == first[..i]
      {
        QuotIs(i, history_max + 1, 0);
        Store(i, first[i]);
        i := i + 1;
      }
    }

    /** The slot behind slot Rem(n - 1). */
    lemma {:induction false} NextSlot(n: nat)
      requires 1 <= history_max && 0 < n
      ensures Rem(Rem(n - 1, history_max + 1) + 1, history_max + 1) == Rem(n, history_max + 1)
    {
      var m := history_max + 1;
      QuotOf(n - 1, m);
      var q, r := Quot(n - 1, m), Rem(n - 1, m);
      if r + 1 < m {
        QuotIs(n, m, q);
        QuotIs(r + 1, m, 0);
      } else {
        QuotIs(n, m, q + 1);
        QuotIs(r + 1, m, 1);
      }
    }

    /** One round of the main loop: the ring advances and takes a sample. */
    method Advance(x: Sample)
      requires Valid() && 0 < |taken|
      modifies this, samples
      ensures Valid() && taken == old(taken) + [x]
    {
      NextSlot(|taken|);
      Store(Rem(history_current + 1, history_max + 1), x);
    }

    /** The slot `back` intervals ago. */
    lemma {:induction false} SlotBack(n: nat, back: nat)
      requires 1 <= history_max && back <= history_max && back <= n
      ensures var c, m := Rem(n, history_max + 1), history_max + 1;
              Rem(n - back, m) == if back <= c then c - back else m - (back - c)
    {
      var m := history_max + 1;
      QuotOf(n, m);
      var q, c := Quot(n, m), Rem(n, m);
      if back <= c {
        QuotIs(n - back, m, q);
      } else {
        assert Times(q, m) == Times(q - 1, m) + m;
        QuotIs(n - back, m, q - 1);
      }
    }

    /** get_value: in every round of the main loop, for every index up to history_max, the sample taken exactly that
        many intervals ago. */
    method GetValue(index: nat) returns (x: Sample)
      requires Valid() && index <= history_max && history_max < |taken|
      ensures x == taken[|taken| - 1 - index]
    {
      var history_index;
      if index <= history_current {
        history_index := history_current - index;
      } else {
        history_index := history_max + 1 - (index - history_current);
      }
      SlotBack(|taken| - 1, index);
      x := samples[history_index];
    }
  }

  /** A whole run: after start-up and any number of rounds, each with its sample, every index reads its sample. */
  method Run<Sample(0)>(history_max: nat, first: seq<Sample>, rounds: seq<Sample>, index: nat) returns (x: Sample)
    requires 1 <= history_max && |first| == history_max && 0 < |rounds| && index <= history_max
    ensures x == (first + rounds)[|first| + |rounds| - 1 - index]
  {
    var ring := new Ring<Sample>(history_max);
    ring.Setup(first);
    for i := 0 to |rounds|
      invariant ring.Valid() && fresh(ring) && fresh(ring.samples) && ring.history_max == history_max
                && ring.taken == first + rounds[..i]
    {
      ring.Advance(rounds[i]);
    }
    assert rounds[..|rounds|] == rounds;
    x := ring.GetValue(index);
  }
}
