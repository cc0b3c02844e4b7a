/** Low-level formatting of a DASD: the steps a range of tracks is formatted in, the order of a full format, and the
    search for the unformatted part of a disk. */
module FormatPlan {
  import opened Arith

  datatype Step = Step(start_unit: int, stop_unit: int)

  /** Tracks of one request: reqsize cylinders of that many heads. */
  function Request(heads: nat, reqsize: nat): nat {
    Times(reqsize, heads)
  }

  // ----- the steps ---------------------------------------------------------------------------------------------------

  /** The last track of a cylinder. */
  ghost predicate EndsCylinder(trk: int, heads: nat) {
    0 < heads && 0 <= trk && Rem(trk + 1, heads) == 0
  }

  /** Each step starts behind the one before it. */
  ghost predicate Adjacent(steps: seq<Step>) {
    forall i {:trigger Follows(steps, i)} :: 0 < i < |steps| ==> Follows(steps, i)
  }

  ghost predicate Follows(steps: seq<Step>, i: int)
    requires 0 < i < |steps|
  {
    steps[i].start_unit == steps[i - 1].stop_unit + 1
  }

  /** The first request, which ends with a cylinder, ends before stop, although a request of full length from start
      would not: start is inside a cylinder, and the rest is formatted by the first step already. */
  predicate Twice(start: nat, stop: int, heads: nat, reqsize: nat)
    requires 0 < heads
  {
    start + reqsize * heads - start % heads < stop <= start + reqsize * heads
  }

  /** Steps that cover start to end without gap or overlap, all but the last ending with a cylinder. */
  ghost predicate Plan(steps: seq<Step>, start: int, end: int, heads: nat) {
    && 0 < |steps| && steps[0].start_unit == start && steps[|steps| - 1].stop_unit == end && Adjacent(steps)
    && (forall i {:trigger steps[i]} :: 0 <= i < |steps| ==> start <= steps[i].start_unit <= steps[i].stop_unit <= end)
    && (forall i {:trigger steps[i]} :: 0 <= i < |steps| - 1 ==> EndsCylinder(steps[i].stop_unit, heads))
  }

  /** No step is longer than one request behind its first track.  A step that does not reach stop is not the last one
      could have been, and is one request less the tracks in front of it in its cylinder. */
  ghost predicate Sized(s: Step, stop: int, heads: nat, reqsize: nat)
    requires 0 < heads
  {
    && s.stop_unit <= s.start_unit + reqsize * heads
    && (s.stop_unit < stop ==>
          && s.start_unit + reqsize * heads < stop
          && s.stop_unit == s.start_unit + reqsize * heads - s.start_unit % heads - 1)
  }

  ghost predicate AllSized(steps: seq<Step>, stop: int, heads: nat, reqsize: nat)
    requires 0 < heads
  {
    forall i {:trigger steps[i]} :: 0 <= i < |steps| ==> Sized(steps[i], stop, heads, reqsize)
  }

  /** Covering the tracks with steps of these sizes leaves no choice. */
  lemma {:induction false} OnePlan(xs: seq<Step>, ys: seq<Step>, n: nat, start: int, stop: int, heads: nat,
                                   reqsize: nat)
    requires 0 < heads && Plan(xs, start, stop, heads) && Plan(ys, start, stop, heads)
    requires AllSized(xs, stop, heads, reqsize) && AllSized(ys, stop, heads, reqsize) && n <= |xs|
    ensures n <= |ys| && xs[..n] == ys[..n] && (n == |xs| ==> xs == ys)
  {
    if n != 0 {
      OnePlan(xs, ys, n - 1, start, stop, heads, reqsize);
      if 1 < n {
        assert Follows(xs, n - 1) && xs[n - 2] == xs[..n - 1][n - 2] == ys[n - 2];
        LastReaches(ys, n - 2, start, stop, heads);
        LastReaches(xs, n - 2, start, stop, heads);
        assert Follows(ys, n - 1);
      }
      assert xs[n - 1].start_unit == ys[n - 1].start_unit;
      assert xs[n - 1].stop_unit == ys[n - 1].stop_unit;
      assert xs[..n] == xs[..n - 1] + [xs[n - 1]] && ys[..n] == ys[..n - 1] + [ys[n - 1]];
      LastReaches(xs, n - 1, start, stop, heads);
      LastReaches(ys, n - 1, start, stop, heads);
    } else {
      assert xs[..0] == ys[..0] == [];
    }
  }

  /** Only the last step reaches the end. */
  lemma {:induction false} LastReaches(steps: seq<Step>, i: nat, start: int, end: int, heads: nat)
    requires Plan(steps, start, end, heads) && i < |steps|
    ensures steps[i].stop_unit == end <==> i == |steps| - 1
  {
    if i < |steps| - 1 {
      assert Follows(steps, i + 1);
    }
  }

  lemma {:induction false} PlanExtend(steps: seq<Step>, start: int, cur: int, end: int, heads: nat)
    requires cur <= end
    requires if steps == [] then cur == start else Plan(steps, start, cur - 1, heads) && EndsCylinder(cur - 1, heads)
    ensures Plan(steps + [Step(cur, end)], start, end, heads)
  {
    var r := steps + [Step(cur, end)];
    forall i | 0 < i < |r|
      ensures Follows(r, i)
    {
      if i < |steps| {
        assert Follows(steps, i);
      }
    }
    forall i | 0 <= i < |r|
      ensures start <= r[i].start_unit <= r[i].stop_unit <= end && (i < |r| - 1 ==> EndsCylinder(r[i].stop_unit, heads))
    {
      if i < |steps| {
        assert r[i] == steps[i];
      }
    }
  }

  /** The steps of process_tracks: none if start is not before stop, a plan of steps of the size of a request, or in one
      case two steps that overlap. */
  ghost predicate Steps(steps: seq<Step>, start: nat, stop: int, heads: nat, reqsize: nat)
    requires 0 < heads
  {
    && AllSized(steps, stop, heads, reqsize)
    && if stop <= start then steps == []
       else if Twice(start, stop, heads, reqsize)
       then steps == [Step(start, stop), Step(start + reqsize * heads - start % heads, stop)]
       else Plan(steps, start, stop, heads)
  }

  /** Nothing is left open: start, stop, geometry and request size determine the steps. */
  lemma {:induction false} OnlySteps(xs: seq<Step>, ys: seq<Step>, start: nat, stop: int, heads: nat, reqsize: nat)
    requires 0 < heads && Steps(xs, start, stop, heads, reqsize) && Steps(ys, start, stop, heads, reqsize)
    ensures xs == ys
  {
    if start < stop && !Twice(start, stop, heads, reqsize) {
      OnePlan(xs, ys, |xs|, start, stop, heads, reqsize);
    }
  }

  /** A step of process_tracks from cur on. */
  lemma {:induction false} StepSized(cur: nat, stop: int, heads: nat, reqsize: nat, step: Step)
    requires 0 < heads && 0 < reqsize && cur < stop
    requires step == Step(cur, if cur + Request(heads, reqsize) >= stop then stop
                               else cur + Request(heads, reqsize) - Rem(cur, heads) - 1)
    ensures Sized(step, stop, heads, reqsize)
  {
    TimesIsMul(reqsize, heads);
    QuotIsDiv(cur, heads);
  }

  /** A request from cur ends with a cylinder. */
  lemma {:induction false} RequestEnds(cur: nat, heads: nat, reqsize: nat)
    requires 0 < heads && 0 < reqsize
    ensures var next := cur + Request(heads, reqsize) - Rem(cur, heads); cur < next && Rem(next, heads) == 0
  {
    QuotOf(cur, heads);
    TimesMono(1, reqsize, heads);
    TimesAdd(Quot(cur, heads), reqsize, heads);
    QuotIs(cur + Request(heads, reqsize) - Rem(cur, heads), heads, Quot(cur, heads) + reqsize);
  }

  // ----- the device --------------------------------------------------------------------------------------------------

  datatype Track = Old | Invalid | Formatted

  class Device {
    var tracks: seq<Track>
    var enabled: bool

    /** The tracks after each operation so far. */
    ghost var log: seq<seq<Track>>

    constructor (tracks: seq<Track>)
      ensures this.tracks == tracks && enabled && log == []
    {
      this.tracks, this.enabled, this.log := tracks, true, [];
    }

    /** BIODASDFMT: the tracks of one step, formatted or invalidated. */
    method Ioctl(s: Step, to: Track)
      requires 0 <= s.start_unit <= s.stop_unit < |tracks|
      modifies this`tracks, this`log
      ensures Changed(old(tracks), tracks, s.start_unit, s.stop_unit, to) && log == old(log) + [tracks]
    {
      var was := tracks;
      tracks := seq(|was|, t requires 0 <= t < |was| => if s.start_unit <= t <= s.stop_unit then to else was[t]);
      log := log + [tracks];
    }

    /** One more step of process_tracks. */
    method FormatStep(s: Step, ghost tracks0: seq<Track>, ghost log0: seq<seq<Track>>, ghost steps: seq<Step>,
                      ghost start: nat)
      requires Done(tracks0, tracks, log0, log, steps, start) && start <= s.start_unit <= s.stop_unit < |tracks|
      requires if steps == [] then s.start_unit == start
               else s.start_unit <= steps[|steps| - 1].stop_unit + 1 && steps[|steps| - 1].stop_unit <= s.stop_unit
      modifies this`tracks, this`log
      ensures Done(tracks0, tracks, log0, log, steps + [s], start) && |tracks| == old(|tracks|)
    {
      Ioctl(s, Formatted);
      DoneStep(tracks0, old(tracks), tracks, log0, old(log), log, steps, start, s);
    }

    /** One round of the loop of process_tracks. */
    method Round(steps: seq<Step>, ghost start: nat, cur: nat, stop: int, heads: nat, reqsize: nat,
                 ghost tracks0: seq<Track>, ghost log0: seq<seq<Track>>)
      returns (steps': seq<Step>, cur': nat)
      requires 0 < heads && 0 < reqsize && start <= cur < stop < |tracks|
      requires Phase(steps, start, cur, stop, heads, reqsize) && Done(tracks0, tracks, log0, log, steps, start)
      modifies this`tracks, this`log
      ensures Phase(steps', start, cur', stop, heads, reqsize) && cur < cur'
      ensures Done(tracks0, tracks, log0, log, steps', start) && |tracks| == old(|tracks|)
    {
      var step_value := Request(heads, reqsize) - Rem(cur, heads);
      var step := Step(cur, if cur + Request(heads, reqsize) >= stop then stop else cur + step_value - 1);
      PhaseStep(steps, start, cur, stop, heads, reqsize, step, step_value);
      FormatStep(step, tracks0, log0, steps, start);
      steps', cur' := steps + [step], cur + step_value;
    }

    /** process_tracks: the steps, and every track from start to stop formatted.  If start is not before stop
        nothing is formatted.  Steps that do not reach stop are of the size of a request and end with a cylinder, and
        tracks are formatted twice in one case only. */
    method ProcessTracks(start: nat, stop: int, heads: nat, reqsize: nat) returns (steps: seq<Step>)
      requires 0 < heads && 0 < reqsize && stop < |tracks|
      modifies this`tracks, this`log
      ensures Changed(old(tracks), tracks, start, if start < stop then stop else start - 1, Formatted)
      ensures Untouched(old(log), log, old(tracks), start)
              && (start < stop ==> |old(log)| < |log| && log[|log| - 1] == tracks)
      ensures Steps(steps, start, stop, heads, reqsize) && Logged(old(tracks), old(log), log, steps)
    {
      var cur_trk := start;
      steps := [];
      while cur_trk < stop
        invariant start <= cur_trk && (stop <= start ==> steps == [])
                  && Phase(steps, start, cur_trk, stop, heads, reqsize)
        invariant Done(old(tracks), tracks, old(log), log, steps, start) && |tracks| == old(|tracks|)
        decreases stop - cur_trk
      {
        steps, cur_trk := Round(steps, start, cur_trk, stop, heads, reqsize, old(tracks), old(log));
      }
      PhaseDone(steps, start, cur_trk, stop, heads, reqsize);
    }
  }

  /** Each step is one operation, which formats its tracks and no others. */
  ghost predicate Logged(before: seq<Track>, log: seq<seq<Track>>, log': seq<seq<Track>>, steps: seq<Step>) {
    && |log'| == |log| + |steps| && log <= log'
    && forall i {:trigger steps[i]} :: 0 <= i < |steps| ==>
         Changed(if i == 0 then before else log'[|log| + i - 1], log'[|log| + i],
                 steps[i].start_unit, steps[i].stop_unit, Formatted)
  }

  lemma {:induction false} LoggedStep(before: seq<Track>, was: seq<Track>, now: seq<Track>, log: seq<seq<Track>>,
                                      log': seq<seq<Track>>, steps: seq<Step>, s: Step)
    requires Logged(before, log, log', steps) && was == (if steps == [] then before else log'[|log'| - 1])
    requires Changed(was, now, s.start_unit, s.stop_unit, Formatted)
    ensures Logged(before, log, log' + [now], steps + [s])
  {
    var log2, steps2 := log' + [now], steps + [s];
    forall i | 0 <= i < |steps2|
      ensures Changed(if i == 0 then before else log2[|log| + i - 1], log2[|log| + i],
                      steps2[i].start_unit, steps2[i].stop_unit, Formatted)
    {
      if i < |steps| {
        assert steps2[i] == steps[i];
      }
    }
  }

  /** Exactly the tracks from start to end have changed. */
  ghost predicate Changed(before: seq<Track>, after: seq<Track>, start: int, end: int, to: Track) {
    |after| == |before| && forall t :: 0 <= t < |after| ==> after[t] == if start <= t <= end then to else before[t]
  }

  /** Operations were added to the log, and none of them changed a track in front of start. */
  ghost predicate Untouched(log: seq<seq<Track>>, log': seq<seq<Track>>, tracks: seq<Track>, start: int) {
    && log <= log'
    && forall i {:trigger log'[i]} :: |log| <= i < |log'| ==> Same(log'[i], tracks, start)
  }

  /** The tracks of the steps so far are formatted, from start on, and no other track has changed. */
  ghost predicate Done(tracks: seq<Track>, tracks': seq<Track>, log: seq<seq<Track>>, log': seq<seq<Track>>,
                       steps: seq<Step>, start: nat) {
    && Changed(tracks, tracks', start, if steps == [] then start - 1 else steps[|steps| - 1].stop_unit, Formatted)
    && Untouched(log, log', tracks, start)
    && (if steps == [] then tracks' == tracks else |log| < |log'| && log'[|log'| - 1] == tracks')
    && Logged(tracks, log, log', steps)
  }

  lemma {:induction false} DoneStep(tracks: seq<Track>, was: seq<Track>, now: seq<Track>,
                                    log: seq<seq<Track>>, before: seq<seq<Track>>, after: seq<seq<Track>>,
                                    steps: seq<Step>, start: nat, s: Step)
    requires Done(tracks, was, log, before, steps, start) && start <= s.start_unit <= s.stop_unit < |was|
    requires if steps == [] then s.start_unit == start
             else s.start_unit <= steps[|steps| - 1].stop_unit + 1 && steps[|steps| - 1].stop_unit <= s.stop_unit
    requires Changed(was, now, s.start_unit, s.stop_unit, Formatted) && after == before + [now]
    ensures Done(tracks, now, log, after, steps + [s], start)
  {
    LoggedStep(tracks, was, now, log, before, steps, s);
  }

  ghost predicate Same(a: seq<Track>, b: seq<Track>, n: int) {
    |a| == |b| && forall t :: 0 <= t < |a| && t < n ==> a[t] == b[t]
  }

  /** Where process_tracks can be: at the start, at a cylinder boundary with everything before it done, or done. */
  ghost predicate Phase(steps: seq<Step>, start: nat, cur: int, stop: int, heads: nat, reqsize: nat)
    requires 0 < heads
  {
    var next := start + Request(heads, reqsize) - Rem(start, heads);
    AllSized(steps, stop, heads, reqsize) &&
    if steps == [] then cur == start
    else if Twice(start, stop, heads, reqsize) then
      (cur == next && steps == [Step(start, stop)]) || (stop <= cur && steps == [Step(start, stop), Step(next, stop)])
    else if cur < stop then 0 < cur && Rem(cur, heads) == 0 && Plan(steps, start, cur - 1, heads)
      && EndsCylinder(cur - 1, heads)
    else Plan(steps, start, stop, heads)
  }

  lemma {:induction false} PhaseStep(steps: seq<Step>, start: nat, cur: int, stop: int, heads: nat, reqsize: nat,
                                     step: Step, step_value: int)
    requires 0 < heads && 0 < reqsize && start <= cur < stop && Phase(steps, start, cur, stop, heads, reqsize)
    requires step_value == Request(heads, reqsize) - Rem(cur, heads)
    requires step == Step(cur, if cur + Request(heads, reqsize) >= stop then stop else cur + step_value - 1)
    ensures Phase(steps + [step], start, cur + step_value, stop, heads, reqsize) && 0 < step_value
            && cur <= step.stop_unit <= stop
    ensures if steps == [] then cur == start
            else cur <= steps[|steps| - 1].stop_unit + 1 && steps[|steps| - 1].stop_unit <= step.stop_unit
  {
    TimesIsMul(reqsize, heads);
    QuotIsDiv(start, heads);
    RequestEnds(cur, heads, reqsize);
    RequestEnds(start, heads, reqsize);
    StepSized(cur, stop, heads, reqsize, step);
    if !Twice(start, stop, heads, reqsize) {
      PlanExtend(steps, start, cur, step.stop_unit, heads);
    }
  }

  lemma {:induction false} PhaseDone(steps: seq<Step>, start: nat, cur: int, stop: int, heads: nat, reqsize: nat)
    requires 0 < heads && start <= cur && stop <= cur && (stop <= start ==> steps == [])
    requires Phase(steps, start, cur, stop, heads, reqsize)
    ensures Steps(steps, start, stop, heads, reqsize)
  {
    TimesIsMul(reqsize, heads);
    QuotIsDiv(start, heads);
  }

  /** 15 heads, one cylinder at a time, from the last track of a cylinder to the end of the next: that one is formatted
      twice. */
  lemma {:induction false} TwiceExample()
    ensures Twice(14, 29, 15, 1) && 14 + 1 * 15 - 14 % 15 == 15
  {
  }

  /** From entry k of the log on, each step takes one entry to the next. */
  ghost predicate OneByOne(log: seq<seq<Track>>, k: nat, steps: seq<Step>) {
    && k + |steps| < |log|
    && forall i {:trigger steps[i]} :: 0 <= i < |steps| ==>
         Changed(log[k + i], log[k + i + 1], steps[i].start_unit, steps[i].stop_unit, Formatted)
  }

  lemma {:induction false} LoggedOneByOne(before: seq<Track>, log: seq<seq<Track>>, log': seq<seq<Track>>,
                                          steps: seq<Step>)
    requires Logged(before, log, log', steps) && 0 < |log| && log[|log| - 1] == before
    ensures forall last: seq<Track> :: OneByOne(log' + [last], |log| - 1, steps)
  {
    forall last: seq<Track>
      ensures OneByOne(log' + [last], |log| - 1, steps)
    {
      forall i | 0 <= i < |steps|
        ensures Changed((log' + [last])[|log| - 1 + i], (log' + [last])[|log| - 1 + i + 1],
                        steps[i].start_unit, steps[i].stop_unit, Formatted)
      {
      }
    }
  }

  ghost predicate OthersFormatted(tracks: seq<Track>) {
    forall t :: 1 <= t < |tracks| ==> tracks[t] == Formatted
  }

  /** dasdfmt_prepare_and_format: track 0 is invalidated first and stays so until all other tracks are formatted; every
      track is formatted in the end, with the one exception of a device of two tracks. */
  method PrepareAndFormat(d: Device, stop: nat, heads: nat, reqsize: nat) returns (ghost steps: seq<Step>)
    requires 0 < heads && 0 < reqsize && |d.tracks| == stop + 1
    modifies d
    ensures d.enabled && old(d.log) <= d.log && |d.log| == |old(d.log)| + 2 + |steps|
    ensures Steps(steps, 1, stop, heads, reqsize)
    ensures OneByOne(d.log, |old(d.log)|, steps)
    ensures forall i {:trigger d.log[i]} :: |old(d.log)| <= i < |d.log| - 1
              ==> |d.log[i]| == stop + 1 && d.log[i][0] == Invalid
    ensures stop != 1 ==> OthersFormatted(d.log[|d.log| - 2])
    ensures |d.tracks| == stop + 1 && d.tracks[0] == Formatted && d.tracks == d.log[|d.log| - 1]
    ensures (forall t :: 0 <= t <= stop ==> d.tracks[t] == Formatted) <==> stop != 1 || old(d.tracks[1]) == Formatted
  {
    d.enabled := false;
    d.Ioctl(Step(0, 0), Invalid);
    ghost var was, before := d.tracks, d.log;
    steps := d.ProcessTracks(1, stop, heads, reqsize);
    LoggedOneByOne(was, before, d.log, steps);
    assert forall i {:trigger d.log[i]} :: |old(d.log)| <= i < |d.log|
             ==> |d.log[i]| == stop + 1 && d.log[i][0] == Invalid;
    d.Ioctl(Step(0, 0), Formatted);
    d.enabled := true;
  }

  // ----- expanding a format ------------------------------------------------------------------------------------------

  /** Track t has the wanted block size. */
  ghost predicate Good(blksizes: seq<int>, blksize: int, t: int) {
    0 <= t < |blksizes| && blksizes[t] == blksize
  }

  /** From track 2 on, the disk is formatted up to track `bound` and not from there on. */
  ghost predicate FormattedTo(blksizes: seq<int>, blksize: int, bound: int) {
    && 2 <= bound <= |blksizes|
    && forall t {:trigger Good(blksizes, blksize, t)} :: 2 <= t < |blksizes| ==>
         (Good(blksizes, blksize, t) <==> t < bound)
  }

  /** dasdfmt_find_start: a track without the wanted format behind one with it, or the first track looked at.  Failure
      means that the last track is formatted.  On a disk formatted up to some track, that track is found, if there is
      one. */
  method FindStart(blksizes: seq<int>, blksize: int) returns (found: bool, first: nat)
    requires 2 < |blksizes|
    ensures found ==>
              2 <= first < |blksizes| && !Good(blksizes, blksize, first)
              && (first == 2 || Good(blksizes, blksize, first - 1))
    ensures !found ==> Good(blksizes, blksize, |blksizes| - 1)
    ensures forall b {:trigger FormattedTo(blksizes, blksize, b)} :: FormattedTo(blksizes, blksize, b)
              ==> (found <==> b < |blksizes|) && (found ==> first == b)
  {
    var left, right := 2, |blksizes| - 1;
    first := left;
    var good := false;
    while left <= right
      invariant 2 <= left <= right + 1 <= |blksizes| && 2 <= first
      invariant left == 2 || Good(blksizes, blksize, left - 1)
      invariant if right == |blksizes| - 1 then first == 2 && (left == 2 || good)
                else first == right + 1 && !Good(blksizes, blksize, first) && (first == 2 ==> !good)
      decreases right - left
    {
      var middle := left + (right - left) / 2;
      good := blksizes[middle] == blksize;
      if !good {
        first := middle;
        right := middle - 1;
      } else {
        left := middle + 1;
      }
    }
    found := !(first == 2 && good);
  }
}
