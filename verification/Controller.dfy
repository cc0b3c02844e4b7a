/** The hotplug daemon as a controller: CPUs and reserved pages stay within the configured bounds whatever the rules
    say, and the start count of CPUs is restored at the end. */
module Controller {
  import opened Arith

  // ----- counting CPUs -------------------------------------------------------------------------------------------

  /** Online CPUs among the first n: get_num_online_cpus for n == |online|. */
  function CountTo(online: seq<bool>, n: nat): (c: nat)
    requires n <= |online|
    ensures c <= n
  {
    if n == 0 then 0 else CountTo(online, n - 1) + if online[n - 1] then 1 else 0
  }

  function Count(online: seq<bool>): nat {
    CountTo(online, |online|)
  }

  lemma {:induction false} CountSet(online: seq<bool>, i: nat, on: bool, n: nat)
    requires i < |online| && n <= |online|
    ensures CountTo(online[i := on], n) == CountTo(online, n)
            + if i < n && on && !online[i] then 1 else if i < n && !on && online[i] then -1 else 0
  {
    if n != 0 {
      CountSet(online, i, on, n - 1);
    }
  }

  /** All CPUs alike. */
  lemma {:induction false} CountAll(online: seq<bool>, n: nat, on: bool)
    requires n <= |online| && forall i :: 0 <= i < n ==> online[i] == on
    ensures CountTo(online, n) == if on then n else 0
  {
    if n != 0 {
      CountAll(online, n - 1, on);
    }
  }

  /** CPU c is the first one that is offline and configured. */
  ghost predicate FirstPluggable(online: seq<bool>, configured: seq<bool>, c: int)
    requires |online| == |configured|
  {
    && 0 <= c < |online| && !online[c] && configured[c]
    && forall i :: 0 <= i < c ==> online[i] || !configured[i]
  }

  /** CPU c is the last one that is online. */
  ghost predicate LastOnline(online: seq<bool>, c: int) {
    0 <= c < |online| && online[c] && forall i :: c < i < |online| ==> !online[i]
  }

  /** after is before with the CPUs in front of c enabled. */
  ghost predicate EnabledTo(before: seq<bool>, after: seq<bool>, c: nat) {
    |after| == |before| && forall i :: 0 <= i < |after| ==> after[i] == (before[i] || i < c)
  }

  /** after is before with the CPUs in front of c disabled. */
  ghost predicate DisabledTo(before: seq<bool>, after: seq<bool>, c: nat) {
    |after| == |before| && forall i :: 0 <= i < |after| ==> after[i] == (before[i] && c <= i)
  }

  /** The number of online CPUs is brought to the bound it lies outside, by enabling or disabling from CPU 0 on. */
  ghost predicate Adjusted(before: seq<bool>, after: seq<bool>, least: int, most: int) {
    && (Count(before) < least ==> Count(after) == least && exists c :: EnabledTo(before, after, c))
    && (most < Count(before) ==> Count(after) == most && exists c :: DisabledTo(before, after, c))
    && (least <= Count(before) <= most ==> after == before)
  }

  datatype Config = Config(cpu_min: int, cpu_max: int, cmm_min: int, cmm_max: int)

  /** What the rules and the machine decide in one interval: rule outcomes, page deltas, and whether a plug operation
      works. */
  datatype Interval = Interval(hotplug: bool, hotunplug: bool, memplug: bool, memunplug: bool, cmm_inc: int,
                               cmm_dec: int, works: bool)

  class Machine {
    var online: seq<bool>
    const configured: seq<bool>
    var cmm_pages: int
    var num_cpu_start: int
    const cfg: Config

    constructor (online: seq<bool>, configured: seq<bool>, cmm_pages: int, cfg: Config)
      ensures this.online == online && this.configured == configured && this.cmm_pages == cmm_pages && this.cfg == cfg
              && num_cpu_start == 0
    {
      this.online, this.configured, this.cmm_pages := online, configured, cmm_pages;
      this.cfg, this.num_cpu_start := cfg, 0;
    }

    /** The number of online CPUs is within bounds. */
    ghost predicate CpusInBounds()
      reads this
    {
      cfg.cpu_min <= Count(online) <= cfg.cpu_max
    }

    ghost predicate PagesInBounds()
      reads this
    {
      cfg.cmm_min <= cmm_pages <= cfg.cmm_max
    }

    /** hotplug and hotunplug: change the state of one CPU if that works. */
    method Plug(cpuid: nat, on: bool, works: bool)
      requires cpuid < |online|
      modifies this`online
      ensures online == if works then old(online)[cpuid := on] else old(online)
    {
      if works {
        online := online[cpuid := on];
      }
    }

    /** The first loop of the start-up adjustment: CPUs are enabled until the minimum is reached. */
    method RaiseToMinimum() returns (cpuid: nat)
      modifies this`online
      ensures EnabledTo(old(online), online, cpuid)
      ensures Count(online) == Max(old(Count(online)), Min(cfg.cpu_min, |online|))
    {
      cpuid := 0;
      while Count(online) < cfg.cpu_min && cpuid < |online|
        invariant cpuid <= |online| && EnabledTo(old(online), online, cpuid)
        invariant old(Count(online)) <= Count(online) <= Max(old(Count(online)), cfg.cpu_min)
        decreases |online| - cpuid
      {
        if !online[cpuid] {
          CountSet(online, cpuid, true, |online|);
          Plug(cpuid, true, true);
        }
        cpuid := cpuid + 1;
      }
      if cpuid == |online| {
        CountAll(online, |online|, true);
      }
    }

    /** The second loop: CPUs are disabled until the maximum is reached. */
    method LowerToMaximum() returns (cpuid: nat)
      requires 0 <= cfg.cpu_max
      modifies this`online
      ensures DisabledTo(old(online), online, cpuid)
      ensures Count(online) == Min(old(Count(online)), cfg.cpu_max)
    {
      cpuid := 0;
      while Count(online) > cfg.cpu_max && cpuid < |online|
        invariant cpuid <= |online| && DisabledTo(old(online), online, cpuid)
        invariant Min(old(Count(online)), cfg.cpu_max) <= Count(online) <= old(Count(online))
        decreases |online| - cpuid
      {
        if online[cpuid] {
          CountSet(online, cpuid, false, |online|);
          Plug(cpuid, false, true);
        }
        cpuid := cpuid + 1;
      }
      if cpuid == |online| {
        CountAll(online, |online|, false);
      }
    }

    /** check_config, CPU part: the daemon goes on exactly when the bounds can be met, and then they are. */
    method AdjustCpus() returns (go: bool)
      requires 0 <= cfg.cpu_min && 0 <= cfg.cpu_max
      modifies this
      ensures go <==> cfg.cpu_min <= cfg.cpu_max && cfg.cpu_min <= |online|
      ensures go ==> CpusInBounds() && num_cpu_start == old(Count(online))
      ensures go ==> Adjusted(old(online), online, cfg.cpu_min, cfg.cpu_max)
      ensures |online| == old(|online|) && cmm_pages == old(cmm_pages)
    {
      if cfg.cpu_max < cfg.cpu_min && cfg.cpu_max != 0 {
        return false;
      }
      num_cpu_start := Count(online);
      if num_cpu_start < cfg.cpu_min && |online| >= cfg.cpu_min {
        var raised := RaiseToMinimum();
      }
      if Count(online) > cfg.cpu_max {
        var lowered := LowerToMaximum();
      }
      if cfg.cpu_min > |online| {
        return false;
      }
      go := Count(online) >= cfg.cpu_min;
    }

    /** check_config, memory part. */
    method AdjustPages()
      requires cfg.cmm_min <= cfg.cmm_max
      modifies this`cmm_pages
      ensures PagesInBounds() && cmm_pages == Min(Max(old(cmm_pages), cfg.cmm_min), cfg.cmm_max)
    {
      var cmm_pagesize_start := cmm_pages;
      if cmm_pagesize_start < cfg.cmm_min {
        cmm_pages := cfg.cmm_min;
      }
      if cmm_pagesize_start > cfg.cmm_max {
        cmm_pages := cfg.cmm_max;
      }
    }

    /** eval_cpu_rules: one CPU changes exactly when a rule asks for it, the bound allows it, there is a CPU to change
        and the operation works: the first that is offline and configured, or the last that is online, unless that is
        CPU 0. */
    method EvalCpuRules(v: Interval)
      requires CpusInBounds() && |configured| == |online|
      modifies this`online
      ensures CpusInBounds() && |online| == old(|online|)
      ensures Count(online) - old(Count(online)) ==
              if online == old(online) then 0 else if v.hotplug then 1 else -1
      ensures 0 < |online| && old(online[0]) ==> online[0]
      ensures v.hotplug && v.works && old(Count(online)) < cfg.cpu_max ==>
                forall c {:trigger FirstPluggable(old(online), configured, c)} ::
                  FirstPluggable(old(online), configured, c) ==> online == old(online)[c := true]
      ensures !v.hotplug && v.hotunplug && v.works && cfg.cpu_min < old(Count(online)) ==>
                forall c {:trigger LastOnline(old(online), c)} ::
                  LastOnline(old(online), c) && 0 < c ==> online == old(online)[c := false]
      ensures online != old(online) ==>
                && v.works
                && if v.hotplug then
                     old(Count(online)) < cfg.cpu_max && exists c :: FirstPluggable(old(online), configured, c)
                   else
                     && v.hotunplug && cfg.cpu_min < old(Count(online))
                     && exists c :: LastOnline(old(online), c) && 0 < c
    {
      var onumcpus := Count(online);
      var on_off := 0;
      if v.hotplug {
        on_off := on_off + 1;
      } else if v.hotunplug {
        on_off := on_off - 1;
      }
      if on_off > 0 {
        if onumcpus + 1 > cfg.cpu_max {
          return;
        }
        var cpu := 0;
        while cpu < |online| && !(!online[cpu] && configured[cpu])
          invariant 0 <= cpu <= |online| && forall i :: 0 <= i < cpu ==> online[i] || !configured[i]
        {
          cpu := cpu + 1;
        }
        if cpu < |online| {
          assert FirstPluggable(online, configured, cpu);
          CountSet(online, cpu, true, |online|);
          Plug(cpu, true, v.works);
        }
      } else if on_off < 0 {
        if onumcpus <= cfg.cpu_min {
          return;
        }
        var cpu := |online| - 1;
        while cpu >= 0 && !online[cpu]
          invariant -1 <= cpu < |online| && forall i :: cpu < i < |online| ==> !online[i]
        {
          cpu := cpu - 1;
        }
        if cpu > 0 {
          assert LastOnline(online, cpu);
          CountSet(online, cpu, false, |online|);
          Plug(cpu, false, v.works);
        }
      }
    }

    /** eval_mem_rules: a step against the rule's direction is taken as no step, and the bounds hold in any case. */
    method EvalMemRules(v: Interval)
      requires cfg.cmm_min <= cfg.cmm_max
      modifies this`cmm_pages
      ensures PagesInBounds()
      ensures var step := if v.memplug then -Max(v.cmm_dec, 0) else if v.memunplug then Max(v.cmm_inc, 0) else 0;
              cmm_pages == Min(Max(old(cmm_pages) + step, cfg.cmm_min), cfg.cmm_max)
    {
      var cmm_inc, cmm_dec := v.cmm_inc, v.cmm_dec;
      var cmm_new := cmm_pages;
      if v.memplug {
        if cmm_dec < 0 {
          cmm_dec := 0;
        }
        cmm_new := cmm_new - cmm_dec;
      } else if v.memunplug {
        if cmm_inc < 0 {
          cmm_inc := 0;
        }
        cmm_new := cmm_new + cmm_inc;
      }
      if cmm_new < cfg.cmm_min {
        cmm_new := cfg.cmm_min;
      }
      if cmm_new > cfg.cmm_max {
        cmm_new := cfg.cmm_max;
      }
      if cmm_new != cmm_pages {
        cmm_pages := cmm_new;
      }
    }

    /** reactivate_cpus: with plug operations that work, exactly the start count; a start count of 0 means that it is
        not known. */
    method ReactivateCpus()
      requires 0 <= num_cpu_start <= |online|
      modifies this`online
      ensures if num_cpu_start == 0 then online == old(online)
              else Adjusted(old(online), online, num_cpu_start, num_cpu_start)
    {
      if num_cpu_start == 0 {
        return;
      }
      var cpuid := 0;
      while Count(online) != num_cpu_start && cpuid < |online|
        invariant 0 <= cpuid <= |online| == old(|online|)
        invariant old(Count(online)) < num_cpu_start ==>
                    Count(online) <= num_cpu_start && EnabledTo(old(online), online, cpuid)
        invariant old(Count(online)) > num_cpu_start ==>
                    Count(online) >= num_cpu_start && DisabledTo(old(online), online, cpuid)
        invariant old(Count(online)) == num_cpu_start ==> online == old(online)
        decreases |online| - cpuid
      {
        var nc := Count(online);
        CountSet(online, cpuid, !online[cpuid], |online|);
        if nc > num_cpu_start && online[cpuid] {
          Plug(cpuid, false, true);
        }
        if nc < num_cpu_start && !online[cpuid] {
          Plug(cpuid, true, true);
        }
        cpuid := cpuid + 1;
      }
      if cpuid == |online| {
        if Count(online) > num_cpu_start {
          CountAll(online, |online|, false);
        } else if Count(online) < num_cpu_start {
          CountAll(online, |online|, true);
        }
      }
    }
  }

  /** A whole run of the daemon over any intervals: the bounds hold at the end of every one, and stopping restores the
      number of CPUs found at the start. */
  method Run(m: Machine, intervals: seq<Interval>) returns (started: bool, ghost trace: seq<(nat, int)>)
    requires 0 <= m.cfg.cpu_min && 0 <= m.cfg.cpu_max && m.cfg.cmm_min <= m.cfg.cmm_max && |m.configured| == |m.online|
    modifies m
    ensures started <==> m.cfg.cpu_min <= m.cfg.cpu_max && m.cfg.cpu_min <= |m.online|
    ensures started ==> |trace| == |intervals| && (0 < old(Count(m.online)) ==> Count(m.online) == old(Count(m.online)))
    ensures forall t :: t in trace ==> m.cfg.cpu_min <= t.0 <= m.cfg.cpu_max && m.cfg.cmm_min <= t.1 <= m.cfg.cmm_max
  {
    trace := [];
    started := m.AdjustCpus();
    if !started {
      return;
    }
    m.AdjustPages();
    for i := 0 to |intervals|
      invariant m.CpusInBounds() && m.PagesInBounds() && |m.online| == old(|m.online|)
                && m.num_cpu_start == old(Count(m.online))
      invariant |trace| == i && forall t :: t in trace ==>
                                  m.cfg.cpu_min <= t.0 <= m.cfg.cpu_max && m.cfg.cmm_min <= t.1 <= m.cfg.cmm_max
    {
      m.EvalCpuRules(intervals[i]);
      m.EvalMemRules(intervals[i]);
      trace := trace + [(Count(m.online), m.cmm_pages)];
    }
    m.ReactivateCpus();
  }
}
