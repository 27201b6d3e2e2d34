/** The CPU-time accounting of the CPU monitor: five bounded maps driven by scheduler
    switches and system-call entries and exits. */
module CpuMonitor {
  import opened CounterMaps
  import opened Options

  const ENTRIES := 10240
  const TWO_64 := 0x1_0000_0000_0000_0000

  type u64 = x: int | 0 <= x < TWO_64

  type Times = map<nat, nat>

  datatype Event =
    | Switch(prev: nat, next: nat, ts: u64)
    | SysEnter(pid: nat, ts: u64)
    | SysExit(pid: nat, ts: u64)

  /** The five maps: start_time, syscall_start, kernel_time, user_time, run_kernel_time. */
  datatype Maps = Maps(start: map<nat, u64>, syscall: map<nat, u64>, kernel: Times, user: Times, run: Times)

  const EMPTY := Maps(map[], map[], map[], map[], map[])

  /** `a - b` in 64-bit unsigned arithmetic. */
  function Sub64(a: u64, b: u64): (r: nat)
    ensures r == if b <= a then a - b else a - b + 0x1_0000_0000_0000_0000
  {
    (a - b) % TWO_64
  }

  function Get(m: Times, k: nat): nat {
    if k in m then m[k] else 0
  }

  /** Add to an entry, or start it. */
  function AddTo(m: Times, k: nat, amount: nat): Times {
    if k in m then m[k := m[k] + amount] else Put(m, k, amount, ENTRIES)
  }

  function Step(s: Maps, e: Event): Maps {
    match e
    case Switch(prev, next, ts) =>
      var s1 := if prev in s.start then EndSlice(s, prev, ts) else s;
      s1.(start := Put(s1.start, next, ts, ENTRIES))
    case SysEnter(pid, ts) => s.(syscall := Put(s.syscall, pid, ts, ENTRIES))
    case SysExit(pid, ts) =>
      if pid in s.syscall then
        s.(run := AddTo(s.run, pid, Sub64(ts, s.syscall[pid])), syscall := s.syscall - {pid})
      else s
  }

  /** The slice of `prev` ends: what of it was not kernel time is user time. */
  function EndSlice(s: Maps, prev: nat, ts: u64): Maps
    requires prev in s.start
  {
    var delta, ktime := Sub64(ts, s.start[prev]), Get(s.run, prev);
    Maps(s.start - {prev}, s.syscall,
         if ktime > 0 then AddTo(s.kernel, prev, ktime) else s.kernel,
         if ktime < delta then AddTo(s.user, prev, delta - ktime) else s.user,
         s.run - {prev})
  }

  ghost function Run(es: seq<Event>): Maps {
    if es == [] then EMPTY else Step(Run(es[..|es| - 1]), es[|es| - 1])
  }

  lemma RunStep(es: seq<Event>, e: Event)
    ensures Run(es + [e]) == Step(Run(es), e)
  {
    assert (es + [e])[..|es|] == es;
  }

  class Monitor {
    var startTime: map<nat, u64>
    var syscallStart: map<nat, u64>
    var kernelTime: Times
    var userTime: Times
    var runKernelTime: Times

    ghost var history: seq<Event>

    ghost predicate Valid()
      reads this
    {
      View() == Run(history)
    }

    ghost function View(): Maps
      reads this
    {
      Maps(startTime, syscallStart, kernelTime, userTime, runKernelTime)
    }

    constructor ()
      ensures Valid() && history == []
    {
      startTime, syscallStart, kernelTime, userTime, runKernelTime := map[], map[], map[], map[], map[];
      history := [];
    }

    method OnSchedSwitch(prev: nat, next: nat, ts: u64)
      requires Valid()
      modifies this
      ensures Valid() && history == old(history) + [Switch(prev, next, ts)]
    {
      hide Run, EndSlice, Put;
      RunStep(history, Switch(prev, next, ts));
      history := history + [Switch(prev, next, ts)];
      if prev in startTime {
        FinishSlice(prev, ts);
      }
      startTime := Put(startTime, next, ts, ENTRIES);
    }

    method FinishSlice(prev: nat, ts: u64)
      requires prev in startTime
      modifies this`startTime, this`kernelTime, this`userTime, this`runKernelTime
      ensures View() == EndSlice(old(View()), prev, ts)
    {
      hide AddTo;
      var delta := Sub64(ts, startTime[prev]);
      var ktime := 0;
      if prev in runKernelTime {
        ktime := runKernelTime[prev];
        runKernelTime := runKernelTime - {prev};
      } else {
        assert runKernelTime == runKernelTime - {prev};
      }
      if ktime < delta {
        var utime := delta - ktime;
        userTime := AddTo(userTime, prev, utime);
      }
      if ktime > 0 {
        kernelTime := AddTo(kernelTime, prev, ktime);
      }
      startTime := startTime - {prev};
    }

    method OnSysEnter(pid: nat, ts: u64)
      requires Valid()
      modifies this
      ensures Valid() && history == old(history) + [SysEnter(pid, ts)]
    {
      hide Run, Put, AddTo, EndSlice;
      RunStep(history, SysEnter(pid, ts));
      history := history + [SysEnter(pid, ts)];
      syscallStart := Put(syscallStart, pid, ts, ENTRIES);
    }

    method OnSysExit(pid: nat, ts: u64)
      requires Valid()
      modifies this
      ensures Valid() && history == old(history) + [SysExit(pid, ts)]
    {
      hide Run, Put, AddTo, EndSlice;
      RunStep(history, SysExit(pid, ts));
      history := history + [SysExit(pid, ts)];
      if pid in syscallStart {
        var delta := Sub64(ts, syscallStart[pid]);
        runKernelTime := AddTo(runKernelTime, pid, delta);
        syscallStart := syscallStart - {pid};
      }
    }
  }

  // ----- no insertion is refused while few pids are seen -----

  ghost function PidsOf(e: Event): set<nat> {
    if e.Switch? then {e.prev, e.next} else {e.pid}
  }

  ghost function Pids(es: seq<Event>): set<nat> {
    if es == [] then {} else Pids(es[..|es| - 1]) + PidsOf(es[|es| - 1])
  }

  ghost predicate FewPids(es: seq<Event>) {
    |Pids(es)| <= 10240
  }

  ghost predicate Within(s: Maps, pids: set<nat>) {
    s.start.Keys <= pids && s.syscall.Keys <= pids && s.kernel.Keys <= pids && s.user.Keys <= pids && s.run.Keys <= pids
  }

  /** A bounded map has room for the entry of a pid. */
  predicate HasRoom<V>(m: map<nat, V>, k: nat) {
    k in m || |m| < ENTRIES
  }

  lemma FewKeysRoom<V>(m: map<nat, V>, k: nat, pids: set<nat>)
    requires m.Keys <= pids && k in pids && |pids| <= ENTRIES
    ensures HasRoom(m, k)
  {
    if k !in m {
      var rest := pids - m.Keys - {k};
      assert pids == m.Keys + ({k} + rest);
      assert |m| == |m.Keys| < |pids|;
    }
  }

  lemma FewerKeys<V>(m: map<nat, V>, k: nat, v: V, pids: set<nat>)
    requires m.Keys <= pids && k in pids && |pids| <= ENTRIES
    ensures Put(m, k, v, ENTRIES) == m[k := v]
  {
    FewKeysRoom(m, k, pids);
  }

  lemma FewPidsInit(es: seq<Event>)
    requires es != [] && FewPids(es)
    ensures FewPids(es[..|es| - 1])
  {
    var a, b := Pids(es[..|es| - 1]), Pids(es);
    assert b == a + (b - a);
  }

  lemma AddedKeys(m: Times, k: nat, amount: nat, pids: set<nat>)
    requires m.Keys <= pids && k in pids
    ensures AddTo(m, k, amount).Keys <= pids
  {
  }

  lemma PutKeys<V>(m: map<nat, V>, k: nat, v: V, pids: set<nat>)
    requires m.Keys <= pids && k in pids
    ensures Put(m, k, v, ENTRIES).Keys <= pids
  {
  }

  lemma EndSliceWithin(s: Maps, prev: nat, ts: u64, pids: set<nat>)
    requires Within(s, pids) && prev in pids && prev in s.start
    ensures Within(EndSlice(s, prev, ts), pids)
  {
    hide AddTo, Sub64;
    var delta, ktime := Sub64(ts, s.start[prev]), Get(s.run, prev);
    AddedKeys(s.kernel, prev, ktime, pids);
    if ktime < delta {
      AddedKeys(s.user, prev, delta - ktime, pids);
    }
  }

  lemma StepWithin(s: Maps, e: Event, pids: set<nat>)
    requires Within(s, pids) && PidsOf(e) <= pids
    ensures Within(Step(s, e), pids)
  {
    hide AddTo, Put, EndSlice, Sub64;
    match e
    case Switch(prev, next, ts) =>
      assert prev in PidsOf(e) && next in PidsOf(e);
      if prev in s.start {
        EndSliceWithin(s, prev, ts, pids);
        PutKeys(EndSlice(s, prev, ts).start, next, ts, pids);
      } else {
        PutKeys(s.start, next, ts, pids);
      }
    case SysEnter(pid, ts) =>
      assert pid in PidsOf(e);
      PutKeys(s.syscall, pid, ts, pids);
    case SysExit(pid, ts) =>
      assert pid in PidsOf(e);
      if pid in s.syscall {
        AddedKeys(s.run, pid, Sub64(ts, s.syscall[pid]), pids);
      }
  }

  lemma {:induction false} RunWithin(es: seq<Event>)
    ensures Within(Run(es), Pids(es))
  {
    if es != [] {
      hide Step, PidsOf;
      RunWithin(es[..|es| - 1]);
      StepWithin(Run(es[..|es| - 1]), es[|es| - 1], Pids(es));
    }
  }

  // ----- kernel time is system-call time -----

  ghost predicate Monotone(es: seq<Event>) {
    forall i, j :: 0 <= i < j < |es| ==> es[i].ts <= es[j].ts
  }

  /** When the system call that `p` is in was entered. */
  ghost function OpenSince(es: seq<Event>, p: nat): Option<u64> {
    if es == [] then None
    else
      match es[|es| - 1]
      case SysEnter(pid, ts) => if pid == p then Some(ts) else OpenSince(es[..|es| - 1], p)
      case SysExit(pid, _) => if pid == p then None else OpenSince(es[..|es| - 1], p)
      case Switch(_, _, _) => OpenSince(es[..|es| - 1], p)
  }

  /** The time `p` has spent in completed system calls. */
  ghost function SyscallTime(es: seq<Event>, p: nat): nat {
    if es == [] then 0
    else
      var init, e := es[..|es| - 1], es[|es| - 1];
      SyscallTime(init, p)
      + if e.SysExit? && e.pid == p && OpenSince(init, p).Some? then Sub64(e.ts, OpenSince(init, p).value) else 0
  }

  /** AddTo adds, when there is room. */
  lemma AddToAdds(m: Times, k: nat, amount: nat, pids: set<nat>, p: nat)
    requires m.Keys <= pids && k in pids && |pids| <= ENTRIES
    ensures Get(AddTo(m, k, amount), p) == Get(m, p) + if p == k then amount else 0
  {
    FewerKeys(m, k, amount, pids);
  }

  lemma SwitchKeepsKernelTime(s: Maps, e: Event, pids: set<nat>, p: nat)
    requires e.Switch? && Within(s, pids) && e.prev in pids && |pids| <= ENTRIES
    ensures var s' := Step(s, e);
            Get(s'.kernel, p) + Get(s'.run, p) == Get(s.kernel, p) + Get(s.run, p) && s'.syscall == s.syscall
  {
    hide Put, AddTo;
    AddToAdds(s.kernel, e.prev, Get(s.run, e.prev), pids, p);
  }

  lemma ExitAddsKernelTime(s: Maps, e: Event, pids: set<nat>, p: nat)
    requires e.SysExit? && Within(s, pids) && e.pid in pids && |pids| <= ENTRIES
    ensures var s' := Step(s, e);
            && s'.start == s.start && s'.user == s.user && s'.kernel == s.kernel && s'.syscall == s.syscall - {e.pid}
            && Get(s'.run, p) == Get(s.run, p)
                 + if p == e.pid && p in s.syscall then Sub64(e.ts, s.syscall[p]) else 0
  {
    hide Put, AddTo;
    if e.pid in s.syscall {
      AddToAdds(s.run, e.pid, Sub64(e.ts, s.syscall[e.pid]), pids, p);
    }
  }

  lemma EnterKeepsTimes(s: Maps, e: Event)
    requires e.SysEnter?
    ensures Step(s, e) == s.(syscall := Step(s, e).syscall)
  {
  }

  lemma WithinMore(s: Maps, pids: set<nat>, more: set<nat>)
    requires Within(s, pids) && pids <= more
    ensures Within(s, more)
  {
  }

  lemma EventPids(es: seq<Event>)
    requires es != []
    ensures var e := es[|es| - 1];
            PidsOf(e) <= Pids(es) && Pids(es[..|es| - 1]) <= Pids(es)
            && (if e.Switch? then e.prev in Pids(es) && e.next in Pids(es) else e.pid in Pids(es))
  {
    var e := es[|es| - 1];
    if e.Switch? {
      assert e.prev in PidsOf(e) && e.next in PidsOf(e);
    } else {
      assert e.pid in PidsOf(e);
    }
  }

  /** Switches only move a pid's system-call time from the current run to its total. */
  lemma {:induction false} KernelTimeExact(es: seq<Event>, p: nat)
    requires FewPids(es)
    ensures var s := Run(es);
            && Get(s.kernel, p) + Get(s.run, p) == SyscallTime(es, p)
            && OpenSince(es, p) == if p in s.syscall then Some(s.syscall[p]) else None
  {
    if es != [] {
      hide Pids, PidsOf, Put, AddTo, EndSlice;
      var init, e := es[..|es| - 1], es[|es| - 1];
      FewPidsInit(es);
      EventPids(es);
      RunWithin(init);
      KernelTimeExact(init, p);
      var s, pids := Run(init), Pids(es);
      match e
      case Switch(prev, next, ts) => SwitchKeepsKernelTime(s, e, pids, p);
      case SysEnter(pid, ts) => FewerKeys(s.syscall, pid, ts, pids);
      case SysExit(pid, ts) => ExitAddsKernelTime(s, e, pids, p);
    }
  }

  /** What AddTo loses to a full map. */
  function Refused(m: Times, k: nat, amount: nat): nat {
    if HasRoom(m, k) then 0 else amount
  }

  lemma AddToLoses(m: Times, k: nat, amount: nat, p: nat)
    ensures p == k ==> Get(AddTo(m, k, amount), p) + Refused(m, k, amount) == Get(m, p) + amount
    ensures p != k ==> Get(AddTo(m, k, amount), p) == Get(m, p)
  {
  }

  /** The system-call time of `p` that refused insertions lose: of its start, of its time
      in the current run, or of its total. */
  ghost function LostKernelTime(es: seq<Event>, p: nat): nat {
    if es == [] then 0
    else
      var init, e := es[..|es| - 1], es[|es| - 1];
      var s, open := Run(init), OpenSince(init, p);
      LostKernelTime(init, p)
      + match e
        case Switch(prev, _, _) => if prev == p && p in s.start then Refused(s.kernel, p, Get(s.run, p)) else 0
        case SysEnter(_, _) => 0
        case SysExit(pid, ts) =>
          if pid != p || open.None? then 0
          else if p in s.syscall then Refused(s.run, p, Sub64(ts, open.value))
          else Sub64(ts, open.value)
  }

  lemma {:induction false} KernelTimeLoss(es: seq<Event>, p: nat)
    ensures var s := Run(es);
            && Get(s.kernel, p) + Get(s.run, p) + LostKernelTime(es, p) == SyscallTime(es, p)
            && (p in s.syscall ==> OpenSince(es, p) == Some(s.syscall[p]))
  {
    if es != [] {
      hide AddTo, Sub64, Refused;
      var init, e := es[..|es| - 1], es[|es| - 1];
      KernelTimeLoss(init, p);
      var s := Run(init);
      match e
      case Switch(prev, next, ts) =>
        AddToLoses(s.kernel, prev, Get(s.run, prev), p);
        assert Refused(s.kernel, prev, 0) == 0 by { RefusedNothing(s.kernel, prev); }
      case SysEnter(pid, ts) =>
      case SysExit(pid, ts) =>
        if pid in s.syscall {
          AddToLoses(s.run, pid, Sub64(ts, s.syscall[pid]), p);
        }
    }
  }

  lemma RefusedNothing(m: Times, k: nat)
    ensures Refused(m, k, 0) == 0
  {
  }

  /** For every trace a pid's kernel time, with that of its current run and what refused
      insertions lose, is the time of its completed system calls; and nothing is lost
      unless there are more pids than entries. */
  lemma KernelTimeIsSyscallTime(es: seq<Event>, p: nat)
    ensures Get(Run(es).kernel, p) + Get(Run(es).run, p) + LostKernelTime(es, p) == SyscallTime(es, p)
    ensures FewPids(es) ==> LostKernelTime(es, p) == 0
  {
    hide Run, SyscallTime, LostKernelTime;
    KernelTimeLoss(es, p);
    if FewPids(es) {
      KernelTimeExact(es, p);
    }
  }

  // ----- user time is slice time without kernel time -----

  /** When the slice that `p` is in began. */
  ghost function SliceOf(es: seq<Event>, p: nat): Option<u64> {
    if es == [] then None
    else
      match es[|es| - 1]
      case Switch(prev, next, ts) =>
        if next == p then Some(ts) else if prev == p then None else SliceOf(es[..|es| - 1], p)
      case _ => SliceOf(es[..|es| - 1], p)
  }

  /** The slice of `p` that ends with the last event. */
  ghost predicate EndsSlice(es: seq<Event>, p: nat) {
    es != [] && es[|es| - 1].Switch? && es[|es| - 1].prev == p && SliceOf(es[..|es| - 1], p).Some?
  }

  /** System-call time of `p` since its last ended slice. */
  ghost function UnclaimedTime(es: seq<Event>, p: nat): nat {
    if es == [] || EndsSlice(es, p) then 0
    else UnclaimedTime(es[..|es| - 1], p) + SyscallTime(es, p) - SyscallTime(es[..|es| - 1], p)
  }

  /** Over the ended slices of `p`: the length less the unclaimed time, or nothing. */
  ghost function SliceTime(es: seq<Event>, p: nat): nat {
    if es == [] then 0
    else
      var init, ts := es[..|es| - 1], es[|es| - 1].ts;
      SliceTime(init, p)
      + if EndsSlice(es, p) then Positive(Sub64(ts, SliceOf(init, p).value) - UnclaimedTime(init, p)) else 0
  }

  function Positive(x: int): nat {
    if x > 0 then x else 0
  }

  lemma SwitchUserTime(s: Maps, e: Event, pids: set<nat>, p: nat)
    requires e.Switch? && Within(s, pids) && e.prev in pids && e.next in pids && |pids| <= ENTRIES
    ensures var s' := Step(s, e);
            && (if p == e.next then p in s'.start && s'.start[p] == e.ts
                else if p == e.prev then p !in s'.start
                else (p in s'.start <==> p in s.start) && (p in s.start ==> s'.start[p] == s.start[p]))
            && Get(s'.kernel, p) + Get(s'.run, p) == Get(s.kernel, p) + Get(s.run, p)
            && (if p == e.prev && p in s.start then
                  && Get(s'.run, p) == 0
                  && Get(s'.user, p) == Get(s.user, p) + Positive(Sub64(e.ts, s.start[p]) - Get(s.run, p))
                else Get(s'.run, p) == Get(s.run, p) && Get(s'.user, p) == Get(s.user, p))
  {
    hide AddTo, Put, Sub64;
    SwitchKeepsKernelTime(s, e, pids, p);
    if e.prev in s.start {
      var ktime, delta := Get(s.run, e.prev), Sub64(e.ts, s.start[e.prev]);
      if ktime < delta {
        AddToAdds(s.user, e.prev, delta - ktime, pids, p);
      }
      FewerKeys(s.start - {e.prev}, e.next, e.ts, pids);
    } else {
      FewerKeys(s.start, e.next, e.ts, pids);
    }
  }

  lemma {:induction false} UserTimeExact(es: seq<Event>, p: nat)
    requires FewPids(es)
    ensures var s := Run(es);
            && Get(s.user, p) == SliceTime(es, p)
            && Get(s.run, p) == UnclaimedTime(es, p)
            && SliceOf(es, p) == if p in s.start then Some(s.start[p]) else None
  {
    if es != [] {
      hide Pids, PidsOf, Step, Within, Sub64, SyscallTime, OpenSince, FewPids;
      var init, e := es[..|es| - 1], es[|es| - 1];
      FewPidsInit(es);
      EventPids(es);
      RunWithin(init);
      WithinMore(Run(init), Pids(init), Pids(es));
      KernelTimeExact(init, p);
      KernelTimeExact(es, p);
      UserTimeExact(init, p);
      var s, pids := Run(init), Pids(es);
      match e
      case Switch(prev, next, ts) => SwitchUserTime(s, e, pids, p);
      case SysEnter(pid, ts) => EnterKeepsTimes(s, e);
      case SysExit(pid, ts) => ExitAddsKernelTime(s, e, pids, p);
    }
  }

  /** Over the ended slices of `p`: their length. */
  ghost function SliceLength(es: seq<Event>, p: nat): nat {
    if es == [] then 0
    else
      var init := es[..|es| - 1];
      SliceLength(init, p) + if EndsSlice(es, p) then Sub64(es[|es| - 1].ts, SliceOf(init, p).value) else 0
  }

  /** What of the slices of `p` its kernel time has taken. */
  ghost function ClaimedTime(es: seq<Event>, p: nat): nat {
    if es == [] then 0
    else
      var init, e := es[..|es| - 1], es[|es| - 1];
      var s := Run(init);
      ClaimedTime(init, p)
      + if e.Switch? && e.prev == p && p in s.start then Least(Get(s.run, p), Sub64(e.ts, s.start[p])) else 0
  }

  function Least(a: nat, b: nat): nat {
    if a < b then a else b
  }

  /** The time of ended slices that refused insertions lose: of a slice's start, or of the
      user time in it. */
  ghost function LostUserTime(es: seq<Event>, p: nat): nat {
    if es == [] then 0
    else
      var init, e := es[..|es| - 1], es[|es| - 1];
      var s := Run(init);
      LostUserTime(init, p)
      + if !EndsSlice(es, p) then 0
        else if p in s.start then Refused(s.user, p, Positive(Sub64(e.ts, s.start[p]) - Get(s.run, p)))
        else Sub64(e.ts, SliceOf(init, p).value)
  }

  /** A slice is split into kernel time, user time and what is refused of that. */
  lemma EndSliceSplits(s: Maps, prev: nat, ts: u64, p: nat)
    requires prev in s.start
    ensures var s' := EndSlice(s, prev, ts);
            && s'.start == s.start - {prev}
            && if p == prev then
                 var delta, ktime := Sub64(ts, s.start[p]), Get(s.run, p);
                 Get(s'.user, p) + Least(ktime, delta) + Refused(s.user, p, Positive(delta - ktime))
                 == Get(s.user, p) + delta
               else Get(s'.user, p) == Get(s.user, p)
  {
    hide AddTo, Sub64, Refused, Get;
    var delta, ktime := Sub64(ts, s.start[prev]), Get(s.run, prev);
    RefusedNothing(s.user, prev);
    if ktime < delta {
      AddToLoses(s.user, prev, delta - ktime, p);
    }
  }

  lemma SwitchSplits(s: Maps, e: Event, p: nat)
    requires e.Switch?
    ensures var s' := Step(s, e);
            && (p in s'.start ==> if p == e.next then s'.start[p] == e.ts
                                  else p != e.prev && p in s.start && s'.start[p] == s.start[p])
            && if p == e.prev && p in s.start then
                 var delta, ktime := Sub64(e.ts, s.start[p]), Get(s.run, p);
                 Get(s'.user, p) + Least(ktime, delta) + Refused(s.user, p, Positive(delta - ktime))
                 == Get(s.user, p) + delta
               else Get(s'.user, p) == Get(s.user, p)
  {
    hide EndSlice, Sub64, Refused, Get, Positive, Least;
    if e.prev in s.start {
      EndSliceSplits(s, e.prev, e.ts, p);
    }
  }

  lemma {:induction false} UserTimeLoss(es: seq<Event>, p: nat)
    ensures var s := Run(es);
            && Get(s.user, p) + ClaimedTime(es, p) + LostUserTime(es, p) == SliceLength(es, p)
            && (p in s.start ==> SliceOf(es, p) == Some(s.start[p]))
  {
    if es != [] {
      hide Sub64, Refused, Positive, Least;
      var init, e := es[..|es| - 1], es[|es| - 1];
      UserTimeLoss(init, p);
      var s := Run(init);
      if e.Switch? {
        hide Step, Get;
        SwitchSplits(s, e, p);
      }
    }
  }

  /** For every trace a pid's user time, with what its kernel time takes of its slices and
      what refused insertions lose, is the length of its ended slices.  Unless there are
      more pids than entries nothing is lost: it is the sum of what is left of each. */
  lemma UserTimeIsSliceTime(es: seq<Event>, p: nat)
    ensures Get(Run(es).user, p) + ClaimedTime(es, p) + LostUserTime(es, p) == SliceLength(es, p)
    ensures FewPids(es) ==> Get(Run(es).user, p) == SliceTime(es, p) && LostUserTime(es, p) == 0
  {
    hide Run, SliceTime, SliceLength, ClaimedTime, LostUserTime;
    UserTimeLoss(es, p);
    if FewPids(es) {
      UserTimeExact(es, p);
      NoUserTimeLost(es, p);
    }
  }

  lemma {:induction false} NoUserTimeLost(es: seq<Event>, p: nat)
    requires FewPids(es)
    ensures LostUserTime(es, p) == 0
  {
    if es != [] {
      hide FewPids, Pids, Sub64, Positive, Step;
      var init := es[..|es| - 1];
      FewPidsRoom(es);
      NoUserTimeLost(init, p);
      UserTimeExact(init, p);
    }
  }

  // ----- one CPU: every nanosecond is accounted for once -----

  /** The process that runs after `es`. */
  ghost function Current(es: seq<Event>): nat
    requires es != [] && es[0].Switch?
  {
    var e := es[|es| - 1];
    if e.Switch? then e.next else Current(es[..|es| - 1])
  }

  /** When the current slice began. */
  ghost function SliceStart(es: seq<Event>): u64
    requires es != [] && es[0].Switch?
  {
    var e := es[|es| - 1];
    if e.Switch? then e.ts else SliceStart(es[..|es| - 1])
  }

  /** A trace of one CPU from its first switch on: only the running process enters and
      exits system calls and is switched out, and it is not switched out inside a call. */
  ghost predicate OneCpu(es: seq<Event>) {
    && es != [] && es[0].Switch?
    && (|es| > 1 ==>
          var init, e := es[..|es| - 1], es[|es| - 1];
          && OneCpu(init) && es[|es| - 2].ts <= e.ts
          && match e
             case Switch(prev, _, _) => prev == Current(init) && OpenSince(init, prev).None?
             case SysEnter(pid, _) => pid == Current(init)
             case SysExit(pid, _) => pid == Current(init))
  }

  ghost function SumAll(m: Times): nat
    decreases |m|
  {
    if m == map[] then 0
    else
      var k :| k in m;
      m[k] + SumAll(m - {k})
  }

  lemma {:induction false} SumWithout(m: Times, k: nat)
    requires k in m
    ensures SumAll(m) == m[k] + SumAll(m - {k})
    decreases |m|
  {
    var j :| j in m && SumAll(m) == m[j] + SumAll(m - {j});
    if j != k {
      SumWithout(m - {j}, k);
      SumWithout(m - {k}, j);
      assert m - {j} - {k} == m - {k} - {j};
    }
  }

  lemma SumPut(m: Times, k: nat, v: nat)
    ensures SumAll(m[k := v]) == SumAll(m - {k}) + v
  {
    hide SumAll;
    SumWithout(m[k := v], k);
    assert m[k := v] - {k} == m - {k};
  }

  lemma SumGet(m: Times, k: nat)
    ensures SumAll(m) == SumAll(m - {k}) + Get(m, k)
  {
    hide SumAll;
    if k in m {
      SumWithout(m, k);
    } else {
      assert m - {k} == m;
    }
  }

  lemma SumAdd(m: Times, k: nat, amount: nat)
    ensures SumAll(AddTo(m, k, amount)) + Refused(m, k, amount) == SumAll(m) + amount
  {
    hide SumAll;
    SumPut(m, k, Get(m, k) + amount);
    SumGet(m, k);
  }

  /** What an event loses to full maps of user and kernel time. */
  ghost function RefusedBy(s: Maps, e: Event): nat {
    if e.Switch? && e.prev in s.start then
      var ktime, delta := Get(s.run, e.prev), Sub64(e.ts, s.start[e.prev]);
      Refused(s.kernel, e.prev, ktime) + Refused(s.user, e.prev, Positive(delta - ktime))
    else 0
  }

  ghost function RefusedTime(es: seq<Event>): nat {
    if es == [] then 0 else RefusedTime(es[..|es| - 1]) + RefusedBy(Run(es[..|es| - 1]), es[|es| - 1])
  }

  lemma {:induction false} NoTimeRefused(es: seq<Event>)
    requires FewPids(es)
    ensures RefusedTime(es) == 0
  {
    if es != [] {
      hide FewPids, Run, Sub64, Positive;
      FewPidsRoom(es);
      NoTimeRefused(es[..|es| - 1]);
    }
  }

  /** What holds inside a slice: only the running process has a start time, and perhaps
      kernel time and an open call, which fit in the slice; earlier time is summed up. */
  ghost predicate InSlice(es: seq<Event>, s: Maps)
    requires es != [] && es[0].Switch?
  {
    var cur, begin, now := Current(es), SliceStart(es), es[|es| - 1].ts;
    && s.start == map[cur := begin]
    && s.run.Keys <= {cur} && s.syscall.Keys <= {cur}
    && begin + Get(s.run, cur) <= (if cur in s.syscall then s.syscall[cur] else now)
    && (cur in s.syscall ==> s.syscall[cur] <= now)
    && SumAll(s.user) + SumAll(s.kernel) + RefusedTime(es) == begin - es[0].ts
  }

  lemma FirstSlice(e: Event)
    requires e.Switch?
    ensures InSlice([e], Step(EMPTY, e))
  {
  }

  lemma CurrentSnoc(es: seq<Event>, e: Event)
    requires es != [] && es[0].Switch? && e.Switch?
    ensures (es + [e])[0] == es[0] && Current(es + [e]) == e.next && SliceStart(es + [e]) == e.ts
  {
  }

  lemma SwitchSlice(es: seq<Event>, s: Maps, e: Event)
    requires es != [] && es[0].Switch? && InSlice(es, s) && e.Switch? && es[|es| - 1].ts <= e.ts
    requires e.prev == Current(es) && e.prev !in s.syscall
    requires RefusedTime(es + [e]) == RefusedTime(es) + RefusedBy(s, e)
    ensures InSlice(es + [e], Step(s, e))
  {
    hide SumAll, AddTo, EndSlice, RefusedTime, Refused, Positive, Sub64, Run, Put;
    var cur := e.prev;
    CurrentSnoc(es, e);
    SliceSums(s, cur, e.ts);
    assert s.start - {cur} == map[] && s.run - {cur} == map[] && s.syscall == map[];
    PutFirst(e.next, e.ts);
  }

  lemma PutFirst(k: nat, ts: u64)
    ensures Put(map[], k, ts, ENTRIES) == map[k := ts]
  {
  }

  /** A slice's kernel and user time, with what is refused of them, are its length. */
  lemma SliceSums(s: Maps, prev: nat, ts: u64)
    requires prev in s.start && s.start[prev] + Get(s.run, prev) <= ts
    ensures var s' := EndSlice(s, prev, ts);
            && SumAll(s'.user) + SumAll(s'.kernel)
               + Refused(s.kernel, prev, Get(s.run, prev))
               + Refused(s.user, prev, Positive(Sub64(ts, s.start[prev]) - Get(s.run, prev)))
               == SumAll(s.user) + SumAll(s.kernel) + ts - s.start[prev]
            && s'.start == s.start - {prev} && s'.run == s.run - {prev} && s'.syscall == s.syscall
  {
    hide SumAll, AddTo, Refused;
    var ktime, delta := Get(s.run, prev), ts - s.start[prev];
    SumAdd(s.kernel, prev, ktime);
    SumAdd(s.user, prev, delta - ktime);
    RefusedNothing(s.kernel, prev);
    RefusedNothing(s.user, prev);
  }

  lemma EnterSlice(es: seq<Event>, s: Maps, e: Event)
    requires es != [] && es[0].Switch? && InSlice(es, s) && e.SysEnter? && es[|es| - 1].ts <= e.ts
    requires e.pid == Current(es) && RefusedTime(es + [e]) == RefusedTime(es)
    ensures InSlice(es + [e], Step(s, e))
  {
    hide SumAll, Put, RefusedTime;
    assert (es + [e])[..|es|] == es && (es + [e])[0] == es[0];
    FewerKeys(s.syscall, e.pid, e.ts, {e.pid});
  }

  lemma ExitSlice(es: seq<Event>, s: Maps, e: Event)
    requires es != [] && es[0].Switch? && InSlice(es, s) && e.SysExit? && es[|es| - 1].ts <= e.ts
    requires e.pid == Current(es) && RefusedTime(es + [e]) == RefusedTime(es)
    ensures InSlice(es + [e], Step(s, e))
  {
    hide SumAll, Put, RefusedTime;
    assert (es + [e])[..|es|] == es && (es + [e])[0] == es[0];
    if e.pid in s.syscall {
      FewerKeys(s.run, e.pid, Sub64(e.ts, s.syscall[e.pid]), {e.pid});
    }
  }

  lemma {:induction false} OneCpuSlice(es: seq<Event>)
    requires OneCpu(es)
    ensures InSlice(es, Run(es))
  {
    hide Step, InSlice, SumAll, Sub64, Positive, Refused;
    var init, e := es[..|es| - 1], es[|es| - 1];
    if |es| == 1 {
      assert es == [e] && Run(init) == EMPTY;
      FirstSlice(e);
    } else {
      OneCpuSlice(init);
      assert es == init + [e] && init[|init| - 1] == es[|es| - 2];
      if e.Switch? {
        KernelTimeLoss(init, e.prev);
        SwitchSlice(init, Run(init), e);
      } else if e.SysEnter? {
        EnterSlice(init, Run(init), e);
      } else {
        ExitSlice(init, Run(init), e);
      }
    }
  }

  lemma FewPidsRoom(es: seq<Event>)
    requires es != [] && FewPids(es)
    ensures var init, e := es[..|es| - 1], es[|es| - 1];
            && FewPids(init)
            && (e.Switch? ==> HasRoom(Run(init).user, e.prev) && HasRoom(Run(init).kernel, e.prev))
  {
    hide Step, Pids, PidsOf, Run, HasRoom;
    var init, e := es[..|es| - 1], es[|es| - 1];
    FewPidsInit(es);
    EventPids(es);
    RunWithin(init);
    if e.Switch? {
      FewKeysRoom(Run(init).user, e.prev, Pids(es));
      FewKeysRoom(Run(init).kernel, e.prev, Pids(es));
    }
  }

  /** At every switch of one CPU, user and kernel time over all processes, with what full
      maps refuse, add up to the time since the first switch; and nothing is refused
      unless there are more pids than entries. */
  lemma TimeIsConserved(es: seq<Event>)
    requires OneCpu(es) && es[|es| - 1].Switch?
    ensures SumAll(Run(es).user) + SumAll(Run(es).kernel) + RefusedTime(es) == es[|es| - 1].ts - es[0].ts
    ensures FewPids(es) ==> RefusedTime(es) == 0
  {
    hide SumAll, RefusedTime, Run, FewPids;
    OneCpuSlice(es);
    if FewPids(es) {
      NoTimeRefused(es);
    }
  }
}
