/** The I/O accounting of the disk monitor: start times consumed by exits, and per-key and
    per-pid statistics that must agree. */
module DiskMonitor {
  import opened CounterMaps

  const OP_READ := 0
  const OP_WRITE := 1
  const ENTRIES := 10240

  datatype IoKey = IoKey(pid: nat, operation: int)

  datatype IoStats = IoStats(
    bytes_read: nat, bytes_written: nat, ops_read: nat, ops_write: nat,
    total_latency_ns: nat, max_latency_ns: nat, min_latency_ns: nat, last_update_ns: nat)

  /** A completed operation. */
  datatype Op = Op(pid: nat, operation: int, bytes: nat, latency: nat, now: nat)

  function KeyOf(op: Op): IoKey { IoKey(op.pid, op.operation) }
  function PidOf(op: Op): nat { op.pid }

  function FirstStats(op: Op): IoStats {
    if op.operation == OP_READ then IoStats(op.bytes, 0, 1, 0, op.latency, op.latency, op.latency, op.now)
    else IoStats(0, op.bytes, 0, 1, op.latency, op.latency, op.latency, op.now)
  }

  function MoreStats(s: IoStats, op: Op): IoStats {
    IoStats(
      if op.operation == OP_READ then s.bytes_read + op.bytes else s.bytes_read,
      if op.operation == OP_READ then s.bytes_written else s.bytes_written + op.bytes,
      if op.operation == OP_READ then s.ops_read + 1 else s.ops_read,
      if op.operation == OP_READ then s.ops_write else s.ops_write + 1,
      s.total_latency_ns + op.latency,
      if op.latency > s.max_latency_ns then op.latency else s.max_latency_ns,
      // 0 doubles as "not set yet"
      if s.min_latency_ns == 0 || op.latency < s.min_latency_ns then op.latency else s.min_latency_ns,
      op.now)
  }

  ghost function ByKey(ops: seq<Op>): map<IoKey, IoStats> {
    TrackAll(ops, KeyOf, FirstStats, MoreStats, ENTRIES)
  }

  ghost function ByPid(ops: seq<Op>): map<nat, IoStats> {
    TrackAll(ops, PidOf, FirstStats, MoreStats, ENTRIES)
  }

  // ----- traces of system calls -----

  /** `stamp` is the second reading of the clock, when the statistics are updated. */
  datatype Event = Enter(pid: nat, now: nat) | Exit(pid: nat, operation: int, ret: int, now: nat, stamp: nat)

  ghost predicate Monotone(es: seq<Event>) {
    forall i, j :: 0 <= i < j < |es| ==> es[i].now <= es[j].now
  }

  /** The index of the enter event that each pid's recorded start comes from. */
  ghost function Starts(es: seq<Event>): map<nat, nat> {
    if es == [] then map[]
    else
      var m, e := Starts(es[..|es| - 1]), es[|es| - 1];
      if e.pid == 0 then m
      else if e.Enter? then Put(m, e.pid, |es| - 1, ENTRIES)
      else m - {e.pid}
  }

  /** The completed operations, each by the indices of its enter and exit events. */
  ghost function Completed(es: seq<Event>): seq<(nat, nat)> {
    if es == [] then []
    else
      var init, e := es[..|es| - 1], es[|es| - 1];
      Completed(init) + if e.Exit? && e.pid in Starts(init) then [(Starts(init)[e.pid], |es| - 1)] else []
  }

  /** Between its two events the pid neither enters nor exits. */
  ghost predicate Matched(es: seq<Event>, enter: nat, exit: nat) {
    && enter < exit < |es| && es[enter].Enter? && es[exit].Exit?
    && es[enter].pid == es[exit].pid != 0
    && forall i :: enter < i < exit ==> es[i].pid != es[enter].pid
  }

  /** A recorded start is the pid's latest event. */
  lemma {:induction false} StartIsLatest(es: seq<Event>, p: nat)
    requires p in Starts(es)
    ensures var i := Starts(es)[p];
            && p != 0 && i < |es| && es[i] == Enter(p, es[i].now)
            && forall k :: i < k < |es| ==> es[k].pid != p
  {
    NoStartForZero(es);
    var init, e := es[..|es| - 1], es[|es| - 1];
    if e.pid != p {
      StartIsLatest(init, p);
      var i := Starts(init)[p];
      assert Starts(es)[p] == i && es[i] == init[i];
      forall k | i < k < |es| ensures es[k].pid != p {
        assert k < |init| ==> es[k] == init[k];
      }
    }
  }

  /** An enter event is recorded as the pid's start, unless there is no room for it. */
  lemma {:induction false} StartRecorded(es: seq<Event>, i: nat)
    requires i < |es| && es[i].Enter? && es[i].pid != 0
    requires forall k :: i < k < |es| ==> es[k].pid != es[i].pid
    requires |Starts(es[..i])| < ENTRIES
    ensures es[i].pid in Starts(es) && Starts(es)[es[i].pid] == i
    decreases |es|
  {
    var init := es[..|es| - 1];
    if i < |es| - 1 {
      assert init[..i] == es[..i];
      StartRecorded(init, i);
    } else {
      assert es[..i] == init;
    }
  }

  /** Every completed operation is an exit with the enter right before it (of the same
      pid), so no start is consumed twice. */
  lemma {:induction false} CompletedMatched(es: seq<Event>)
    ensures forall k :: 0 <= k < |Completed(es)| ==> Matched(es, Completed(es)[k].0, Completed(es)[k].1)
    ensures forall k, l :: 0 <= k < l < |Completed(es)| ==>
              Completed(es)[k].0 != Completed(es)[l].0 && Completed(es)[k].1 < Completed(es)[l].1
  {
    if es != [] {
      var init, e := es[..|es| - 1], es[|es| - 1];
      CompletedMatched(init);
      var before, after := Completed(init), Completed(es);
      forall k | 0 <= k < |before| ensures Matched(es, before[k].0, before[k].1) {
        assert Matched(init, before[k].0, before[k].1);
      }
      if e.Exit? && e.pid in Starts(init) {
        StartIsLatest(init, e.pid);
        var last := (Starts(init)[e.pid], |es| - 1);
        assert after == before + [last] && Matched(es, last.0, last.1);
        forall k | 0 <= k < |before| ensures before[k].0 != last.0 && before[k].1 < last.1 {
          assert Matched(init, before[k].0, before[k].1);
        }
      }
    }
  }

  /** ... and an exit right after an enter of its pid completes an operation. */
  lemma ExitCompletes(es: seq<Event>, enter: nat, exit: nat)
    requires Matched(es, enter, exit) && |Starts(es[..enter])| < 10240
    ensures (enter, exit) in Completed(es)
  {
    hide Starts, Completed;
    var upto, e := es[..exit], es[exit];
    assert upto[..enter] == es[..enter];
    StartRecorded(upto, enter);
    CompletedStep(upto, e);
    assert es[..exit + 1] == upto + [e];
    CompletedGrows(es, exit + 1);
    var last := Completed(upto + [e])[|Completed(upto)|];
    assert last == (enter, exit);
    assert Completed(es)[|Completed(upto)|] == last;
  }

  lemma {:induction false} CompletedGrows(es: seq<Event>, n: nat)
    requires n <= |es|
    ensures Completed(es[..n]) <= Completed(es)
    decreases |es|
  {
    if n < |es| {
      assert es[..|es| - 1][..n] == es[..n];
      CompletedGrows(es[..|es| - 1], n);
    } else {
      assert es[..n] == es;
    }
  }

  /** The operations as they are accounted for. */
  ghost function Ops(es: seq<Event>): seq<Op>
    requires Monotone(es)
  {
    OpsOf(es, Completed(es))
  }

  ghost function OpsOf(es: seq<Event>, pairs: seq<(nat, nat)>): seq<Op>
    requires Monotone(es)
  {
    seq(|pairs|, k requires 0 <= k < |pairs| => OpOf(es, pairs[k]))
  }

  ghost function OpOf(es: seq<Event>, pair: (nat, nat)): Op
    requires Monotone(es)
  {
    if pair.0 < pair.1 < |es| && es[pair.1].Exit? then
      var e := es[pair.1];
      Op(e.pid, e.operation, if e.ret > 0 then e.ret else 0, e.now - es[pair.0].now, e.stamp)
    else Op(0, 0, 0, 0, 0)
  }

  lemma OpsStep(es: seq<Event>, e: Event)
    requires Monotone(es + [e]) && Monotone(es)
    ensures Ops(es + [e])
         == Ops(es) + if e.Exit? && e.pid in Starts(es) then [OpOf(es + [e], (Starts(es)[e.pid], |es|))] else []
  {
    hide Starts, Completed, OpOf, OpsOf, Monotone, Matched;
    var es' := es + [e];
    CompletedStep(es, e);
    CompletedMatched(es);
    OpsKeep(es, es', Completed(es));
    if e.Exit? && e.pid in Starts(es) {
      OpsSnoc(es', Completed(es), (Starts(es)[e.pid], |es|));
    } else {
      assert Completed(es) + [] == Completed(es);
      assert Ops(es) + [] == Ops(es);
    }
  }

  lemma OpsSnoc(es: seq<Event>, pairs: seq<(nat, nat)>, pair: (nat, nat))
    requires Monotone(es)
    ensures OpsOf(es, pairs + [pair]) == OpsOf(es, pairs) + [OpOf(es, pair)]
  {
  }

  lemma CompletedStep(es: seq<Event>, e: Event)
    ensures Completed(es + [e])
         == Completed(es) + if e.Exit? && e.pid in Starts(es) then [(Starts(es)[e.pid], |es|)] else []
  {
    assert (es + [e])[..|es|] == es;
  }

  lemma OpsKeep(es: seq<Event>, es': seq<Event>, pairs: seq<(nat, nat)>)
    requires es <= es' && Monotone(es) && Monotone(es')
    requires forall k :: 0 <= k < |pairs| ==> Matched(es, pairs[k].0, pairs[k].1)
    ensures OpsOf(es', pairs) == OpsOf(es, pairs)
  {
    forall k | 0 <= k < |pairs| ensures OpOf(es', pairs[k]) == OpOf(es, pairs[k]) {
      assert Matched(es, pairs[k].0, pairs[k].1);
    }
  }

  /** An operation is that of its exit, with the bytes it returned, if any, and the time
      since its enter. */
  lemma OperationExact(es: seq<Event>, k: nat)
    requires Monotone(es) && k < |Completed(es)|
    ensures |Ops(es)| == |Completed(es)|
    ensures var (i, j) := Completed(es)[k];
            var op := Ops(es)[k];
            && i < j < |es| && es[i].Enter? && es[j].Exit?
            && op.pid == es[i].pid == es[j].pid && op.operation == es[j].operation
            && (es[j].ret >= 0 ==> op.bytes == es[j].ret) && (es[j].ret < 0 ==> op.bytes == 0)
            && es[i].now + op.latency == es[j].now && op.now == es[j].stamp
  {
    hide Completed, Monotone;
    CompletedMatched(es);
    assert Matched(es, Completed(es)[k].0, Completed(es)[k].1);
    Ordered(es, Completed(es)[k].0, Completed(es)[k].1);
  }

  lemma Ordered(es: seq<Event>, i: nat, j: nat)
    requires Monotone(es) && i < j < |es|
    ensures es[i].now <= es[j].now
  {
  }

  /** The recorded times are those of the recorded starts. */
  ghost predicate TimesMatch(times: map<nat, nat>, es: seq<Event>) {
    && times.Keys == Starts(es).Keys
    && forall p :: p in times ==> Starts(es)[p] < |es| && times[p] == es[Starts(es)[p]].now
  }

  lemma TimesEnter(times: map<nat, nat>, es: seq<Event>, pid: nat, now: nat)
    requires TimesMatch(times, es)
    ensures TimesMatch(if pid == 0 then times else Put(times, pid, now, ENTRIES), es + [Enter(pid, now)])
  {
    assert (es + [Enter(pid, now)])[..|es|] == es;
    assert |times| == |times.Keys| && |Starts(es)| == |Starts(es).Keys|;
  }

  lemma SamePids(times: map<nat, nat>, es: seq<Event>)
    requires TimesMatch(times, es)
    ensures times.Keys == Starts(es).Keys && 0 !in times
  {
    NoStartForZero(es);
  }

  /** The operation completed by an exit, from the recorded start time. */
  lemma ExitOp(times: map<nat, nat>, es: seq<Event>, e: Event)
    requires TimesMatch(times, es) && e.Exit? && e.pid in times && Monotone(es + [e])
    ensures times[e.pid] <= e.now
    ensures OpOf(es + [e], (Starts(es)[e.pid], |es|))
         == Op(e.pid, e.operation, if e.ret > 0 then e.ret else 0, e.now - times[e.pid], e.stamp)
  {
  }

  lemma MonotoneSnoc(es: seq<Event>, e: Event)
    requires Monotone(es) && forall i :: 0 <= i < |es| ==> es[i].now <= e.now
    ensures Monotone(es + [e])
  {
  }

  lemma TimesExit(times: map<nat, nat>, es: seq<Event>, e: Event)
    requires TimesMatch(times, es) && e.Exit?
    ensures TimesMatch(times - {e.pid}, es + [e])
  {
    assert (es + [e])[..|es|] == es;
    NoStartForZero(es);
  }

  /** An exit completes an operation exactly when its pid has a recorded start. */
  lemma ExitStep(times: map<nat, nat>, es: seq<Event>, e: Event)
    requires Monotone(es) && TimesMatch(times, es) && e.Exit? && forall i :: 0 <= i < |es| ==> es[i].now <= e.now
    ensures Monotone(es + [e]) && 0 !in times
    ensures e.pid !in times ==> TimesMatch(times, es + [e]) && Ops(es + [e]) == Ops(es)
    ensures e.pid in times ==>
              && times[e.pid] <= e.now && TimesMatch(times - {e.pid}, es + [e])
              && var bytes, latency := if e.ret > 0 then e.ret else 0, e.now - times[e.pid];
              Ops(es + [e]) == Ops(es) + [Op(e.pid, e.operation, bytes, latency, e.stamp)]
  {
    hide Starts, Completed, Ops, TimesMatch, Monotone, OpOf;
    MonotoneSnoc(es, e);
    OpsStep(es, e);
    TimesExit(times, es, e);
    SamePids(times, es);
    if e.pid in times {
      ExitOp(times, es, e);
    } else {
      assert times - {e.pid} == times && Ops(es) + [] == Ops(es);
    }
  }

  class Monitor {
    var ioStatsMap: map<IoKey, IoStats>
    var ioStartTime: map<nat, nat>
    var pidStats: map<nat, IoStats>

    ghost var history: seq<Event>

    ghost predicate Valid()
      reads this
    {
      && Monotone(history)
      && TimesMatch(ioStartTime, history)
      && ioStatsMap == ByKey(Ops(history)) && pidStats == ByPid(Ops(history))
    }

    constructor ()
      ensures Valid() && history == []
    {
      ioStatsMap, ioStartTime, pidStats, history := map[], map[], map[], [];
    }

    /** The clock has not run backwards. */
    ghost predicate NotBefore(now: nat)
      reads this
    {
      forall i :: 0 <= i < |history| ==> history[i].now <= now
    }

    method HandleSysEnter(pid: nat, now: nat)
      requires Valid() && NotBefore(now)
      modifies this
      ensures Valid() && history == old(history) + [Enter(pid, now)]
    {
      hide Starts, Completed, Ops, TimesMatch;
      ghost var e := Enter(pid, now);
      OpsStep(history, e);
      TimesEnter(ioStartTime, history, pid, now);
      assert Ops(history) + [] == Ops(history);
      history := history + [e];
      if pid == 0 {
        return;
      }
      ioStartTime := Put(ioStartTime, pid, now, ENTRIES);
    }

    method HandleSysExit(pid: nat, operation: int, ret: int, now: nat, stamp: nat)
      requires Valid() && NotBefore(now)
      modifies this
      ensures Valid() && history == old(history) + [Exit(pid, operation, ret, now, stamp)]
    {
      hide Starts, Ops, TimesMatch, Monotone, ByKey, ByPid;
      ghost var e := Exit(pid, operation, ret, now, stamp);
      ExitStep(ioStartTime, history, e);
      ghost var ops := Ops(history);
      history := history + [e];
      if pid == 0 {
        return;
      }
      if pid !in ioStartTime {
        return;
      }
      var start := ioStartTime[pid];
      var latency := now - start;
      var bytes := if ret > 0 then ret else 0;
      UpdateIoStats(pid, operation, bytes, latency, stamp, ops);
      ioStartTime := ioStartTime - {pid};
    }

    method UpdateIoStats(pid: nat, operation: int, bytes: nat, latency: nat, now: nat, ghost ops: seq<Op>)
      requires ioStatsMap == ByKey(ops) && pidStats == ByPid(ops)
      modifies this`ioStatsMap, this`pidStats
      ensures var ops' := ops + [Op(pid, operation, bytes, latency, now)];
              ioStatsMap == ByKey(ops') && pidStats == ByPid(ops')
    {
      ghost var op := Op(pid, operation, bytes, latency, now);
      assert (ops + [op])[..|ops|] == ops;
      UpdateKey(pid, operation, bytes, latency, now, op);
      UpdatePid(pid, operation, bytes, latency, now, op);
    }

    method UpdateKey(pid: nat, operation: int, bytes: nat, latency: nat, now: nat, ghost op: Op)
      requires op == Op(pid, operation, bytes, latency, now)
      modifies this`ioStatsMap
      ensures ioStatsMap == Track(old(ioStatsMap), KeyOf(op), op, FirstStats, MoreStats, ENTRIES)
    {
      var key := IoKey(pid, operation);
      if key in ioStatsMap {
        var stats := Updated(ioStatsMap[key], operation, bytes, latency, now, op);
        ioStatsMap := Put(ioStatsMap, key, stats, ENTRIES);
      } else {
        var newStats := Started(operation, bytes, latency, now, op);
        ioStatsMap := Put(ioStatsMap, key, newStats, ENTRIES);
      }
    }

    method UpdatePid(pid: nat, operation: int, bytes: nat, latency: nat, now: nat, ghost op: Op)
      requires op == Op(pid, operation, bytes, latency, now)
      modifies this`pidStats
      ensures pidStats == Track(old(pidStats), pid, op, FirstStats, MoreStats, ENTRIES)
    {
      if pid !in pidStats {
        var newPidStat := Started(operation, bytes, latency, now, op);
        pidStats := Put(pidStats, pid, newPidStat, ENTRIES);
      } else {
        var pidStat := Updated(pidStats[pid], operation, bytes, latency, now, op);
        pidStats := Put(pidStats, pid, pidStat, ENTRIES);
      }
    }
  }

  lemma {:induction false} NoStartForZero(es: seq<Event>)
    ensures 0 !in Starts(es)
  {
    if es != [] {
      NoStartForZero(es[..|es| - 1]);
    }
  }

  method Started(operation: int, bytes: nat, latency: nat, now: nat, ghost op: Op) returns (stats: IoStats)
    requires op.operation == operation && op.bytes == bytes && op.latency == latency && op.now == now
    ensures stats == FirstStats(op)
  {
    stats := IoStats(0, 0, 0, 0, 0, 0, 0, now);
    if operation == OP_READ {
      stats := stats.(bytes_read := bytes, ops_read := 1);
    } else {
      stats := stats.(bytes_written := bytes, ops_write := 1);
    }
    stats := stats.(total_latency_ns := latency, max_latency_ns := latency, min_latency_ns := latency);
  }

  method Updated(before: IoStats, operation: int, bytes: nat, latency: nat, now: nat, ghost op: Op)
    returns (stats: IoStats)
    requires op.operation == operation && op.bytes == bytes && op.latency == latency && op.now == now
    ensures stats == MoreStats(before, op)
  {
    stats := before;
    if operation == OP_READ {
      stats := stats.(bytes_read := stats.bytes_read + bytes);
      stats := stats.(ops_read := stats.ops_read + 1);
    } else {
      stats := stats.(bytes_written := stats.bytes_written + bytes);
      stats := stats.(ops_write := stats.ops_write + 1);
    }
    stats := stats.(total_latency_ns := stats.total_latency_ns + latency);
    if latency > stats.max_latency_ns {
      stats := stats.(max_latency_ns := latency);
    }
    if stats.min_latency_ns == 0 || latency < stats.min_latency_ns {
      stats := stats.(min_latency_ns := latency);
    }
    stats := stats.(last_update_ns := now);
  }

  // ----- agreement of the two maps -----

  function Largest(ops: seq<Op>): nat {
    if ops == [] then 0
    else
      var rest := Largest(ops[..|ops| - 1]);
      if ops[|ops| - 1].latency > rest then ops[|ops| - 1].latency else rest
  }

  ghost predicate IsSmallest(ops: seq<Op>, m: nat) {
    && (exists op :: op in ops && op.latency == m)
    && (forall op :: op in ops ==> m <= op.latency)
  }

  lemma {:induction false} SmallestFold(ops: seq<Op>)
    requires ops != []
    ensures var m := Fold(ops, FirstStats, MoreStats).min_latency_ns;
            && (exists op :: op in ops && op.latency == m)
            && (m == 0 <==> ops[|ops| - 1].latency == 0)
            && ((forall op :: op in ops ==> op.latency > 0) ==> IsSmallest(ops, m))
  {
    var init, last := ops[..|ops| - 1], ops[|ops| - 1];
    assert last in ops;
    if init == [] {
      assert ops == [last];
    } else {
      SmallestFold(init);
      assert forall op :: op in ops <==> op in init || op == last;
    }
  }

  /** The minimum is the true one exactly when no latency is 0, or the last one is: the
      0 of an instantaneous operation is taken for "not set yet" by the next one. */
  lemma MinimumExact(ops: seq<Op>)
    requires ops != []
    ensures IsSmallest(ops, Fold(ops, FirstStats, MoreStats).min_latency_ns)
            <==> (forall op :: op in ops ==> op.latency > 0) || ops[|ops| - 1].latency == 0
  {
    SmallestFold(ops);
  }

  datatype Field = BytesRead | BytesWritten | OpsRead | OpsWrite | TotalLatency

  function Read(s: IoStats, f: Field): nat {
    match f
    case BytesRead => s.bytes_read
    case BytesWritten => s.bytes_written
    case OpsRead => s.ops_read
    case OpsWrite => s.ops_write
    case TotalLatency => s.total_latency_ns
  }

  /** What one operation adds to a field: a read to the read counters, any other to the
      write counters. */
  function Amount(op: Op, f: Field): nat {
    match f
    case BytesRead => if op.operation == OP_READ then op.bytes else 0
    case BytesWritten => if op.operation == OP_READ then 0 else op.bytes
    case OpsRead => if op.operation == OP_READ then 1 else 0
    case OpsWrite => if op.operation == OP_READ then 0 else 1
    case TotalLatency => op.latency
  }

  ghost function Sum(ops: seq<Op>, f: Field): nat {
    if ops == [] then 0 else Sum(ops[..|ops| - 1], f) + Amount(ops[|ops| - 1], f)
  }

  // ----- entries as sums over the operations -----

  ghost function SumOf(ops: seq<Op>, chosen: Op -> bool, f: Field): nat {
    if ops == [] then 0
    else
      var op := ops[|ops| - 1];
      SumOf(ops[..|ops| - 1], chosen, f) + if chosen(op) then Amount(op, f) else 0
  }

  ghost function LargestOf(ops: seq<Op>, chosen: Op -> bool): nat {
    if ops == [] then 0
    else
      var op, rest := ops[|ops| - 1], LargestOf(ops[..|ops| - 1], chosen);
      if chosen(op) && op.latency > rest then op.latency else rest
  }

  ghost function LatestOf(ops: seq<Op>, chosen: Op -> bool): nat {
    if ops == [] then 0
    else
      var op := ops[|ops| - 1];
      if chosen(op) then op.now else LatestOf(ops[..|ops| - 1], chosen)
  }

  /** `s` holds the sums, the largest latency and the last time of the chosen operations. */
  ghost predicate Totals(s: IoStats, ops: seq<Op>, chosen: Op -> bool) {
    && s.bytes_read == SumOf(ops, chosen, BytesRead) && s.bytes_written == SumOf(ops, chosen, BytesWritten)
    && s.ops_read == SumOf(ops, chosen, OpsRead) && s.ops_write == SumOf(ops, chosen, OpsWrite)
    && s.total_latency_ns == SumOf(ops, chosen, TotalLatency)
    && s.max_latency_ns == LargestOf(ops, chosen)
    && s.last_update_ns == LatestOf(ops, chosen)
  }

  lemma {:induction false} FoldIsTotals<K>(ops: seq<Op>, key: Op -> K, k: K, chosen: Op -> bool)
    requires forall op :: chosen(op) <==> key(op) == k
    ensures var under := Under(ops, key, k);
            Totals(if under == [] then NO_STATS else Fold(under, FirstStats, MoreStats), ops, chosen)
  {
    if ops != [] {
      var init, op := ops[..|ops| - 1], ops[|ops| - 1];
      FoldIsTotals(init, key, k, chosen);
      assert Under(ops, key, k) == if key(op) == k then Under(init, key, k) + [op] else Under(init, key, k);
      FoldSnoc(Under(init, key, k), op, FirstStats, MoreStats);
    }
  }

  /** The entry of one pid and operation, and that of one pid. */
  lemma KeyEntry(ops: seq<Op>, k: IoKey, ofKey: Op -> bool)
    requires k in ByKey(ops) && forall op :: ofKey(op) <==> op.pid == k.pid && op.operation == k.operation
    ensures Totals(ByKey(ops)[k], ops, ofKey)
  {
    TrackExact(ops, KeyOf, FirstStats, MoreStats, ENTRIES, k);
    FoldIsTotals(ops, KeyOf, k, ofKey);
  }

  lemma PidEntry(ops: seq<Op>, p: nat, ofPid: Op -> bool)
    requires p in ByPid(ops) && forall op :: ofPid(op) <==> op.pid == p
    ensures Totals(ByPid(ops)[p], ops, ofPid)
  {
    TrackExact(ops, PidOf, FirstStats, MoreStats, ENTRIES, p);
    FoldIsTotals(ops, PidOf, p, ofPid);
  }

  lemma {:induction false} FoldSum(ops: seq<Op>, f: Field)
    requires ops != []
    ensures Read(Fold(ops, FirstStats, MoreStats), f) == Sum(ops, f)
    ensures Fold(ops, FirstStats, MoreStats).max_latency_ns == Largest(ops)
  {
    if |ops| > 1 {
      FoldSum(ops[..|ops| - 1], f);
    } else {
      assert ops[..0] == [];
    }
  }

  ghost predicate ReadsAndWrites(ops: seq<Op>) {
    forall op :: op in ops ==> op.operation == OP_READ || op.operation == OP_WRITE
  }

  /** A pid's operations are its reads and its writes. */
  lemma {:induction false} PidSplits(ops: seq<Op>, p: nat, f: Field)
    requires ReadsAndWrites(ops)
    ensures var all := Under(ops, PidOf, p);
            var reads_, writes := Under(ops, KeyOf, IoKey(p, OP_READ)), Under(ops, KeyOf, IoKey(p, OP_WRITE));
            && Sum(all, f) == Sum(reads_, f) + Sum(writes, f)
            && Largest(all) == (if Largest(reads_) > Largest(writes) then Largest(reads_) else Largest(writes))
            && (forall op :: op in all <==> op in reads_ || op in writes)
  {
    if ops != [] {
      var init, op := ops[..|ops| - 1], ops[|ops| - 1];
      assert op in ops;
      PidSplits(init, p, f);
      UnderSnoc(ops, PidOf, p, f);
      UnderSnoc(ops, KeyOf, IoKey(p, OP_READ), f);
      UnderSnoc(ops, KeyOf, IoKey(p, OP_WRITE), f);
    }
  }

  lemma UnderSnoc<K>(ops: seq<Op>, key: Op -> K, k: K, f: Field)
    requires ops != []
    ensures var init, op := ops[..|ops| - 1], ops[|ops| - 1];
            var before, after := Under(init, key, k), Under(ops, key, k);
            if key(op) == k then
              && after == before + [op] && Sum(after, f) == Sum(before, f) + Amount(op, f)
              && Largest(after) == if op.latency > Largest(before) then op.latency else Largest(before)
            else after == before
  {
    var init, op := ops[..|ops| - 1], ops[|ops| - 1];
    var before := Under(init, key, k);
    assert (before + [op])[..|before|] == before;
  }

  const NO_STATS := IoStats(0, 0, 0, 0, 0, 0, 0, 0)

  /** The entry of one kind of operation, all zero if it has none. */
  ghost function Entry(ops: seq<Op>, p: nat, operation: int): IoStats {
    var m := ByKey(ops);
    if IoKey(p, operation) in m then m[IoKey(p, operation)] else NO_STATS
  }

  function MergeMin(a: nat, b: nat): nat {
    if a == 0 then b else if b == 0 then a else if a < b then a else b
  }

  function Max(a: nat, b: nat): nat {
    if a > b then a else b
  }

  /** What the entry of one kind of operation would hold, if it was refused. */
  ghost function Lost(ops: seq<Op>, p: nat, operation: int): IoStats {
    var es := Under(ops, KeyOf, IoKey(p, operation));
    if es == [] || IoKey(p, operation) in ByKey(ops) then NO_STATS else Fold(es, FirstStats, MoreStats)
  }

  lemma EntryOf(ops: seq<Op>, p: nat, operation: int, f: Field)
    ensures var es := Under(ops, KeyOf, IoKey(p, operation));
            var s, lost := Entry(ops, p, operation), Lost(ops, p, operation);
            && Read(s, f) + Read(lost, f) == Sum(es, f)
            && Max(s.max_latency_ns, lost.max_latency_ns) == Largest(es)
            && MergeMin(s.min_latency_ns, lost.min_latency_ns)
               == (if es == [] then 0 else Fold(es, FirstStats, MoreStats).min_latency_ns)
            && ((forall op :: op in es ==> KeyOf(op) in ByKey(ops)) ==> lost == NO_STATS)
  {
    var es := Under(ops, KeyOf, IoKey(p, operation));
    TrackExact(ops, KeyOf, FirstStats, MoreStats, ENTRIES, IoKey(p, operation));
    UnderMembers(ops, KeyOf, IoKey(p, operation));
    if es != [] {
      assert es[0] in es;
      FoldSum(es, f);
    }
  }

  lemma {:induction false} UnderMembers<K>(ops: seq<Op>, key: Op -> K, k: K)
    ensures forall op :: op in Under(ops, key, k) <==> op in ops && key(op) == k
  {
    if ops != [] {
      UnderMembers(ops[..|ops| - 1], key, k);
      assert ops == ops[..|ops| - 1] + [ops[|ops| - 1]];
    }
  }

  /** A pid's entry is the merge of its read and write entries, each together with what was
      refused of it: counters and latencies add up, the maximum is the larger one and, with
      positive latencies, the minimum the smaller one.  Nothing is lost while no key of the
      pid has been refused. */
  lemma PidIsMerge(ops: seq<Op>, p: nat, f: Field)
    requires p in ByPid(ops) && ReadsAndWrites(ops)
    ensures var r, w := Entry(ops, p, OP_READ), Entry(ops, p, OP_WRITE);
            var r', w' := Lost(ops, p, OP_READ), Lost(ops, p, OP_WRITE);
            var s := ByPid(ops)[p];
            && Read(s, f) == Read(r, f) + Read(r', f) + Read(w, f) + Read(w', f)
            && s.max_latency_ns
               == Max(Max(r.max_latency_ns, r'.max_latency_ns), Max(w.max_latency_ns, w'.max_latency_ns))
            && ((forall op :: op in ops && op.pid == p ==> op.latency > 0) ==>
                  s.min_latency_ns == MergeMin(MergeMin(r.min_latency_ns, r'.min_latency_ns),
                                               MergeMin(w.min_latency_ns, w'.min_latency_ns)))
            && ((forall op :: op in ops && op.pid == p ==> KeyOf(op) in ByKey(ops)) ==> r' == w' == NO_STATS)
  {
    hide Fold, Under, Entry, Lost, ByKey, Sum, Largest;
    TrackExact(ops, PidOf, FirstStats, MoreStats, ENTRIES, p);
    var all := Under(ops, PidOf, p);
    var reads_, writes := Under(ops, KeyOf, IoKey(p, OP_READ)), Under(ops, KeyOf, IoKey(p, OP_WRITE));
    UnderMembers(ops, PidOf, p);
    UnderMembers(ops, KeyOf, IoKey(p, OP_READ));
    UnderMembers(ops, KeyOf, IoKey(p, OP_WRITE));
    EntryOf(ops, p, OP_READ, f);
    EntryOf(ops, p, OP_WRITE, f);
    PidSplits(ops, p, f);
    FoldSum(all, f);
    if forall op :: op in ops && op.pid == p ==> op.latency > 0 {
      MergedMinimum(all, reads_, writes);
    }
  }

  /** A pid has an entry as soon as one of its keys has, even when the maps fill up. */
  lemma {:induction false} PidOfAcceptedKey(ops: seq<Op>)
    ensures |ByPid(ops)| <= |ByKey(ops)| <= 10240
    ensures forall k :: k in ByKey(ops) ==> k.pid in ByPid(ops)
  {
    if ops != [] {
      var init, op := ops[..|ops| - 1], ops[|ops| - 1];
      PidOfAcceptedKey(init);
      TrackGrows(ByKey(init), KeyOf(op), op, FirstStats, MoreStats, ENTRIES);
      TrackGrows(ByPid(init), op.pid, op, FirstStats, MoreStats, ENTRIES);
    }
  }

  lemma MergedMinimum(all: seq<Op>, a: seq<Op>, b: seq<Op>)
    requires all != [] && forall op :: op in all ==> op.latency > 0
    requires forall op :: op in all <==> op in a || op in b
    ensures Fold(all, FirstStats, MoreStats).min_latency_ns
         == MergeMin(if a == [] then 0 else Fold(a, FirstStats, MoreStats).min_latency_ns,
                     if b == [] then 0 else Fold(b, FirstStats, MoreStats).min_latency_ns)
  {
    hide Fold;
    SmallestFold(all);
    if a != [] {
      SmallestFold(a);
    }
    if b != [] {
      SmallestFold(b);
    }
  }
}
