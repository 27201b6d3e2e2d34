/** The traffic accounting of the network monitor: three bounded maps, updated in place
    by each event, that must agree with one another. */
module NetworkMonitor {
  import opened CounterMaps

  const TRAFFIC_ENTRIES := 10240
  const PROTOCOL_ENTRIES := 256
  const PID_ENTRIES := 10240

  type u8 = x: int | 0 <= x < 256

  datatype TrafficKey = TrafficKey(pid: nat, protocol: u8, port: nat, ip: nat)

  datatype TrafficStats = TrafficStats(
    bytes_sent: nat, bytes_recv: nat, packets_sent: nat, packets_recv: nat, last_update_ns: nat)

  datatype Event = Event(key: TrafficKey, bytes: nat, sent: bool, now: nat)

  function KeyOf(e: Event): TrafficKey { e.key }
  function PidOf(e: Event): nat { e.key.pid }
  function ProtocolOf(e: Event): u8 { e.key.protocol }

  function FirstStats(e: Event): TrafficStats {
    if e.sent then TrafficStats(e.bytes, 0, 1, 0, e.now) else TrafficStats(0, e.bytes, 0, 1, e.now)
  }

  function MoreStats(s: TrafficStats, e: Event): TrafficStats {
    if e.sent then s.(bytes_sent := s.bytes_sent + e.bytes, packets_sent := s.packets_sent + 1, last_update_ns := e.now)
    else s.(bytes_recv := s.bytes_recv + e.bytes, packets_recv := s.packets_recv + 1, last_update_ns := e.now)
  }

  function FirstBytes(e: Event): nat { e.bytes }
  function MoreBytes(total: nat, e: Event): nat { total + e.bytes }

  // ----- the maps after a history of events -----

  ghost function Traffic(es: seq<Event>): map<TrafficKey, TrafficStats> {
    TrackAll(es, KeyOf, FirstStats, MoreStats, TRAFFIC_ENTRIES)
  }

  ghost function Totals(es: seq<Event>): map<u8, nat> {
    TrackAll(es, ProtocolOf, FirstBytes, MoreBytes, PROTOCOL_ENTRIES)
  }

  ghost function Pids(es: seq<Event>): map<nat, TrafficStats> {
    TrackAll(es, PidOf, FirstStats, MoreStats, PID_ENTRIES)
  }

  class Monitor {
    var trafficMap: map<TrafficKey, TrafficStats>
    var protocolTotals: map<u8, nat>
    var pidStats: map<nat, TrafficStats>

    ghost var history: seq<Event>

    ghost predicate Valid()
      reads this
    {
      trafficMap == Traffic(history) && protocolTotals == Totals(history) && pidStats == Pids(history)
    }

    constructor ()
      ensures Valid() && history == []
    {
      trafficMap, protocolTotals, pidStats, history := map[], map[], map[], [];
    }

    /** One event, in the order of the three maps. */
    method UpdateTrafficStats(key: TrafficKey, bytes: nat, isSent: bool, now: nat)
      requires Valid()
      modifies this
      ensures Valid() && history == old(history) + [Event(key, bytes, isSent, now)]
    {
      ghost var e := Event(key, bytes, isSent, now);
      UpdateProtocol(key, bytes, e);
      UpdateTraffic(key, bytes, isSent, now, e);
      UpdatePid(key, bytes, isSent, now, e);
      assert (history + [e])[..|history|] == history;
      history := history + [e];
    }

    method UpdateProtocol(key: TrafficKey, bytes: nat, ghost e: Event)
      requires e.key == key && e.bytes == bytes
      modifies this`protocolTotals
      ensures protocolTotals == Track(old(protocolTotals), key.protocol, e, FirstBytes, MoreBytes, PROTOCOL_ENTRIES)
    {
      if key.protocol in protocolTotals {
        protocolTotals := protocolTotals[key.protocol := protocolTotals[key.protocol] + bytes];
      } else {
        protocolTotals := Put(protocolTotals, key.protocol, bytes, PROTOCOL_ENTRIES);
      }
    }

    method UpdateTraffic(key: TrafficKey, bytes: nat, isSent: bool, now: nat, ghost e: Event)
      requires e == Event(key, bytes, isSent, now)
      modifies this`trafficMap
      ensures trafficMap == Track(old(trafficMap), key, e, FirstStats, MoreStats, TRAFFIC_ENTRIES)
    {
      if key in trafficMap {
        var stats := trafficMap[key];
        if isSent {
          stats := stats.(bytes_sent := stats.bytes_sent + bytes);
          stats := stats.(packets_sent := stats.packets_sent + 1);
        } else {
          stats := stats.(bytes_recv := stats.bytes_recv + bytes);
          stats := stats.(packets_recv := stats.packets_recv + 1);
        }
        stats := stats.(last_update_ns := now);
        trafficMap := Put(trafficMap, key, stats, TRAFFIC_ENTRIES);
      } else {
        var newStats := TrafficStats(0, 0, 0, 0, now);
        if isSent {
          newStats := newStats.(bytes_sent := bytes, packets_sent := 1);
        } else {
          newStats := newStats.(bytes_recv := bytes, packets_recv := 1);
        }
        trafficMap := Put(trafficMap, key, newStats, TRAFFIC_ENTRIES);
      }
    }

    method UpdatePid(key: TrafficKey, bytes: nat, isSent: bool, now: nat, ghost e: Event)
      requires e == Event(key, bytes, isSent, now)
      modifies this`pidStats
      ensures pidStats == Track(old(pidStats), key.pid, e, FirstStats, MoreStats, PID_ENTRIES)
    {
      if key.pid !in pidStats {
        var newPidStat := TrafficStats(0, 0, 0, 0, now);
        if isSent {
          newPidStat := newPidStat.(bytes_sent := bytes, packets_sent := 1);
        } else {
          newPidStat := newPidStat.(bytes_recv := bytes, packets_recv := 1);
        }
        pidStats := Put(pidStats, key.pid, newPidStat, PID_ENTRIES);
      } else {
        var pidStat := pidStats[key.pid];
        if isSent {
          pidStat := pidStat.(bytes_sent := pidStat.bytes_sent + bytes);
          pidStat := pidStat.(packets_sent := pidStat.packets_sent + 1);
        } else {
          pidStat := pidStat.(bytes_recv := pidStat.bytes_recv + bytes);
          pidStat := pidStat.(packets_recv := pidStat.packets_recv + 1);
        }
        pidStat := pidStat.(last_update_ns := now);
        pidStats := Put(pidStats, key.pid, pidStat, PID_ENTRIES);
      }
    }
  }

  // ----- agreement of the maps -----

  datatype Field = BytesSent | BytesRecv | PacketsSent | PacketsRecv

  function Read(s: TrafficStats, f: Field): nat {
    match f
    case BytesSent => s.bytes_sent
    case BytesRecv => s.bytes_recv
    case PacketsSent => s.packets_sent
    case PacketsRecv => s.packets_recv
  }

  /** What one event adds to a field: its bytes and one packet, in its own direction. */
  function Amount(e: Event, f: Field): nat {
    match f
    case BytesSent => if e.sent then e.bytes else 0
    case BytesRecv => if e.sent then 0 else e.bytes
    case PacketsSent => if e.sent then 1 else 0
    case PacketsRecv => if e.sent then 0 else 1
  }

  ghost function Sum(es: seq<Event>, f: Field): nat {
    if es == [] then 0 else Sum(es[..|es| - 1], f) + Amount(es[|es| - 1], f)
  }

  /** The sum of a field over map entries. */
  ghost function SumOver(keys: set<TrafficKey>, m: map<TrafficKey, TrafficStats>, f: Field): nat
    requires keys <= m.Keys
  {
    if keys == {} then 0
    else
      var k :| k in keys;
      Read(m[k], f) + SumOver(keys - {k}, m, f)
  }

  /** The events of a group (one pid, or one protocol) outside a set of keys. */
  ghost function Outside<G>(es: seq<Event>, group: Event -> G, g: G, keys: set<TrafficKey>): seq<Event> {
    if es == [] then []
    else
      var e := es[|es| - 1];
      Outside(es[..|es| - 1], group, g, keys) + if group(e) == g && e.key !in keys then [e] else []
  }

  lemma SumSnoc(es: seq<Event>, e: Event, f: Field)
    ensures Sum(es + [e], f) == Sum(es, f) + Amount(e, f)
  {
    assert (es + [e])[..|es|] == es;
  }

  lemma {:induction false} FoldSum(es: seq<Event>, f: Field)
    requires es != []
    ensures Read(Fold(es, FirstStats, MoreStats), f) == Sum(es, f)
  {
    if |es| > 1 {
      FoldSum(es[..|es| - 1], f);
    } else {
      assert es[..0] == [];
    }
  }

  /** Moving one key of the group into the set moves its events out of the rest. */
  lemma {:induction false} OutsideOneMore<G>(es: seq<Event>, group: Event -> G, g: G, keys: set<TrafficKey>,
      k: TrafficKey, f: Field)
    requires k !in keys && forall e :: e in es && e.key == k ==> group(e) == g
    ensures Sum(Outside(es, group, g, keys), f) == Sum(Outside(es, group, g, keys + {k}), f)
            + Sum(Under(es, KeyOf, k), f)
  {
    if es != [] {
      var init, e := es[..|es| - 1], es[|es| - 1];
      OutsideOneMore(init, group, g, keys, k, f);
      OutsideSnoc(es, group, g, keys, f);
      OutsideSnoc(es, group, g, keys + {k}, f);
      UnderSnoc(es, k, f);
      assert e in es;
    }
  }

  lemma OutsideSnoc<G>(es: seq<Event>, group: Event -> G, g: G, keys: set<TrafficKey>, f: Field)
    requires es != []
    ensures var init, e := es[..|es| - 1], es[|es| - 1];
            Sum(Outside(es, group, g, keys), f)
            == Sum(Outside(init, group, g, keys), f) + if group(e) == g && e.key !in keys then Amount(e, f) else 0
  {
    var rest := Outside(es[..|es| - 1], group, g, keys);
    SumSnoc(rest, es[|es| - 1], f);
    assert rest + [] == rest;
  }

  lemma UnderSnoc(es: seq<Event>, k: TrafficKey, f: Field)
    requires es != []
    ensures var init, e := es[..|es| - 1], es[|es| - 1];
            Sum(Under(es, KeyOf, k), f) == Sum(Under(init, KeyOf, k), f) + if e.key == k then Amount(e, f) else 0
  {
    var rest := Under(es[..|es| - 1], KeyOf, k);
    SumSnoc(rest, es[|es| - 1], f);
    assert rest + [] == rest;
  }

  /** An accepted key's entry holds what its events add. */
  lemma EntryOutside<G>(es: seq<Event>, group: Event -> G, g: G, keys: set<TrafficKey>, k: TrafficKey, f: Field)
    requires k in keys && k in Traffic(es) && forall e :: e in es && e.key == k ==> group(e) == g
    ensures Sum(Outside(es, group, g, keys - {k}), f) == Read(Traffic(es)[k], f) + Sum(Outside(es, group, g, keys), f)
  {
    hide Outside, Under, Fold, Sum, Amount, Read;
    OutsideOneMore(es, group, g, keys - {k}, k, f);
    assert keys - {k} + {k} == keys;
    TrackExact(es, KeyOf, FirstStats, MoreStats, TRAFFIC_ENTRIES, k);
    FoldSum(Under(es, KeyOf, k), f);
  }

  /** All events of the group, less those under `keys`, are the entries' sums apart. */
  lemma {:induction false} Conservation<G>(es: seq<Event>, group: Event -> G, g: G, keys: set<TrafficKey>, f: Field)
    requires keys <= Traffic(es).Keys
    requires forall e :: e in es && e.key in keys ==> group(e) == g
    ensures Sum(Outside(es, group, g, {}), f) == SumOver(keys, Traffic(es), f) + Sum(Outside(es, group, g, keys), f)
    decreases keys
  {
    if keys != {} {
      hide Traffic, Outside, Sum, Read;
      var m := Traffic(es);
      var k :| k in keys && SumOver(keys, m, f) == Read(m[k], f) + SumOver(keys - {k}, m, f);
      Conservation(es, group, g, keys - {k}, f);
      EntryOutside(es, group, g, keys, k, f);
    }
  }

  lemma {:induction false} OutsideNothing<G>(es: seq<Event>, group: Event -> G, g: G)
    ensures Outside(es, group, g, {}) == Under(es, group, g)
  {
    if es != [] {
      OutsideNothing(es[..|es| - 1], group, g);
    }
  }

  // ----- the main results -----

  /** Every entry of every map holds all events under its key; a key with events is
      missing only while its map is full, and protocols are never missing. */
  lemma EntriesExact(es: seq<Event>, k: TrafficKey, p: nat, q: u8)
    ensures k in Traffic(es) ==>
              var under := Under(es, KeyOf, k); under != [] && Traffic(es)[k] == Fold(under, FirstStats, MoreStats)
    ensures k !in Traffic(es) && Under(es, KeyOf, k) != [] ==> |Traffic(es)| == 10240
    ensures p in Pids(es) ==>
              var under := Under(es, PidOf, p); under != [] && Pids(es)[p] == Fold(under, FirstStats, MoreStats)
    ensures p !in Pids(es) && Under(es, PidOf, p) != [] ==> |Pids(es)| == 10240
    ensures q in Totals(es) <==> Under(es, ProtocolOf, q) != []
    ensures q in Totals(es) ==> Totals(es)[q] == Fold(Under(es, ProtocolOf, q), FirstBytes, MoreBytes)
  {
    TrackExact(es, KeyOf, FirstStats, MoreStats, TRAFFIC_ENTRIES, k);
    TrackExact(es, PidOf, FirstStats, MoreStats, PID_ENTRIES, p);
    TrackExact(es, ProtocolOf, FirstBytes, MoreBytes, PROTOCOL_ENTRIES, q);
    if q !in Totals(es) {
      FewProtocols(Totals(es).Keys, q);
    }
  }

  lemma {:induction false} ProtocolsBelow(protocols: set<u8>, n: nat)
    requires n <= PROTOCOL_ENTRIES && forall q :: q in protocols ==> q < n
    ensures |protocols| <= n
  {
    if n == 0 {
      assert protocols == {};
    } else {
      var last: u8 := n - 1;
      ProtocolsBelow(protocols - {last}, n - 1);
    }
  }

  lemma FewProtocols(protocols: set<u8>, q: u8)
    requires q !in protocols
    ensures |protocols| < 256
  {
    ProtocolsBelow(protocols + {q}, PROTOCOL_ENTRIES);
  }

  // ----- entries as sums over the events -----

  ghost function BytesOf(es: seq<Event>, chosen: Event -> bool, sent: bool): nat {
    if es == [] then 0
    else
      var e := es[|es| - 1];
      BytesOf(es[..|es| - 1], chosen, sent) + if chosen(e) && e.sent == sent then e.bytes else 0
  }

  ghost function CountOf(es: seq<Event>, chosen: Event -> bool, sent: bool): nat {
    if es == [] then 0
    else
      var e := es[|es| - 1];
      CountOf(es[..|es| - 1], chosen, sent) + if chosen(e) && e.sent == sent then 1 else 0
  }

  ghost function LatestOf(es: seq<Event>, chosen: Event -> bool): nat {
    if es == [] then 0
    else
      var e := es[|es| - 1];
      if chosen(e) then e.now else LatestOf(es[..|es| - 1], chosen)
  }

  /** Sent and received bytes and packets of the chosen events, and the time of the last. */
  ghost function StatsOf(es: seq<Event>, chosen: Event -> bool): TrafficStats {
    TrafficStats(BytesOf(es, chosen, true), BytesOf(es, chosen, false), CountOf(es, chosen, true),
                 CountOf(es, chosen, false), LatestOf(es, chosen))
  }

  lemma {:induction false} FoldIsStats<K>(es: seq<Event>, key: Event -> K, k: K, chosen: Event -> bool)
    requires forall e :: chosen(e) <==> key(e) == k
    ensures var under := Under(es, key, k);
            && (under == [] ==> StatsOf(es, chosen) == TrafficStats(0, 0, 0, 0, 0))
            && (under != [] ==>
                  && Fold(under, FirstStats, MoreStats) == StatsOf(es, chosen)
                  && Fold(under, FirstBytes, MoreBytes) == BytesOf(es, chosen, true) + BytesOf(es, chosen, false))
  {
    if es != [] {
      var init, e := es[..|es| - 1], es[|es| - 1];
      FoldIsStats(init, key, k, chosen);
      assert Under(es, key, k) == if key(e) == k then Under(init, key, k) + [e] else Under(init, key, k);
      FoldSnoc(Under(init, key, k), e, FirstStats, MoreStats);
      FoldSnoc(Under(init, key, k), e, FirstBytes, MoreBytes);
    }
  }

  /** A key's entry: bytes and packets of its events in each direction, and their last time. */
  lemma TrafficEntry(es: seq<Event>, k: TrafficKey, ofKey: Event -> bool)
    requires k in Traffic(es) && forall e :: ofKey(e) <==> e.key == k
    ensures Traffic(es)[k] == StatsOf(es, ofKey)
  {
    TrackExact(es, KeyOf, FirstStats, MoreStats, TRAFFIC_ENTRIES, k);
    FoldIsStats(es, KeyOf, k, ofKey);
  }

  lemma PidEntry(es: seq<Event>, p: nat, ofPid: Event -> bool)
    requires p in Pids(es) && forall e :: ofPid(e) <==> e.key.pid == p
    ensures Pids(es)[p] == StatsOf(es, ofPid)
  {
    TrackExact(es, PidOf, FirstStats, MoreStats, PID_ENTRIES, p);
    FoldIsStats(es, PidOf, p, ofPid);
  }

  /** A protocol's total is its bytes in both directions. */
  lemma ProtocolEntry(es: seq<Event>, q: u8, ofProtocol: Event -> bool)
    requires q in Totals(es) && forall e :: ofProtocol(e) <==> e.key.protocol == q
    ensures Totals(es)[q] == BytesOf(es, ofProtocol, true) + BytesOf(es, ofProtocol, false)
  {
    TrackExact(es, ProtocolOf, FirstBytes, MoreBytes, PROTOCOL_ENTRIES, q);
    FoldIsStats(es, ProtocolOf, q, ofProtocol);
  }

  ghost function PidKeys(es: seq<Event>, p: nat): set<TrafficKey> {
    set k | k in Traffic(es) && k.pid == p
  }

  ghost function ProtocolKeys(es: seq<Event>, q: u8): set<TrafficKey> {
    set k | k in Traffic(es) && k.protocol == q
  }

  /** Each field of a pid's entry is the sum over its accepted keys plus what its refused
      keys would have held: it dominates the keys, and equals them if none was refused. */
  lemma PidConservation(es: seq<Event>, p: nat, f: Field)
    requires p in Pids(es)
    ensures Read(Pids(es)[p], f)
         == SumOver(PidKeys(es, p), Traffic(es), f) + Sum(Outside(es, PidOf, p, PidKeys(es, p)), f)
    ensures (forall e :: e in es && e.key.pid == p ==> e.key in Traffic(es)) ==>
              Read(Pids(es)[p], f) == SumOver(PidKeys(es, p), Traffic(es), f)
  {
    TrackExact(es, PidOf, FirstStats, MoreStats, PID_ENTRIES, p);
    FoldSum(Under(es, PidOf, p), f);
    OutsideNothing(es, PidOf, p);
    Conservation(es, PidOf, p, PidKeys(es, p), f);
    NothingOutside(es, PidOf, p, PidKeys(es, p));
  }

  lemma {:induction false} NothingOutside<G>(es: seq<Event>, group: Event -> G, g: G, keys: set<TrafficKey>)
    ensures (forall e :: e in es && group(e) == g ==> e.key in keys) ==> Outside(es, group, g, keys) == []
  {
    if es != [] {
      NothingOutside(es[..|es| - 1], group, g, keys);
      assert es[|es| - 1] in es;
    }
  }

  lemma {:induction false} FoldBytesSum(es: seq<Event>)
    requires es != []
    ensures Fold(es, FirstBytes, MoreBytes) == Sum(es, BytesSent) + Sum(es, BytesRecv)
  {
    if |es| > 1 {
      FoldBytesSum(es[..|es| - 1]);
    } else {
      assert es[..0] == [];
    }
  }

  /** A protocol's total is the bytes sent and received over its accepted keys plus those
      of its refused keys. */
  lemma ProtocolConservation(es: seq<Event>, q: u8)
    requires q in Totals(es)
    ensures var keys := ProtocolKeys(es, q);
            var refused := Outside(es, ProtocolOf, q, keys);
            Totals(es)[q] == SumOver(keys, Traffic(es), BytesSent) + SumOver(keys, Traffic(es), BytesRecv)
                             + Sum(refused, BytesSent) + Sum(refused, BytesRecv)
    ensures (forall e :: e in es && e.key.protocol == q ==> e.key in Traffic(es)) ==>
              var keys := ProtocolKeys(es, q);
              Totals(es)[q] == SumOver(keys, Traffic(es), BytesSent) + SumOver(keys, Traffic(es), BytesRecv)
  {
    var keys := ProtocolKeys(es, q);
    TrackExact(es, ProtocolOf, FirstBytes, MoreBytes, PROTOCOL_ENTRIES, q);
    FoldBytesSum(Under(es, ProtocolOf, q));
    OutsideNothing(es, ProtocolOf, q);
    Conservation(es, ProtocolOf, q, keys, BytesSent);
    Conservation(es, ProtocolOf, q, keys, BytesRecv);
    NothingOutside(es, ProtocolOf, q, keys);
  }

  /** A pid has an entry as soon as one of its keys has, even when maps fill up. */
  lemma {:induction false} PidOfAcceptedKey(es: seq<Event>)
    ensures |Pids(es)| <= |Traffic(es)| <= 10240
    ensures forall k :: k in Traffic(es) ==> k.pid in Pids(es)
  {
    if es != [] {
      var init, e := es[..|es| - 1], es[|es| - 1];
      PidOfAcceptedKey(init);
      TrackGrows(Traffic(init), e.key, e, FirstStats, MoreStats, TRAFFIC_ENTRIES);
      TrackGrows(Pids(init), e.key.pid, e, FirstStats, MoreStats, PID_ENTRIES);
    }
  }
}
