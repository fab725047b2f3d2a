/** Whole runs of the pipeline: packets and idle evictions in any order, with a fixed rule set. */
module PipelineRuns {
  import opened Prelude
  import opened AclEngine
  import opened Pipeline

  datatype Event = Packet(key: FlowKey, len: nat, at: real) | EvictTick(at: real)

  function Next(c: Config, s: State, e: Event): State {
    match e
    case Packet(key, len, at) => Process(c, s, key, len, at)
    case EvictTick(at) => Evict(c, s, at)
  }

  ghost predicate IsRun(c: Config, states: seq<State>, events: seq<Event>) {
    && |states| == |events| + 1
    && states[0] == State(map[], {}, 0, 0, 0, 0)
    && forall i :: 0 <= i < |events| ==> states[i + 1] == Next(c, states[i], events[i])
  }

  /** The verdict on the packet of event `k`. */
  ghost function VerdictAt(c: Config, states: seq<State>, events: seq<Event>, k: nat): PacketVerdict
    requires k < |events| && |states| == |events| + 1 && events[k].Packet?
  {
    VerdictOn(c, states[k], events[k].key, events[k].len, events[k].at)
  }

  // ---------------------------------------------------------------- the invariant

  predicate Offloadable(c: Config, key: FlowKey) {
    var v := Evaluate(c.rules, key.tuple);
    v.action != Deny && v.offloadEligible
  }

  function Threshold(c: Config): nat {
    if c.minPackets > 2 then c.minPackets else 2
  }

  ghost predicate AllTracked(entries: Entries) {
    forall key :: key in entries ==> Tracked(entries[key])
  }

  ghost predicate OffloadedAllowed(c: Config, s: State) {
    forall key :: key in s.offloaded ==> Offloadable(c, key)
  }

  ghost predicate OffloadedOnTime(c: Config, s: State) {
    forall key :: key in s.entries && s.entries[key].packets >= Threshold(c) && Offloadable(c, key) ==> key in s.offloaded
  }

  ghost predicate Inv(c: Config, s: State) {
    && AllTracked(s.entries) && OffloadedAllowed(c, s) && OffloadedOnTime(c, s)
    && s.offloadedFlows == |s.offloaded|
    && s.rx == s.tx + s.dropped
  }

  lemma PacketOffloadsOnTime(c: Config, s: State, key: FlowKey, len: nat, at: real)
    requires AllTracked(s.entries) && OffloadedAllowed(c, s) && OffloadedOnTime(c, s)
    ensures var t := Process(c, s, key, len, at); OffloadedAllowed(c, t) && OffloadedOnTime(c, t)
  {
    var t := Process(c, s, key, len, at);
    assert t.entries == s.entries[key := Seen(s.entries, key, len, at)];
    assert key in s.entries ==> Tracked(s.entries[key]);
  }

  lemma PacketKeepsInv(c: Config, s: State, key: FlowKey, len: nat, at: real)
    requires Inv(c, s)
    ensures Inv(c, Process(c, s, key, len, at))
    ensures VerdictOn(c, s, key, len, at).OffloadAndForward? ==> key !in s.offloaded
  {
    PacketOffloadsOnTime(c, s, key, len, at);
    PacketKeepsTracked(s.entries, key, len, at);
    PacketCounts(c, s, key, len, at);
  }

  lemma PacketKeepsTracked(entries: Entries, key: FlowKey, len: nat, at: real)
    requires AllTracked(entries)
    ensures AllTracked(entries[key := Seen(entries, key, len, at)])
  {
    assert key in entries ==> Tracked(entries[key]);
  }

  lemma PacketCounts(c: Config, s: State, key: FlowKey, len: nat, at: real)
    requires s.offloadedFlows == |s.offloaded| && s.rx == s.tx + s.dropped
    ensures var t := Process(c, s, key, len, at);
      && t.offloadedFlows == |t.offloaded| && t.rx == t.tx + t.dropped
      && t.entries == s.entries[key := Seen(s.entries, key, len, at)]
  {
  }

  lemma {:induction false} RunKeepsInv(c: Config, states: seq<State>, events: seq<Event>, i: nat)
    requires IsRun(c, states, events) && i < |states|
    ensures Inv(c, states[i])
  {
    if i > 0 {
      RunKeepsInv(c, states, events, i - 1);
      assert states[i] == Next(c, states[i - 1], events[i - 1]);
      match events[i - 1]
      case Packet(key, len, at) => PacketKeepsInv(c, states[i - 1], key, len, at);
      case EvictTick(_) =>
    }
  }

  // ---------------------------------------------------------------- the shortcut is sound

  /** The already-offloaded shortcut never changes a decision: a packet is dropped exactly when
      the rules deny it. */
  lemma DropsExactlyTheDenied(c: Config, states: seq<State>, events: seq<Event>, k: nat)
    requires IsRun(c, states, events) && k < |events| && events[k].Packet?
    ensures VerdictAt(c, states, events, k) == Drop <==> Evaluate(c.rules, events[k].key.tuple).action == Deny
  {
    RunKeepsInv(c, states, events, k);
  }

  // ---------------------------------------------------------------- when flows are offloaded

  /** A flow is offloaded exactly at packet max(2, min_packets) of a connection-tracking lifetime
      of a flow that may be offloaded and was not before. */
  lemma OffloadsExactlyAtThreshold(c: Config, states: seq<State>, events: seq<Event>, k: nat)
    requires IsRun(c, states, events) && k < |events| && events[k].Packet?
    ensures var key := events[k].key;
      && key in states[k + 1].entries
      && (VerdictAt(c, states, events, k).OffloadAndForward? <==>
           && Offloadable(c, key)
           && key !in states[k].offloaded
           && states[k + 1].entries[key].packets == Threshold(c))
      && (VerdictAt(c, states, events, k).OffloadAndForward? ==>
           VerdictAt(c, states, events, k) == OffloadAndForward(key.vni, Evaluate(c.rules, key.tuple).ruleIndex)
           && states[k + 1].offloaded == states[k].offloaded + {key})
  {
    RunKeepsInv(c, states, events, k);
    assert states[k + 1] == Next(c, states[k], events[k]);
  }

  lemma {:induction false} OffloadedStays(c: Config, states: seq<State>, events: seq<Event>, i: nat, j: nat)
    requires IsRun(c, states, events) && i <= j < |states|
    ensures states[i].offloaded <= states[j].offloaded
    decreases j
  {
    if i < j {
      OffloadedStays(c, states, events, i, j - 1);
      assert states[j] == Next(c, states[j - 1], events[j - 1]);
    }
  }

  /** No flow is offloaded twice in a run, even when its connection entry was evicted in between. */
  lemma OffloadedAtMostOnce(c: Config, states: seq<State>, events: seq<Event>, i: nat, j: nat)
    requires IsRun(c, states, events) && i < j < |events|
    requires events[i].Packet? && events[j].Packet? && events[i].key == events[j].key
    requires VerdictAt(c, states, events, i).OffloadAndForward?
    ensures !VerdictAt(c, states, events, j).OffloadAndForward?
  {
    assert states[i + 1] == Next(c, states[i], events[i]);
    OffloadedStays(c, states, events, i + 1, j);
    RunKeepsInv(c, states, events, j);
    PacketKeepsInv(c, states[j], events[j].key, events[j].len, events[j].at);
  }

  // ---------------------------------------------------------------- counting packets

  ghost function TotalPackets(entries: Entries): nat {
    if entries.Keys == {} then 0
    else
      var key := Pick(entries.Keys);
      entries[key].packets + TotalPackets(entries - {key})
  }

  lemma {:induction false} TotalWithout(entries: Entries, key: FlowKey)
    requires key in entries
    ensures TotalPackets(entries) == entries[key].packets + TotalPackets(entries - {key})
    decreases |entries|
  {
    var pick := Pick(entries.Keys);
    if pick != key {
      TotalWithout(entries - {pick}, key);
      TotalWithout(entries - {key}, pick);
      assert entries - {pick} - {key} == entries - {key} - {pick};
    }
  }

  lemma TotalWith(entries: Entries, key: FlowKey, e: ConnEntry)
    ensures TotalPackets(entries[key := e])
         == TotalPackets(entries) - (if key in entries then entries[key].packets else 0) + e.packets
  {
    TotalWithout(entries[key := e], key);
    assert entries[key := e] - {key} == entries - {key};
    if key in entries {
      TotalWithout(entries, key);
    } else {
      assert entries - {key} == entries;
    }
  }

  /** Packets of the entries an event evicts. */
  ghost function EvictedPackets(c: Config, s: State, e: Event): int {
    match e
    case Packet(_, _, _) => 0
    case EvictTick(at) => TotalPackets(Restrict(s.entries, Evicted(s.entries, at, c.idleTimeout)))
  }

  ghost function Restrict(entries: Entries, keys: set<FlowKey>): Entries {
    map key | key in entries && key in keys :: entries[key]
  }

  lemma {:induction false} TotalSplits(entries: Entries, keys: set<FlowKey>)
    requires keys <= entries.Keys
    ensures TotalPackets(entries) == TotalPackets(Restrict(entries, keys)) + TotalPackets(entries - keys)
    decreases |keys|
  {
    if keys == {} {
      assert entries - keys == entries;
    } else {
      var key := Pick(keys);
      TotalSplits(entries - {key}, keys - {key});
      TotalWithout(entries, key);
      RestrictSplits(entries, keys, key);
      TotalWithout(Restrict(entries, keys), key);
    }
  }

  lemma RestrictSplits(entries: Entries, keys: set<FlowKey>, key: FlowKey)
    requires keys <= entries.Keys && key in keys
    ensures key in Restrict(entries, keys) && Restrict(entries, keys)[key] == entries[key]
    ensures Restrict(entries, keys) - {key} == Restrict(entries - {key}, keys - {key})
    ensures entries - {key} - (keys - {key}) == entries - keys
  {
  }

  /** Packets counted by entries evicted in the first `i` events. */
  ghost function TotalEvicted(c: Config, states: seq<State>, events: seq<Event>, i: nat): int
    requires i <= |events| && |states| == |events| + 1
  {
    if i == 0 then 0 else TotalEvicted(c, states, events, i - 1) + EvictedPackets(c, states[i - 1], events[i - 1])
  }

  lemma SentOrDropped(c: Config, states: seq<State>, events: seq<Event>, i: nat)
    requires IsRun(c, states, events) && i < |states|
    ensures states[i].rx == states[i].tx + states[i].dropped
  {
    RunKeepsInv(c, states, events, i);
  }

  lemma {:induction false} CountedOnce(c: Config, states: seq<State>, events: seq<Event>, i: nat)
    requires |states| == |events| + 1 && i < |states|
    requires states[0].rx == 0 && TotalPackets(states[0].entries) == 0
    requires forall k :: 0 <= k < |events| ==> states[k + 1] == Next(c, states[k], events[k])
    ensures states[i].rx == TotalPackets(states[i].entries) + TotalEvicted(c, states, events, i)
  {
    if i > 0 {
      CountedOnce(c, states, events, i - 1);
      StepConserves(c, states[i - 1], events[i - 1]);
      assert states[i - 1 + 1] == Next(c, states[i - 1], events[i - 1]);
    }
  }

  /** Every packet received was sent or dropped, and is counted once by a live or an evicted entry. */
  lemma PacketsAreConserved(c: Config, states: seq<State>, events: seq<Event>, i: nat)
    requires IsRun(c, states, events) && i < |states|
    ensures states[i].rx == states[i].tx + states[i].dropped
    ensures states[i].rx == TotalPackets(states[i].entries) + TotalEvicted(c, states, events, i)
  {
    SentOrDropped(c, states, events, i);
    CountedOnce(c, states, events, i);
  }

  /** One event: a packet is counted by its entry, an eviction takes out what it evicts. */
  lemma StepConserves(c: Config, s: State, e: Event)
    ensures Next(c, s, e).rx - s.rx == TotalPackets(Next(c, s, e).entries) + EvictedPackets(c, s, e) - TotalPackets(s.entries)
  {
    match e
    case Packet(key, len, at) => TotalWith(s.entries, key, Seen(s.entries, key, len, at));
    case EvictTick(at) => TotalSplits(s.entries, Evicted(s.entries, at, c.idleTimeout));
  }

  /** Packets among the first `k` events. */
  ghost function PacketsBefore(events: seq<Event>, k: nat): nat
    requires k <= |events|
  {
    if k == 0 then 0 else PacketsBefore(events, k - 1) + if events[k - 1].Packet? then 1 else 0
  }

  /** Packets among the first `k` events that the rules deny. */
  ghost function DeniedBefore(c: Config, events: seq<Event>, k: nat): nat
    requires k <= |events|
  {
    if k == 0 then 0
    else DeniedBefore(c, events, k - 1)
         + if events[k - 1].Packet? && Evaluate(c.rules, events[k - 1].key.tuple).action == Deny then 1 else 0
  }

  /** The counters over any run: every packet is received, those the rules deny are dropped and all others
      are sent. */
  lemma {:induction false} CountersAreExact(c: Config, states: seq<State>, events: seq<Event>, k: nat)
    requires IsRun(c, states, events) && k < |states|
    ensures states[k].rx == PacketsBefore(events, k)
    ensures states[k].dropped == DeniedBefore(c, events, k)
    ensures states[k].tx == PacketsBefore(events, k) - DeniedBefore(c, events, k)
  {
    if k > 0 {
      CountersAreExact(c, states, events, k - 1);
      if events[k - 1].Packet? {
        DropsExactlyTheDenied(c, states, events, k - 1);
        PacketCounted(c, states[k - 1], events[k - 1].key, events[k - 1].len, events[k - 1].at);
      }
    }
  }

  lemma PacketCounted(c: Config, s: State, key: FlowKey, len: nat, at: real)
    ensures var t, drop := Process(c, s, key, len, at), VerdictOn(c, s, key, len, at) == Drop;
      && t.rx == s.rx + 1 && t.dropped == s.dropped + (if drop then 1 else 0) && t.tx == s.tx + (if drop then 0 else 1)
  {
  }

  // ---------------------------------------------------------------- eviction

  /** The last packet of a flow before step `k`, if any. */
  ghost function LastPacket(events: seq<Event>, key: FlowKey, k: nat): (r: Option<nat>)
    requires k <= |events|
    ensures r.Some? ==> r.value < k && events[r.value].Packet? && events[r.value].key == key
    ensures r.Some? ==> forall m :: r.value < m < k && events[m].Packet? ==> events[m].key != key
  {
    if k == 0 then None
    else if events[k - 1].Packet? && events[k - 1].key == key then Some(k - 1)
    else LastPacket(events, key, k - 1)
  }

  lemma {:induction false} LastSeenIsLastPacket(c: Config, states: seq<State>, events: seq<Event>, key: FlowKey, k: nat)
    requires IsRun(c, states, events) && k < |states| && key in states[k].entries
    ensures LastPacket(events, key, k).Some?
    ensures states[k].entries[key].lastSeen == events[LastPacket(events, key, k).value].at
  {
    assert k > 0;
    assert states[k] == Next(c, states[k - 1], events[k - 1]);
    if !(events[k - 1].Packet? && events[k - 1].key == key) {
      LastSeenIsLastPacket(c, states, events, key, k - 1);
    }
  }

  /** An eviction pass drops exactly the flows whose last packet is at least the timeout ago. */
  lemma EvictsExactlyTheIdle(c: Config, states: seq<State>, events: seq<Event>, key: FlowKey, k: nat)
    requires IsRun(c, states, events) && k < |events| && events[k].EvictTick? && key in states[k].entries
    ensures LastPacket(events, key, k).Some?
    ensures key in states[k + 1].entries <==>
              events[k].at - events[LastPacket(events, key, k).value].at < c.idleTimeout
  {
    LastSeenIsLastPacket(c, states, events, key, k);
    assert states[k + 1] == Next(c, states[k], events[k]);
  }
}
