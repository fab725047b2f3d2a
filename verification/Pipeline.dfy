/** The packet pipeline of the Rust datapath: connection tracking, access control, and the shortcut
    for flows already handed to the hardware. */
module Pipeline {
  import opened Prelude
  import opened AclEngine

  datatype ConnState = New | Established | FinWait | Closed

  datatype ConnEntry = ConnEntry(state: ConnState, packets: nat, bytes: nat, lastSeen: real)

  datatype FlowKey = FlowKey(vni: nat, tuple: FiveTuple)

  type Entries = map<FlowKey, ConnEntry>

  datatype PacketVerdict = Forward | Drop | OffloadAndForward(vni: nat, ruleIndex: Option<nat>)

  /** What does not change over a run: the sorted rules, the offload threshold, the idle timeout. */
  datatype Config = Config(rules: seq<Rule>, minPackets: nat, idleTimeout: real)

  datatype State = State(
    entries: Entries,
    offloaded: set<FlowKey>,
    rx: nat, tx: nat, dropped: nat, offloadedFlows: nat
  )

  // ---------------------------------------------------------------- connection tracking

  /** The entry of a flow after one more packet. */
  function Seen(entries: Entries, key: FlowKey, len: nat, now: real): ConnEntry {
    if key in entries then
      var e := entries[key];
      ConnEntry(if e.state == New then Established else e.state, e.packets + 1, e.bytes + len, now)
    else ConnEntry(New, 1, len, now)
  }

  predicate Idle(e: ConnEntry, now: real, timeout: real) {
    now - e.lastSeen >= timeout
  }

  function Evicted(entries: Entries, now: real, timeout: real): set<FlowKey> {
    set key | key in entries && Idle(entries[key], now, timeout)
  }

  /** A live entry has seen a packet, and is NEW exactly while it has seen only one. */
  predicate Tracked(e: ConnEntry) {
    e.packets >= 1 && e.state == if e.packets == 1 then New else Established
  }

  class ConnTracker {
    const idleTimeout: real
    var entries: Entries

    ghost predicate Valid()
      reads this
    {
      forall key :: key in entries ==> Tracked(entries[key])
    }

    constructor (idleTimeout: real)
      ensures Valid() && this.idleTimeout == idleTimeout && entries == map[]
    {
      this.idleTimeout := idleTimeout;
      entries := map[];
    }

    method Lookup(key: FlowKey, len: nat, now: real) returns (state: ConnState)
      requires Valid()
      modifies this
      ensures Valid()
      ensures entries == old(entries)[key := Seen(old(entries), key, len, now)]
      ensures key in entries && state == entries[key].state && entries[key].lastSeen == now
      ensures key in old(entries) ==>
                && state == Established && entries[key].packets == old(entries)[key].packets + 1
                && entries[key].bytes == old(entries)[key].bytes + len
      ensures key !in old(entries) ==> state == New && entries[key].packets == 1 && entries[key].bytes == len
    {
      var entry := ConnEntry(New, 0, 0, now);
      if key in entries {
        entry := entries[key];
      }
      entry := entry.(packets := entry.packets + 1, bytes := entry.bytes + len, lastSeen := now);
      if entry.state == New && entry.packets > 1 {
        entry := entry.(state := Established);
      }
      entries := entries[key := entry];
      return entry.state;
    }

    method PacketCount(key: FlowKey) returns (n: nat)
      ensures n == if key in entries then entries[key].packets else 0
    {
      if key in entries {
        return entries[key].packets;
      }
      return 0;
    }

    method EvictIdle(now: real) returns (count: nat)
      requires Valid()
      modifies this
      ensures Valid()
      ensures entries == old(entries) - Evicted(old(entries), now, idleTimeout)
      ensures forall key :: key in entries <==> key in old(entries) && now - old(entries)[key].lastSeen < idleTimeout
      ensures forall key :: key in entries ==> entries[key] == old(entries)[key]
      ensures count == |old(entries)| - |entries|
      ensures count == |Evicted(old(entries), now, idleTimeout)|
    {
      ghost var gone := Evicted(entries, now, idleTimeout);
      var before := |entries|;
      entries := map key | key in entries && now - entries[key].lastSeen < idleTimeout :: entries[key];
      assert entries == old(entries) - gone;
      assert old(entries).Keys == entries.Keys + gone && entries.Keys !! gone;
      count := before - |entries|;
    }
  }

  // ---------------------------------------------------------------- one packet

  function ShouldOffload(c: Config, state: ConnState, v: Verdict, packets: nat): bool {
    state == Established && v.offloadEligible && packets >= c.minPackets
  }

  function VerdictOn(c: Config, s: State, key: FlowKey, len: nat, now: real): PacketVerdict {
    var entry := Seen(s.entries, key, len, now);
    var acl := Evaluate(c.rules, key.tuple);
    if entry.state == Established && key in s.offloaded then Forward
    else if acl.action == Deny then Drop
    else if ShouldOffload(c, entry.state, acl, entry.packets) then OffloadAndForward(key.vni, acl.ruleIndex)
    else Forward
  }

  function Process(c: Config, s: State, key: FlowKey, len: nat, now: real): State {
    var heard := s.(entries := s.entries[key := Seen(s.entries, key, len, now)], rx := s.rx + 1);
    match VerdictOn(c, s, key, len, now)
    case Forward => heard.(tx := s.tx + 1)
    case Drop => heard.(dropped := s.dropped + 1)
    case OffloadAndForward(_, _) =>
      heard.(offloaded := s.offloaded + {key}, offloadedFlows := s.offloadedFlows + 1, tx := s.tx + 1)
  }

  function Evict(c: Config, s: State, now: real): State {
    s.(entries := s.entries - Evicted(s.entries, now, c.idleTimeout))
  }

  /** What becomes of a packet of a flow: passed on unseen by the rules when the flow is tracked and
      offloaded, else dropped when the rules deny it, else offloaded on the spot when it is tracked, may
      be and has enough packets, else passed on. */
  lemma VerdictMeans(c: Config, s: State, key: FlowKey, len: nat, now: real)
    requires key in s.entries ==> Tracked(s.entries[key])
    ensures var v, acl := VerdictOn(c, s, key, len, now), Evaluate(c.rules, key.tuple);
      var tracked := key in s.entries;
      var passed := tracked && key in s.offloaded;
      && (v.Drop? <==> !passed && acl.action == Deny)
      && (v.OffloadAndForward? <==>
            !passed && acl.action != Deny && tracked && acl.offloadEligible && s.entries[key].packets + 1 >= c.minPackets)
      && (v.OffloadAndForward? ==> v == OffloadAndForward(key.vni, acl.ruleIndex))
  {
  }

  class PipelineObject {
    const conntrack: ConnTracker
    const acl: Engine
    const minPackets: nat
    var offloaded: set<FlowKey>
    var rx: nat
    var tx: nat
    var dropped: nat
    var offloadedFlows: nat

    ghost function Settings(): Config {
      Config(acl.rules, minPackets, conntrack.idleTimeout)
    }

    ghost function View(): State
      reads this, conntrack
    {
      State(conntrack.entries, offloaded, rx, tx, dropped, offloadedFlows)
    }

    constructor (acl: Engine, minPackets: nat, idleTimeout: real)
      ensures fresh(conntrack) && conntrack.Valid()
      ensures Settings() == Config(acl.rules, minPackets, idleTimeout)
      ensures View() == State(map[], {}, 0, 0, 0, 0)
    {
      conntrack := new ConnTracker(idleTimeout);
      this.acl := acl;
      this.minPackets := minPackets;
      offloaded := {};
      rx, tx, dropped, offloadedFlows := 0, 0, 0, 0;
    }

    method ProcessPacket(key: FlowKey, len: nat, now: real) returns (verdict: PacketVerdict)
      requires conntrack.Valid()
      modifies this, conntrack
      ensures conntrack.Valid()
      ensures verdict == VerdictOn(Settings(), old(View()), key, len, now)
      ensures View() == Process(Settings(), old(View()), key, len, now)
      ensures rx == old(rx) + 1
      ensures tx == old(tx) + if verdict.Drop? then 0 else 1
      ensures dropped == old(dropped) + if verdict.Drop? then 1 else 0
      ensures offloaded == old(offloaded) + if verdict.OffloadAndForward? then {key} else {}
      ensures offloadedFlows == old(offloadedFlows) + if verdict.OffloadAndForward? then 1 else 0
    {
      rx := rx + 1;
      var state := conntrack.Lookup(key, len, now);
      if state == Established && key in offloaded {
        tx := tx + 1;
        return Forward;
      }
      var v := acl.EvaluatePacket(key.tuple);
      if v.action == Deny {
        dropped := dropped + 1;
        return Drop;
      }
      var packets := conntrack.PacketCount(key);
      verdict := ForwardAllowed(key, state, v, packets);
    }

    /** The last steps for a packet the rules let through: offload its flow or not, and send it. */
    method ForwardAllowed(key: FlowKey, state: ConnState, v: Verdict, packets: nat) returns (verdict: PacketVerdict)
      modifies this`offloaded, this`offloadedFlows, this`tx
      ensures tx == old(tx) + 1
      ensures verdict == if ShouldOffload(Settings(), state, v, packets) then OffloadAndForward(key.vni, v.ruleIndex) else Forward
      ensures offloaded == if verdict.OffloadAndForward? then old(offloaded) + {key} else old(offloaded)
      ensures offloadedFlows == if verdict.OffloadAndForward? then old(offloadedFlows) + 1 else old(offloadedFlows)
    {
      verdict := Forward;
      if state == Established && v.offloadEligible && packets >= minPackets {
        offloaded := offloaded + {key};
        offloadedFlows := offloadedFlows + 1;
        verdict := OffloadAndForward(key.vni, v.ruleIndex);
      }
      tx := tx + 1;
    }
  }
}
