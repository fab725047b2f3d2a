/** From the datapath to the hardware: the offload requests of the packet pipeline, served by the
    daemon any number of times, and when the hardware forwards what the rules deny. */
module OffloadPath {
  import opened Prelude
  import opened AclEngine
  import opened Pipeline
  import opened SessionKeys
  import opened Text
  import opened OffloadDaemon
  import PR = PipelineRuns

  const FORWARD := 1

  function FlowOf(key: FlowKey): Flow {
    Flow(key.vni, key.tuple)
  }

  /** The request for a flow: both directions are asked for, whatever the rules say of the other. */
  function RequestFor(key: FlowKey, ruleIndex: Option<nat>, at: real): Request {
    Request(Some(ToSessionKey(FlowOf(key))), FORWARD, true, 0, RuleIdText(ruleIndex), at)
  }

  /** Whether the hardware accepts the two entries of a request. */
  datatype Served = Served(forwardOk: bool, reverseOk: bool)

  datatype System = System(pipe: State, daemon: Daemon)

  /** A packet comes with what becomes of the request it may lead to: lost when `served` is empty, and
      served more than once when the client repeats it. In between the daemon may flush, evict, answer
      queries, and its hardware may begin or cease to fail. */
  datatype Event =
    | Packet(flow: FlowKey, len: nat, at: real, served: seq<Served>)
    | EvictTick(at: real)
    | FlushEvent(criteria: Criteria)
    | EvictSessions(keys: set<string>)
    | QueryEvent(key: string)
    | FaultEvent(faulty: set<nat>)

  function ServeAll(d: Daemon, req: Request, served: seq<Served>): Daemon {
    if served == [] then d
    else
      var last := served[|served| - 1];
      Program(ServeAll(d, req, served[..|served| - 1]), req, last.forwardOk, last.reverseOk)
  }

  function Next(c: Config, s: System, e: Event): System {
    match e
    case Packet(key, len, at, served) =>
      var verdict := VerdictOn(c, s.pipe, key, len, at);
      System(Process(c, s.pipe, key, len, at),
             if verdict.OffloadAndForward? then ServeAll(s.daemon, RequestFor(key, verdict.ruleIndex, at), served) else s.daemon)
    case EvictTick(at) => s.(pipe := Evict(c, s.pipe, at))
    case FlushEvent(criteria) => s.(daemon := Flush(s.daemon, criteria))
    case EvictSessions(keys) => s.(daemon := RemoveKeys(s.daemon, keys))
    case QueryEvent(key) => s.(daemon := Query(s.daemon, key))
    case FaultEvent(faulty) => s.(daemon := s.daemon.(faulty := faulty))
  }

  ghost predicate IsRun(c: Config, states: seq<System>, events: seq<Event>) {
    && |states| == |events| + 1
    && states[0] == System(State(map[], {}, 0, 0, 0, 0), START)
    && forall i :: 0 <= i < |events| ==> states[i + 1] == Next(c, states[i], events[i])
  }

  // ---------------------------------------------------------------- the invariant

  lemma {:induction false} ServeAllKeepsInv(d: Daemon, req: Request, served: seq<Served>)
    requires OffloadDaemon.Inv(d)
    ensures OffloadDaemon.Inv(ServeAll(d, req, served))
  {
    if served != [] {
      var last := served[|served| - 1];
      ServeAllKeepsInv(d, req, served[..|served| - 1]);
      ProgramKeepsInv(ServeAll(d, req, served[..|served| - 1]), req, last.forwardOk, last.reverseOk);
    }
  }

  ghost predicate SystemInv(c: Config, s: System) {
    PR.Inv(c, s.pipe) && OffloadDaemon.Inv(s.daemon)
  }

  lemma StepKeepsInv(c: Config, s: System, e: Event)
    requires SystemInv(c, s)
    ensures SystemInv(c, Next(c, s, e))
  {
    match e
    case Packet(key, len, at, served) =>
      PR.PacketKeepsInv(c, s.pipe, key, len, at);
      ServeAllKeepsInv(s.daemon, RequestFor(key, Evaluate(c.rules, key.tuple).ruleIndex, at), served);
    case EvictTick(_) =>
    case FlushEvent(criteria) => RemoveKeysKeepsInv(s.daemon, SelectedKeys(s.daemon.table, criteria));
    case EvictSessions(keys) => RemoveKeysKeepsInv(s.daemon, keys);
    case QueryEvent(_) =>
    case FaultEvent(_) =>
  }

  lemma {:induction false} RunKeepsInv(c: Config, states: seq<System>, events: seq<Event>, i: nat)
    requires IsRun(c, states, events) && i < |states|
    ensures SystemInv(c, states[i])
  {
    if i > 0 {
      RunKeepsInv(c, states, events, i - 1);
      StepKeepsInv(c, states[i - 1], events[i - 1]);
    }
  }

  // ---------------------------------------------------------------- what the hardware forwards

  /** The key names the flow: its network, the texts of its two addresses, its ports, and a protocol
      number that TCP, UDP and ICMP have to themselves and all others share. */
  ghost predicate Names(key: SessionKey, f: Flow) {
    && key.vni == f.vni
    && key.srcIp == DottedQuad(f.tuple.srcIp) && key.dstIp == DottedQuad(f.tuple.dstIp)
    && key.srcPort == f.tuple.srcPort && key.dstPort == f.tuple.dstPort
    && key.protocol == if f.tuple.protocol == 6 then 1 else if f.tuple.protocol == 17 then 2
                       else if f.tuple.protocol == 1 then 3 else 0
  }

  lemma NamesExactly(key: SessionKey, f: Flow)
    ensures Names(key, f) <==> ToSessionKey(f) == key
  {
  }

  /** The hardware entry of this key forwards only flows that the rules do not deny. */
  ghost predicate KeyAllowed(c: Config, key: SessionKey) {
    forall f: Flow :: Names(key, f) ==> Evaluate(c.rules, f.tuple).action != Deny
  }

  ghost predicate Sound(c: Config, d: Daemon) {
    forall h :: h in d.hw ==> KeyAllowed(c, d.hw[h].key)
  }

  lemma SameKeySameFlow(f: Flow, g: Flow)
    ensures ToSessionKey(f) == ToSessionKey(g) <==>
              g == f.(tuple := f.tuple.(protocol := g.tuple.protocol))
              && WireProtocol(f.tuple.protocol) == WireProtocol(g.tuple.protocol)
  {
    if ToSessionKey(f) == ToSessionKey(g) {
      FlowStringsCollideExactly(f, g);
    }
  }

  /** For TCP, UDP and ICMP the entry stands for one flow; for other protocols also for the flows that
      differ in the protocol only. */
  lemma KeyAllowedExactly(c: Config, f: Flow)
    requires Supported(f)
    ensures KeyAllowed(c, ToSessionKey(f)) <==> Evaluate(c.rules, f.tuple).action != Deny
  {
    NamesExactly(ToSessionKey(f), f);
    forall g: Flow | Names(ToSessionKey(f), g)
      ensures g == f
    {
      NamesExactly(ToSessionKey(f), g);
      SameKeySameFlow(g, f);
    }
  }

  /** Whether the hardware is left with the forward entry: it was accepted, and not rolled back. */
  predicate ForwardStays(d: Daemon, one: Served) {
    one.forwardOk && (one.reverseOk || d.nextHandle in d.faulty)
  }

  /** Serving one request keeps the hardware sound exactly when the entries it leaves are allowed. */
  lemma ProgramStaysSoundExactly(c: Config, d: Daemon, req: Request, one: Served)
    requires OffloadDaemon.Inv(d) && Sound(c, d) && req.key.Some? && req.bidirectional
    ensures Sound(c, Program(d, req, one.forwardOk, one.reverseOk)) <==>
      && (ForwardStays(d, one) ==> KeyAllowed(c, req.key.value))
      && (one.forwardOk && one.reverseOk ==> KeyAllowed(c, ReverseKey(req.key.value)))
  {
    var d', h := Program(d, req, one.forwardOk, one.reverseOk), d.nextHandle;
    assert h !in d.hw && h + 1 !in d.hw;
    if ForwardStays(d, one) {
      assert h in d'.hw && d'.hw[h].key == req.key.value;
    }
    if one.forwardOk && one.reverseOk {
      assert h + 1 in d'.hw && d'.hw[h + 1].key == ReverseKey(req.key.value);
    }
    forall x | x in d.hw
      ensures x in d'.hw && d'.hw[x] == d.hw[x]
    {
    }
  }

  /** Some serving of the request was accepted in full. */
  predicate SomeAccepted(served: seq<Served>) {
    exists i :: 0 <= i < |served| && served[i].forwardOk && served[i].reverseOk
  }

  /** Some serving leaves the forward entry in the hardware. */
  predicate LeavesForward(d: Daemon, req: Request, served: seq<Served>) {
    if served == [] then false
    else
      var front, last := served[..|served| - 1], served[|served| - 1];
      LeavesForward(d, req, front) || ForwardStays(ServeAll(d, req, front), last)
  }

  lemma {:induction false} ServeAllStaysSoundExactly(c: Config, d: Daemon, req: Request, served: seq<Served>)
    requires OffloadDaemon.Inv(d) && Sound(c, d) && req.key.Some? && req.bidirectional
    ensures Sound(c, ServeAll(d, req, served)) <==>
      && (LeavesForward(d, req, served) ==> KeyAllowed(c, req.key.value))
      && (SomeAccepted(served) ==> KeyAllowed(c, ReverseKey(req.key.value)))
  {
    if served != [] {
      var front, last := served[..|served| - 1], served[|served| - 1];
      ServeAllStaysSoundExactly(c, d, req, front);
      ServeAllKeepsInv(d, req, front);
      SomeAcceptedStep(served);
      if Sound(c, ServeAll(d, req, front)) {
        ProgramStaysSoundExactly(c, ServeAll(d, req, front), req, last);
      } else {
        UnsoundStays(c, ServeAll(d, req, front), req, last);
      }
    }
  }

  lemma SomeAcceptedStep(served: seq<Served>)
    requires served != []
    ensures var front, last := served[..|served| - 1], served[|served| - 1];
      SomeAccepted(served) <==> SomeAccepted(front) || (last.forwardOk && last.reverseOk)
  {
    var front, last := served[..|served| - 1], served[|served| - 1];
    if SomeAccepted(front) {
      var i :| 0 <= i < |front| && front[i].forwardOk && front[i].reverseOk;
      assert served[i] == front[i];
    }
    if SomeAccepted(served) {
      var i :| 0 <= i < |served| && served[i].forwardOk && served[i].reverseOk;
      assert i < |front| ==> front[i] == served[i];
    }
  }

  /** Serving a request takes no older entry out. */
  lemma UnsoundStays(c: Config, d: Daemon, req: Request, one: Served)
    requires OffloadDaemon.Inv(d) && !Sound(c, d)
    ensures !Sound(c, Program(d, req, one.forwardOk, one.reverseOk))
  {
    var h :| h in d.hw && !KeyAllowed(c, d.hw[h].key);
    assert h < d.nextHandle;
    assert h in Program(d, req, one.forwardOk, one.reverseOk).hw;
  }

  // ---------------------------------------------------------------- over runs

  /** If the event offloads a flow, the rules allow what the hardware keeps of the request: the key of
      the flow where it keeps the forward entry, and the reversed one where it accepts both. */
  ghost predicate OffloadsAllowed(c: Config, s: System, e: Event) {
    e.Packet? && VerdictOn(c, s.pipe, e.flow, e.len, e.at).OffloadAndForward? ==>
      var key := ToSessionKey(FlowOf(e.flow));
      var req := RequestFor(e.flow, VerdictOn(c, s.pipe, e.flow, e.len, e.at).ruleIndex, e.at);
      && (LeavesForward(s.daemon, req, e.served) ==> KeyAllowed(c, key))
      && (SomeAccepted(e.served) ==> KeyAllowed(c, ReverseKey(key)))
  }

  lemma RemovalStaysSound(c: Config, d: Daemon, keys: set<string>)
    requires Sound(c, d)
    ensures Sound(c, RemoveKeys(d, keys))
  {
    var d' := RemoveKeys(d, keys);
    assert forall h :: h in d'.hw ==> h in d.hw && d'.hw[h] == d.hw[h];
  }

  lemma QueryStaysSound(c: Config, d: Daemon, key: string)
    requires Sound(c, d)
    ensures Sound(c, Query(d, key))
  {
    var d' := Query(d, key);
    assert forall h :: h in d'.hw ==> h in d.hw && d'.hw[h].key == d.hw[h].key;
  }

  /** An offloaded flow is one the rules allow. */
  lemma OffloadedIsAllowed(c: Config, s: State, key: FlowKey, len: nat, at: real)
    requires VerdictOn(c, s, key, len, at).OffloadAndForward?
    ensures Evaluate(c.rules, key.tuple).action != Deny
  {
  }

  /** One event keeps the hardware sound exactly when it leaves no entry that the rules do not allow. */
  lemma StaysSoundExactly(c: Config, s: System, e: Event)
    requires SystemInv(c, s) && Sound(c, s.daemon)
    ensures Sound(c, Next(c, s, e).daemon) <==> OffloadsAllowed(c, s, e)
  {
    match e
    case Packet(key, len, at, served) =>
      var verdict := VerdictOn(c, s.pipe, key, len, at);
      if verdict.OffloadAndForward? {
        ServeAllStaysSoundExactly(c, s.daemon, RequestFor(key, verdict.ruleIndex, at), served);
      }
    case EvictTick(_) =>
    case FlushEvent(criteria) => RemovalStaysSound(c, s.daemon, SelectedKeys(s.daemon.table, criteria));
    case EvictSessions(keys) => RemovalStaysSound(c, s.daemon, keys);
    case QueryEvent(key) => QueryStaysSound(c, s.daemon, key);
    case FaultEvent(_) =>
  }

  ghost predicate SoundUpTo(c: Config, states: seq<System>, i: nat)
    requires i < |states|
  {
    forall j :: 0 <= j <= i ==> Sound(c, states[j].daemon)
  }

  ghost predicate AllowedUpTo(c: Config, states: seq<System>, events: seq<Event>, i: nat)
    requires |states| == |events| + 1 && i <= |events|
  {
    forall j :: 0 <= j < i ==> OffloadsAllowed(c, states[j], events[j])
  }

  lemma SoundUpToStep(c: Config, states: seq<System>, i: nat)
    requires 0 < i < |states|
    ensures SoundUpTo(c, states, i) <==> SoundUpTo(c, states, i - 1) && Sound(c, states[i].daemon)
    ensures SoundUpTo(c, states, i - 1) ==> Sound(c, states[i - 1].daemon)
  {
  }

  /** Up to any point of a run the hardware never held an entry for a flow the rules deny, exactly when
      every offload before left only entries that the rules allow. */
  lemma {:induction false} HardwareFollowsRulesExactly(c: Config, states: seq<System>, events: seq<Event>, i: nat)
    requires IsRun(c, states, events) && i < |states|
    ensures SoundUpTo(c, states, i) <==> AllowedUpTo(c, states, events, i)
  {
    if i > 0 {
      HardwareFollowsRulesExactly(c, states, events, i - 1);
      RunKeepsInv(c, states, events, i - 1);
      SoundUpToStep(c, states, i);
      if SoundUpTo(c, states, i - 1) {
        StaysSoundExactly(c, states[i - 1], events[i - 1]);
      }
    }
  }

  /** In terms of the rules: offloading a TCP, UDP or ICMP flow is allowed exactly when the hardware does
      not accept the request or the rules do not deny the reversed tuple. */
  lemma OffloadsAllowedExactly(c: Config, s: System, e: Event)
    requires e.Packet? && Supported(FlowOf(e.flow)) && VerdictOn(c, s.pipe, e.flow, e.len, e.at).OffloadAndForward?
    ensures OffloadsAllowed(c, s, e) <==>
      (SomeAccepted(e.served) ==> Evaluate(c.rules, ReverseFlow(FlowOf(e.flow)).tuple).action != Deny)
  {
    OffloadedIsAllowed(c, s.pipe, e.flow, e.len, e.at);
    KeyAllowedExactly(c, FlowOf(e.flow));
    ReverseKeyIsReverseFlow(FlowOf(e.flow));
    KeyAllowedExactly(c, ReverseFlow(FlowOf(e.flow)));
  }

  // ---------------------------------------------------------------- what a session says

  /** The session is one direction of the flow, is forwarded, and names the rule that decides the flow. */
  ghost predicate SessionOf(c: Config, e: Entry, key: FlowKey) {
    var i := Evaluate(c.rules, key.tuple).ruleIndex;
    && i.Some? && e.ruleId == "rule_" + Decimal(i.value) && e.action == 1 && e.vni == key.vni
    && (Names(e.key, FlowOf(key)) || Names(e.key, ReverseFlow(FlowOf(key))))
  }

  /** Every session belongs to a flow that was offloaded. */
  ghost predicate SessionsOfOffloaded(c: Config, table: Sessions, offloaded: set<FlowKey>) {
    forall k :: k in table ==> exists f :: f in offloaded && SessionOf(c, table[k], f)
  }

  lemma ProgramMakesSessionsOf(c: Config, d: Daemon, key: FlowKey, at: real, one: Served, offloaded: set<FlowKey>)
    requires SessionsOfOffloaded(c, d.table, offloaded) && key in offloaded && Evaluate(c.rules, key.tuple).action != Deny
    ensures var req := RequestFor(key, Evaluate(c.rules, key.tuple).ruleIndex, at);
      SessionsOfOffloaded(c, Program(d, req, one.forwardOk, one.reverseOk).table, offloaded)
  {
    var req, sk := RequestFor(key, Evaluate(c.rules, key.tuple).ruleIndex, at), ToSessionKey(FlowOf(key));
    ReplyMeans(d, req, one.forwardOk, one.reverseOk);
    if ProgramReply(d, req, one.forwardOk, one.reverseOk).Programmed? {
      ProgramMeans(d, req, sk);
      NamesExactly(sk, FlowOf(key));
      NamesExactly(ReverseKey(sk), ReverseFlow(FlowOf(key)));
      ReverseKeyIsReverseFlow(FlowOf(key));
      var h := d.nextHandle;
      assert SessionOf(c, Entry(h, sk.vni, sk, 1, true, Some(h + 1), req.ruleId, at), key);
      assert SessionOf(c, Entry(h + 1, sk.vni, ReverseKey(sk), 1, true, Some(h), req.ruleId, at), key);
    }
  }

  lemma {:induction false} ServeAllMakesSessionsOf(
    c: Config, d: Daemon, key: FlowKey, at: real, served: seq<Served>, offloaded: set<FlowKey>)
    requires SessionsOfOffloaded(c, d.table, offloaded) && key in offloaded && Evaluate(c.rules, key.tuple).action != Deny
    ensures var req := RequestFor(key, Evaluate(c.rules, key.tuple).ruleIndex, at);
      SessionsOfOffloaded(c, ServeAll(d, req, served).table, offloaded)
  {
    if served != [] {
      var front, last := served[..|served| - 1], served[|served| - 1];
      ServeAllMakesSessionsOf(c, d, key, at, front, offloaded);
      ProgramMakesSessionsOf(c, ServeAll(d, RequestFor(key, Evaluate(c.rules, key.tuple).ruleIndex, at), front), key, at, last, offloaded);
    }
  }

  lemma FewerSessions(c: Config, table: Sessions, smaller: Sessions, offloaded: set<FlowKey>, more: set<FlowKey>)
    requires SessionsOfOffloaded(c, table, offloaded) && offloaded <= more
    requires forall k :: k in smaller ==> k in table && smaller[k] == table[k]
    ensures SessionsOfOffloaded(c, smaller, more)
  {
    forall k | k in smaller
      ensures exists f :: f in more && SessionOf(c, smaller[k], f)
    {
      var f :| f in offloaded && SessionOf(c, table[k], f);
      assert f in more;
    }
  }

  lemma StepKeepsSessions(c: Config, s: System, e: Event)
    requires SessionsOfOffloaded(c, s.daemon.table, s.pipe.offloaded)
    ensures SessionsOfOffloaded(c, Next(c, s, e).daemon.table, Next(c, s, e).pipe.offloaded)
  {
    var t := Next(c, s, e);
    if e.Packet? && VerdictOn(c, s.pipe, e.flow, e.len, e.at).OffloadAndForward? {
      OffloadedIsAllowed(c, s.pipe, e.flow, e.len, e.at);
      FewerSessions(c, s.daemon.table, s.daemon.table, s.pipe.offloaded, t.pipe.offloaded);
      ServeAllMakesSessionsOf(c, s.daemon, e.flow, e.at, e.served, t.pipe.offloaded);
    } else {
      FewerSessions(c, s.daemon.table, t.daemon.table, s.pipe.offloaded, t.pipe.offloaded);
    }
  }

  /** In every run each session of the daemon is one direction of a flow the datapath offloaded, and its
      rule id names the rule that decides that flow: flushing by rule takes the flows of that rule. */
  lemma {:induction false} SessionsNameTheirRule(c: Config, states: seq<System>, events: seq<Event>, i: nat)
    requires IsRun(c, states, events) && i < |states|
    ensures SessionsOfOffloaded(c, states[i].daemon.table, states[i].pipe.offloaded)
  {
    if i > 0 {
      SessionsNameTheirRule(c, states, events, i - 1);
      StepKeepsSessions(c, states[i - 1], events[i - 1]);
    }
  }

  // ---------------------------------------------------------------- a one-way rule

  /** One rule, which allows TCP to port 443 and nothing else. */
  const TO_443 := Rule("web", 10, None, None, None, Some(PortRange(443, 443)), Some(6), Allow, true)

  const WEB := FiveTuple(1, 2, 5000, 443, 6)

  lemma OneWayVerdicts(c: Config)
    requires c.rules == [TO_443]
    ensures Evaluate(c.rules, WEB) == Verdict(Allow, true, Some(0))
    ensures Evaluate(c.rules, ReverseFlow(Flow(7, WEB)).tuple).action == Deny
  {
    assert c.rules[0] == TO_443 && c.rules[1..] == [];
  }

  /** Two packets to port 443 offload the flow, and the hardware then forwards the packets coming back,
      which the rules deny. */
  lemma OneWayRuleIsOpenedBothWays(idle: real) returns (states: seq<System>, events: seq<Event>)
    ensures var c := Config([TO_443], 0, idle);
      && IsRun(c, states, events) && |events| == 2 && !Sound(c, states[2].daemon)
  {
    OneWayVerdicts(Config([TO_443], 0, idle));
    states, events := DeniedReverseIsOpened(Config([TO_443], 0, idle), FlowKey(7, WEB));
  }

  lemma DeniedReverseIsOpened(c: Config, key: FlowKey) returns (states: seq<System>, events: seq<Event>)
    requires c.minPackets == 0 && Supported(FlowOf(key)) && Evaluate(c.rules, key.tuple) == Verdict(Allow, true, Some(0))
    requires Evaluate(c.rules, ReverseFlow(FlowOf(key)).tuple).action == Deny
    ensures IsRun(c, states, events) && |events| == 2 && !Sound(c, states[2].daemon)
  {
    events := [Packet(key, 100, 1.0, []), Packet(key, 100, 2.0, [Served(true, true)])];
    var s0 := System(State(map[], {}, 0, 0, 0, 0), START);
    var s1 := Next(c, s0, events[0]);
    states := [s0, s1, Next(c, s1, events[1])];
    PipeAfterTwo(c, s0, s1, key);
    OffloadsAllowedExactly(c, s1, events[1]);
    RunKeepsInv(c, states, events, 1);
    StaysSoundExactly(c, s1, events[1]);
  }

  lemma PipeAfterTwo(c: Config, s0: System, s1: System, key: FlowKey)
    requires s0.pipe == State(map[], {}, 0, 0, 0, 0) && s0.daemon == START
    requires s1 == Next(c, s0, Packet(key, 100, 1.0, [])) && c.minPackets == 0
    requires Evaluate(c.rules, key.tuple) == Verdict(Allow, true, Some(0))
    ensures s1.daemon == START && VerdictOn(c, s1.pipe, key, 100, 2.0).OffloadAndForward?
    ensures SomeAccepted([Served(true, true)])
  {
    assert s1.pipe.entries == map[key := ConnEntry(New, 1, 100, 1.0)];
    assert [Served(true, true)][0] == Served(true, true);
  }
}
