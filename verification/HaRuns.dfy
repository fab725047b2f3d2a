/** Two peered nodes and a network that may lose, delay, duplicate and reorder heartbeats:
    what holds over every run. */
module HaRuns {
  import opened Prelude
  import opened HaNode

  datatype NodeId = Left | Right

  function Peer(id: NodeId): NodeId {
    if id == Left then Right else Left
  }

  /** A heartbeat as it is on the wire. */
  datatype Heartbeat = Heartbeat(generation: int, role: string)

  /** `sentByLeft` and `sentByRight` hold every heartbeat ever sent. Nothing is ever taken out:
      delivering a heartbeat late, twice, out of order or never are all the same choice of which
      sent heartbeat to deliver next. */
  datatype System = System(left: Node, right: Node, sentByLeft: set<Heartbeat>, sentByRight: set<Heartbeat>)
  {
    function At(id: NodeId): Node {
      if id == Left then left else right
    }

    function Sent(id: NodeId): set<Heartbeat> {
      if id == Left then sentByLeft else sentByRight
    }

    function Put(id: NodeId, n: Node): System {
      if id == Left then this.(left := n) else this.(right := n)
    }
  }

  datatype Event =
    | Send(id: NodeId)
    | Deliver(id: NodeId, hb: Heartbeat)
    | OperatorPromote(id: NodeId, write: DiskWrite)
    | OperatorDemote(id: NodeId)
    | MonitorTick(id: NodeId, write: DiskWrite)
    | Restart(id: NodeId)

  datatype Timed = Timed(now: real, event: Event)

  /** A heartbeat can only be delivered to the peer of the node that sent it. */
  predicate Enabled(s: System, e: Event) {
    e.Deliver? ==> e.hb in s.Sent(Peer(e.id))
  }

  /** The generations a restart of this node would lose: those it holds but the file does not. */
  function Unwritten(n: Node): int {
    n.generation - LoadGeneration(n.disk)
  }

  /** If the step is a restart, the file gives back the generation that the process held. */
  predicate Persisted(s: System, e: Event) {
    e.Restart? ==> Unwritten(s.At(e.id)) == 0
  }

  function Next(s: System, t: Timed): System {
    match t.event
    case Send(id) =>
      var hb := CurrentHeartbeat(s, id);
      if id == Left then s.(sentByLeft := s.sentByLeft + {hb}) else s.(sentByRight := s.sentByRight + {hb})
    case Deliver(id, hb) => s.Put(id, Hear(s.At(id), t.now, hb.generation, hb.role))
    case OperatorPromote(id, write) => s.Put(id, Promote(s.At(id), write))
    case OperatorDemote(id) => s.Put(id, Demote(s.At(id)))
    case MonitorTick(id, write) => s.Put(id, Tick(s.At(id), t.now, write))
    case Restart(id) => s.Put(id, Boot(true, s.At(id).timeoutMs, s.At(id).hooked, s.At(id).disk))
  }

  ghost predicate Initial(s: System) {
    && s.left == Boot(true, s.left.timeoutMs, s.left.hooked, s.left.disk)
    && s.right == Boot(true, s.right.timeoutMs, s.right.hooked, s.right.disk)
    && s.sentByLeft == {} && s.sentByRight == {}
  }

  ghost predicate IsRun(states: seq<System>, events: seq<Timed>) {
    && |states| == |events| + 1
    && Initial(states[0])
    && (forall i :: 0 <= i < |events| ==> Enabled(states[i], events[i].event))
    && (forall i :: 0 <= i < |events| ==> states[i + 1] == Next(states[i], events[i]))
    && (forall i :: 0 <= i < |events| ==> events[i].now > 0.0)
  }

  /** A run in which no restart loses a generation. */
  ghost predicate IsPersistedRun(states: seq<System>, events: seq<Timed>) {
    && IsRun(states, events)
    && (forall i :: 0 <= i < |events| ==> Persisted(states[i], events[i].event))
  }

  // ---------------------------------------------------------------- the ledger of generations

  ghost predicate PromotedAt(states: seq<System>, k: nat, id: NodeId)
    requires k + 1 < |states|
  {
    states[k].At(id).role != Active && states[k + 1].At(id).role == Active
  }

  /** How often `id` became ACTIVE between states `i` and `j`. */
  ghost function Promotions(states: seq<System>, id: NodeId, i: nat, j: nat): nat
    requires i <= j < |states|
    decreases j - i
  {
    if i == j then 0
    else Promotions(states, id, i, j - 1) + if PromotedAt(states, j - 1, id) then 1 else 0
  }

  /** The generations that restarts of `id` lost between states `i` and `j`. */
  ghost function Lost(states: seq<System>, events: seq<Timed>, id: NodeId, i: nat, j: nat): int
    requires i <= j <= |events| && |states| == |events| + 1
    decreases j - i
  {
    if i == j then 0
    else Lost(states, events, id, i, j - 1)
         + if events[j - 1].event == Restart(id) then Unwritten(states[j - 1].At(id)) else 0
  }

  lemma LedgerStep(s: System, t: Timed, id: NodeId)
    ensures Next(s, t).At(id).generation
         == s.At(id).generation
            + (if s.At(id).role != Active && Next(s, t).At(id).role == Active then 1 else 0)
            - (if t.event == Restart(id) then Unwritten(s.At(id)) else 0)
  {
  }

  /** Over any run, a node's generation is what it was, plus its promotions, minus what its restarts
      lost. */
  lemma {:induction false} GenerationLedger(states: seq<System>, events: seq<Timed>, id: NodeId, i: nat, j: nat)
    requires IsRun(states, events) && i <= j < |states|
    ensures states[j].At(id).generation
         == states[i].At(id).generation + Promotions(states, id, i, j) - Lost(states, events, id, i, j)
    decreases j - i
  {
    if i < j {
      GenerationLedger(states, events, id, i, j - 1);
      LedgerStep(states[j - 1], events[j - 1], id);
    }
  }

  /** Two ACTIVE periods of a node, separated by a moment of not being ACTIVE, carry increasing
      fencing tokens exactly when its restarts in between lost fewer generations than it gained by
      promotions; it reuses its token exactly when they lost as many. */
  lemma TokensIncreaseExactly(
    states: seq<System>, events: seq<Timed>, id: NodeId, i: nat, between: nat, j: nat)
    requires IsRun(states, events) && i <= between <= j < |states|
    requires states[i].At(id).role == Active && states[j].At(id).role == Active
    requires states[between].At(id).role != Active
    ensures Promotions(states, id, i, j) >= 1
    ensures states[i].At(id).generation < states[j].At(id).generation
       <==> Lost(states, events, id, i, j) < Promotions(states, id, i, j)
    ensures states[i].At(id).generation == states[j].At(id).generation
       <==> Lost(states, events, id, i, j) == Promotions(states, id, i, j)
  {
    GenerationLedger(states, events, id, i, j);
    BecomingActiveIsPromotion(states, events, id, between, j);
    PromotionsSplit(states, id, i, between, j);
  }

  lemma {:induction false} PromotionsSplit(states: seq<System>, id: NodeId, i: nat, m: nat, j: nat)
    requires i <= m <= j < |states|
    ensures Promotions(states, id, i, j) == Promotions(states, id, i, m) + Promotions(states, id, m, j)
    decreases j
  {
    if m < j {
      PromotionsSplit(states, id, i, m, j - 1);
    }
  }

  lemma {:induction false} BecomingActiveIsPromotion(
    states: seq<System>, events: seq<Timed>, id: NodeId, i: nat, j: nat)
    requires IsRun(states, events) && i <= j < |states|
    requires states[i].At(id).role != Active && states[j].At(id).role == Active
    ensures Promotions(states, id, i, j) >= 1
    decreases j
  {
    if states[j - 1].At(id).role == Active {
      BecomingActiveIsPromotion(states, events, id, i, j - 1);
    } else {
      assert PromotedAt(states, j - 1, id);
    }
  }

  /** The last promotion of `id` before step `k` and since it last started, if any. */
  ghost function LastPromotion(states: seq<System>, events: seq<Timed>, id: NodeId, k: nat): (r: Option<nat>)
    requires k <= |events| && |states| == |events| + 1
    ensures r.Some? ==> r.value < k && PromotedAt(states, r.value, id)
  {
    if k == 0 || events[k - 1].event == Restart(id) then None
    else if PromotedAt(states, k - 1, id) then Some(k - 1)
    else LastPromotion(states, events, id, k - 1)
  }

  /** What a promotion to generation `g` left unwritten. */
  function UnwrittenBy(g: int, write: DiskWrite): int {
    if write.Written? then 0 else g - LoadGeneration(write.left)
  }

  lemma UnwrittenStep(s: System, t: Timed, id: NodeId)
    ensures var n, n' := s.At(id), Next(s, t).At(id);
      if n.role != Active && n'.role == Active
      then (t.event.OperatorPromote? || t.event.MonitorTick?) && Unwritten(n') == UnwrittenBy(n'.generation, t.event.write)
      else Unwritten(n') == if t.event == Restart(id) then 0 else Unwritten(n)
  {
  }

  /** What a restart loses depends on one write only: that of the last promotion since the process
      started. It loses nothing when there was none or it was written, and otherwise the difference
      to what the failed write left in the file. */
  lemma {:induction false} RestartLosesExactly(states: seq<System>, events: seq<Timed>, id: NodeId, k: nat)
    requires IsRun(states, events) && k < |states|
    ensures var last := LastPromotion(states, events, id, k);
      if last.None? then Unwritten(states[k].At(id)) == 0
      else
        var e := events[last.value].event;
        && (e.OperatorPromote? || e.MonitorTick?)
        && Unwritten(states[k].At(id)) == UnwrittenBy(states[k].At(id).generation, e.write)
        && states[k].At(id).generation == states[last.value + 1].At(id).generation
  {
    if k > 0 {
      RestartLosesExactly(states, events, id, k - 1);
      UnwrittenStep(states[k - 1], events[k - 1], id);
      LedgerStep(states[k - 1], events[k - 1], id);
    }
  }

  // ---------------------------------------------------------------- generations never go back

  /** No heartbeat in flight carries a generation its sender has not reached. */
  ghost predicate NoFutureHeartbeats(s: System) {
    forall id, hb :: hb in s.Sent(id) ==> hb.generation <= s.At(id).generation
  }

  lemma StepKeepsHeartbeats(s: System, t: Timed)
    requires Enabled(s, t.event) && Persisted(s, t.event) && NoFutureHeartbeats(s)
    ensures NoFutureHeartbeats(Next(s, t))
  {
    forall id, hb | hb in Next(s, t).Sent(id)
      ensures hb.generation <= Next(s, t).At(id).generation
    {
      LedgerStep(s, t, id);
    }
  }

  lemma {:induction false} RunHasNoFutureHeartbeats(states: seq<System>, events: seq<Timed>, i: nat)
    requires IsPersistedRun(states, events) && i < |states|
    ensures NoFutureHeartbeats(states[i])
  {
    if i > 0 {
      RunHasNoFutureHeartbeats(states, events, i - 1);
      StepKeepsHeartbeats(states[i - 1], events[i - 1]);
    }
  }

  lemma {:induction false} NothingLost(states: seq<System>, events: seq<Timed>, id: NodeId, i: nat, j: nat)
    requires IsPersistedRun(states, events) && i <= j <= |events|
    ensures Lost(states, events, id, i, j) == 0
    decreases j
  {
    if i < j {
      NothingLost(states, events, id, i, j - 1);
    }
  }

  /** When no restart loses a generation, a node's generation is its count of promotions. */
  lemma GenerationCountsPromotions(states: seq<System>, events: seq<Timed>, id: NodeId, i: nat, j: nat)
    requires IsPersistedRun(states, events) && i <= j < |states|
    ensures states[j].At(id).generation == states[i].At(id).generation + Promotions(states, id, i, j)
  {
    GenerationLedger(states, events, id, i, j);
    NothingLost(states, events, id, i, j);
  }

  // ---------------------------------------------------------------- who yields to a heartbeat

  /** Step `k` is a heartbeat that takes `id` from ACTIVE to STANDBY. */
  ghost predicate HeartbeatDemotes(states: seq<System>, events: seq<Timed>, k: nat, id: NodeId)
    requires k < |events| && |states| == |events| + 1
  {
    && events[k].event.Deliver? && events[k].event.id == id
    && states[k].At(id).role == Active && states[k + 1].At(id).role == Standby
  }

  /** However old the heartbeat, a node only yields to a peer that is really ahead of it. */
  lemma DemotedNodeIsBehind(states: seq<System>, events: seq<Timed>, k: nat, id: NodeId)
    requires IsPersistedRun(states, events) && k < |events|
    requires HeartbeatDemotes(states, events, k, id)
    ensures states[k].At(id).generation < states[k].At(Peer(id)).generation
    ensures states[k + 1].At(id).generation < states[k + 1].At(Peer(id)).generation
    ensures states[k].At(id).hooked ==> states[k + 1].At(id).flushes == states[k].At(id).flushes + 1
  {
    RunHasNoFutureHeartbeats(states, events, k);
    assert states[k + 1] == Next(states[k], events[k]);
    assert Enabled(states[k], events[k].event);
  }

  /** Both nodes can yield in one run only if the one that yielded first was promoted at least
      twice before the other yielded. */
  lemma MutualDemotionNeedsTwoPromotions(
    states: seq<System>, events: seq<Timed>, i: nat, j: nat, id: NodeId)
    requires IsPersistedRun(states, events) && i < j < |events|
    requires HeartbeatDemotes(states, events, i, id)
    requires HeartbeatDemotes(states, events, j, Peer(id))
    ensures Promotions(states, id, i + 1, j) >= 2
  {
    DemotedNodeIsBehind(states, events, i, id);
    DemotedNodeIsBehind(states, events, j, Peer(id));
    assert Peer(Peer(id)) == id;
    GenerationCountsPromotions(states, events, id, i + 1, j);
    GenerationCountsPromotions(states, events, Peer(id), i + 1, j);
  }

  // ---------------------------------------------------------------- split brain

  /** The step neither promotes anyone, nor is an operator demotion or a restart. */
  predicate Calm(s: System, t: Timed) {
    || t.event.Send? || t.event.Deliver?
    || (t.event.MonitorTick? && !TimedOut(s.At(t.event.id), t.now))
  }

  ghost predicate CalmBetween(states: seq<System>, events: seq<Timed>, i: nat, j: nat)
    requires i <= j <= |events| && |states| == |events| + 1
  {
    forall k :: i <= k < j ==> Calm(states[k], events[k])
  }

  /** The heartbeat that node `id` sends in state `s`. */
  function CurrentHeartbeat(s: System, id: NodeId): Heartbeat {
    Heartbeat(s.At(id).generation, RoleText(s.At(id).role))
  }

  lemma CalmStep(s: System, t: Timed, id: NodeId)
    requires Enabled(s, t.event) && NoFutureHeartbeats(s) && Calm(s, t)
    ensures var s' := Next(s, t);
      && s'.At(id).generation == s.At(id).generation
      && (s.At(id).generation > s.At(Peer(id)).generation ==> s'.At(id).role == s.At(id).role)
      && (s.At(id).role == Active && s.At(id).generation == s.At(Peer(id)).generation ==> s'.At(id).role != Standby)
  {
  }

  lemma CalmStepInactive(s: System, t: Timed, id: NodeId)
    requires Calm(s, t) && s.At(id).role != Active
    ensures Next(s, t).At(id).role == s.At(id).role
  {
  }

  lemma {:induction false} CalmRun(states: seq<System>, events: seq<Timed>, i: nat, j: nat, id: NodeId)
    requires IsPersistedRun(states, events) && i <= j <= |events|
    requires states[i].left.role == Active && states[i].right.role == Active
    requires CalmBetween(states, events, i, j)
    ensures var s, s' := states[i], states[j];
      && s'.At(id).generation == s.At(id).generation
      && s'.At(Peer(id)).generation == s.At(Peer(id)).generation
      && (s.At(id).generation > s.At(Peer(id)).generation ==> s'.At(id).role == Active)
      && (s.At(id).generation == s.At(Peer(id)).generation ==> s'.At(id).role != Standby)
    decreases j
  {
    if i < j {
      CalmRun(states, events, i, j - 1, id);
      RunHasNoFutureHeartbeats(states, events, j - 1);
      CalmStep(states[j - 1], events[j - 1], id);
      CalmStep(states[j - 1], events[j - 1], Peer(id));
    }
  }

  lemma {:induction false} CalmRunStaysInactive(
    states: seq<System>, events: seq<Timed>, i: nat, j: nat, id: NodeId)
    requires IsRun(states, events) && i <= j <= |events|
    requires CalmBetween(states, events, i, j)
    requires states[i].At(id).role != Active
    ensures states[j].At(id).role == states[i].At(id).role
    decreases j
  {
    if i < j {
      CalmRunStaysInactive(states, events, i, j - 1, id);
      CalmStepInactive(states[j - 1], events[j - 1], id);
    }
  }

  /** Once the heartbeat its peer sends in state `i` reaches `id`, its role is settled. */
  lemma HeardFromPeer(states: seq<System>, events: seq<Timed>, i: nat, j: nat, k: nat, id: NodeId)
    requires IsPersistedRun(states, events) && i <= k < j <= |events|
    requires states[i].left.role == Active && states[i].right.role == Active
    requires CalmBetween(states, events, i, j)
    requires events[k].event == Deliver(id, CurrentHeartbeat(states[i], Peer(id)))
    ensures var g, h := states[i].At(id).generation, states[i].At(Peer(id)).generation;
      && (g < h ==> states[j].At(id).role != Active)
      && (g == h ==> states[j].At(id).role == Fencing)
  {
    CalmRun(states, events, i, k, id);
    assert states[k + 1] == Next(states[k], events[k]);
    if states[i].At(id).generation <= states[i].At(Peer(id)).generation {
      CalmRunStaysInactive(states, events, k + 1, j, id);
    }
  }

  /** Step `k` delivers to `id` a heartbeat claiming ACTIVE at `id`'s own generation. */
  ghost predicate EqualClaim(states: seq<System>, events: seq<Timed>, k: nat, id: NodeId)
    requires k < |events| && |states| == |events| + 1
  {
    events[k].event == Deliver(id, Heartbeat(states[k].At(id).generation, "ACTIVE"))
  }

  /** Step `k` delivers to `id` a heartbeat claiming ACTIVE at a generation above its own. */
  ghost predicate ClaimAbove(states: seq<System>, events: seq<Timed>, k: nat, id: NodeId)
    requires k < |events| && |states| == |events| + 1
  {
    && events[k].event.Deliver? && events[k].event.id == id
    && events[k].event.hb.role == "ACTIVE" && events[k].event.hb.generation > states[k].At(id).generation
  }

  ghost predicate Claim(states: seq<System>, events: seq<Timed>, k: nat, id: NodeId)
    requires k < |events| && |states| == |events| + 1
  {
    EqualClaim(states, events, k, id) || ClaimAbove(states, events, k, id)
  }

  /** The first step from `i` on, and before `j`, that delivers such a claim. */
  ghost function FirstClaim(states: seq<System>, events: seq<Timed>, i: nat, j: nat, id: NodeId): (r: Option<nat>)
    requires i <= j <= |events| && |states| == |events| + 1
    ensures r.Some? ==> i <= r.value < j && Claim(states, events, r.value, id)
    ensures forall n :: i <= n < (if r.Some? then r.value else j) ==> !Claim(states, events, n, id)
    decreases j
  {
    if i == j then None
    else
      var earlier := FirstClaim(states, events, i, j - 1, id);
      if earlier.None? && Claim(states, events, j - 1, id) then Some(j - 1) else earlier
  }

  /** A claim of its own generation reaches `id` before any claim above. */
  ghost predicate EqualClaimFirst(states: seq<System>, events: seq<Timed>, i: nat, j: nat, id: NodeId)
    requires i <= j <= |events| && |states| == |events| + 1
  {
    exists m :: i <= m < j && EqualClaim(states, events, m, id)
             && forall n :: i <= n < m ==> !ClaimAbove(states, events, n, id)
  }

  /** What a calm step makes of the role of `id`. */
  ghost function CalmRole(states: seq<System>, events: seq<Timed>, k: nat, id: NodeId): Role
    requires k < |events| && |states| == |events| + 1
  {
    if states[k].At(id).role != Active then states[k].At(id).role
    else if EqualClaim(states, events, k, id) then Fencing
    else if ClaimAbove(states, events, k, id) then Standby
    else Active
  }

  lemma CalmStepRole(states: seq<System>, events: seq<Timed>, k: nat, id: NodeId)
    requires |states| == |events| + 1 && k < |events|
    requires states[k + 1] == Next(states[k], events[k]) && Calm(states[k], events[k])
    ensures states[k + 1].At(id).role == CalmRole(states, events, k, id)
  {
  }

  lemma {:induction false} RolesFollowFirstClaim(states: seq<System>, events: seq<Timed>, i: nat, j: nat, id: NodeId)
    requires |states| == |events| + 1 && i <= j <= |events|
    requires forall k :: i <= k < j ==> states[k + 1].At(id).role == CalmRole(states, events, k, id)
    requires states[i].At(id).role == Active
    ensures states[j].At(id).role == RoleAfterClaims(states, events, i, j, id)
    decreases j
  {
    if i < j {
      RolesFollowFirstClaim(states, events, i, j - 1, id);
      assert states[j - 1 + 1].At(id).role == CalmRole(states, events, j - 1, id);
    }
  }

  /** The role that the first claim to reach an ACTIVE node gives it. */
  ghost function RoleAfterClaims(states: seq<System>, events: seq<Timed>, i: nat, j: nat, id: NodeId): Role
    requires i <= j <= |events| && |states| == |events| + 1
  {
    match FirstClaim(states, events, i, j, id)
    case None => Active
    case Some(m) => if EqualClaim(states, events, m, id) then Fencing else Standby
  }

  lemma EqualClaimFirstIsFirst(states: seq<System>, events: seq<Timed>, i: nat, j: nat, id: NodeId)
    requires |states| == |events| + 1 && i <= j <= |events|
    ensures EqualClaimFirst(states, events, i, j, id) <==> RoleAfterClaims(states, events, i, j, id) == Fencing
  {
    var first := FirstClaim(states, events, i, j, id);
    if first.Some? && EqualClaim(states, events, first.value, id) {
      forall n | i <= n < first.value
        ensures !ClaimAbove(states, events, n, id)
      {
        assert !Claim(states, events, n, id);
      }
      assert EqualClaimFirst(states, events, i, j, id);
    }
    if m: nat :| i <= m < j && EqualClaim(states, events, m, id) && forall n :: i <= n < m ==> !ClaimAbove(states, events, n, id) {
      assert Claim(states, events, m, id);
      assert first.Some? && first.value <= m;
    }
  }

  /** In calm steps the role of an ACTIVE node depends on the first ACTIVE claim that reaches it
      from its own generation or above, and on nothing else: its own generation fences it, one
      above sends it to STANDBY, and without such a claim it stays ACTIVE. */
  lemma FirstClaimDecides(states: seq<System>, events: seq<Timed>, i: nat, j: nat, id: NodeId)
    requires IsRun(states, events) && i <= j <= |events|
    requires states[i].At(id).role == Active && CalmBetween(states, events, i, j)
    ensures states[j].At(id).role == RoleAfterClaims(states, events, i, j, id)
    ensures states[j].At(id).role == Fencing <==> EqualClaimFirst(states, events, i, j, id)
  {
    forall k | i <= k < j
      ensures states[k + 1].At(id).role == CalmRole(states, events, k, id)
    {
      CalmStepRole(states, events, k, id);
    }
    RolesFollowFirstClaim(states, events, i, j, id);
    EqualClaimFirstIsFirst(states, events, i, j, id);
  }

  /** The loser of a split brain that has heard the winner ends in STANDBY, except exactly when an
      old heartbeat at its own generation reached it before any above: then it is fenced. */
  lemma LoserStandsByExactly(states: seq<System>, events: seq<Timed>, i: nat, j: nat, k: nat, id: NodeId)
    requires IsPersistedRun(states, events) && i <= k < j <= |events|
    requires states[i].left.role == Active && states[i].right.role == Active
    requires states[i].At(id).generation < states[i].At(Peer(id)).generation
    requires CalmBetween(states, events, i, j)
    requires events[k].event == Deliver(id, CurrentHeartbeat(states[i], Peer(id)))
    ensures states[j].At(id).role == Standby <==> !EqualClaimFirst(states, events, i, j, id)
    ensures states[j].At(id).role == Fencing <==> EqualClaimFirst(states, events, i, j, id)
  {
    HeardFromPeer(states, events, i, j, k, id);
    FirstClaimDecides(states, events, i, j, id);
  }

  lemma OneMoreEvent(states: seq<System>, events: seq<Timed>, t: Timed)
    requires IsPersistedRun(states, events) && t.now > 0.0
    requires Enabled(states[|events|], t.event) && Persisted(states[|events|], t.event)
    ensures IsPersistedRun(states + [Next(states[|events|], t)], events + [t])
  {
  }

  /** The right node is promoted, sends, is demoted and promoted again, and then the left one is
      promoted: a split brain of generations 2 and 3 with a heartbeat of generation 2 under way. */
  lemma StaleSplitBrain(timeoutMs: int, hooked: bool) returns (states: seq<System>, events: seq<Timed>)
    ensures IsPersistedRun(states, events) && |events| == 5
    ensures states[5].left == Promote(Boot(true, timeoutMs, hooked, None), Written)
    ensures states[5].right.role == Active && states[5].right.generation == 3
    ensures states[5].sentByLeft == {} && states[5].sentByRight == {Heartbeat(2, "ACTIVE")}
  {
    var n := Boot(true, timeoutMs, hooked, None);
    var active2 := Promote(n, Written);
    var active3 := Promote(Demote(active2), Written);
    events := [Timed(1.0, OperatorPromote(Right, Written)), Timed(2.0, Send(Right)),
               Timed(3.0, OperatorDemote(Right)), Timed(4.0, OperatorPromote(Right, Written)),
               Timed(5.0, OperatorPromote(Left, Written))];
    states := [System(n, n, {}, {}),
               System(n, active2, {}, {}),
               System(n, active2, {}, {Heartbeat(2, "ACTIVE")}),
               System(n, Demote(active2), {}, {Heartbeat(2, "ACTIVE")}),
               System(n, active3, {}, {Heartbeat(2, "ACTIVE")}),
               System(active2, active3, {}, {Heartbeat(2, "ACTIVE")})];
    assert {} + {Heartbeat(2, "ACTIVE")} == {Heartbeat(2, "ACTIVE")};
  }

  /** A fenced loser: in such a split brain the left node receives the old heartbeat of the right one
      before the new one. */
  lemma LoserIsFenced(timeoutMs: int, hooked: bool) returns (states: seq<System>, events: seq<Timed>)
    ensures IsPersistedRun(states, events) && |events| == 8
    ensures states[5].left.role == Active && states[5].right.role == Active
    ensures states[5].left.generation == 2 && states[5].right.generation == 3
    ensures CalmBetween(states, events, 5, 8)
    ensures events[7].event == Deliver(Left, CurrentHeartbeat(states[5], Right))
    ensures states[8].left.role == Fencing
  {
    var states0, events0 := StaleSplitBrain(timeoutMs, hooked);
    var t5, t6, t7 := Timed(6.0, Send(Right)), Timed(7.0, Deliver(Left, Heartbeat(2, "ACTIVE"))), Timed(8.0, Deliver(Left, Heartbeat(3, "ACTIVE")));
    OneMoreEvent(states0, events0, t5);
    var states1, events1 := states0 + [Next(states0[5], t5)], events0 + [t5];
    assert Heartbeat(2, "ACTIVE") in states1[6].sentByRight && Heartbeat(3, "ACTIVE") in states1[6].sentByRight;
    OneMoreEvent(states1, events1, t6);
    var states2, events2 := states1 + [Next(states1[6], t6)], events1 + [t6];
    assert states2[7].left.role == Fencing && states2[7].sentByRight == states1[6].sentByRight;
    OneMoreEvent(states2, events2, t7);
    states, events := states2 + [Next(states2[7], t7)], events2 + [t7];
    assert states[5] == states0[5];
  }

  /** Split brain ends once each node has heard what the other says in it, whatever older
      heartbeats arrive in between: the higher generation is the only ACTIVE node left, and equal
      generations leave both fenced. */
  lemma SplitBrainResolves(states: seq<System>, events: seq<Timed>, i: nat, j: nat, k: nat, m: nat)
    requires IsPersistedRun(states, events) && i <= k < j <= |events| && i <= m < j
    requires states[i].left.role == Active && states[i].right.role == Active
    requires CalmBetween(states, events, i, j)
    requires events[k].event == Deliver(Left, CurrentHeartbeat(states[i], Right))
    requires events[m].event == Deliver(Right, CurrentHeartbeat(states[i], Left))
    ensures states[i].left.generation > states[i].right.generation ==>
              states[j].left.role == Active && states[j].right.role != Active
    ensures states[i].left.generation < states[i].right.generation ==>
              states[j].left.role != Active && states[j].right.role == Active
    ensures states[i].left.generation == states[i].right.generation ==>
              states[j].left.role == Fencing && states[j].right.role == Fencing
  {
    HeardFromPeer(states, events, i, j, k, Left);
    HeardFromPeer(states, events, i, j, m, Right);
    CalmRun(states, events, i, j, Left);
    CalmRun(states, events, i, j, Right);
  }

  // ---------------------------------------------------------------- fencing and automatic promotion

  /** Only the operator or a restart takes a node out of FENCING. */
  lemma FencingNeedsOperator(states: seq<System>, events: seq<Timed>, k: nat, id: NodeId)
    requires IsRun(states, events) && k < |events|
    requires states[k].At(id).role == Fencing && states[k + 1].At(id).role != Fencing
    ensures events[k].event.id == id
    ensures events[k].event.OperatorPromote? || events[k].event.OperatorDemote? || events[k].event.Restart?
  {
    assert states[k + 1] == Next(states[k], events[k]);
  }

  /** The last heartbeat delivered to `id` before step `k` and since it last started, if any. */
  ghost function LastDelivery(events: seq<Timed>, id: NodeId, k: nat): (r: Option<nat>)
    requires k <= |events|
    ensures r.Some? ==> r.value < k && events[r.value].event.Deliver? && events[r.value].event.id == id
    ensures r.Some? ==> forall m :: r.value < m < k && events[m].event.id == id ==>
              !events[m].event.Deliver? && !events[m].event.Restart?
  {
    if k == 0 then None
    else if events[k - 1].event.id == id && events[k - 1].event.Deliver? then Some(k - 1)
    else if events[k - 1].event.id == id && events[k - 1].event.Restart? then None
    else LastDelivery(events, id, k - 1)
  }

  lemma ClockStep(s: System, t: Timed, id: NodeId)
    ensures Next(s, t).At(id).timeoutMs == s.At(id).timeoutMs
    ensures Next(s, t).At(id).lastHeartbeat ==
      if t.event.id == id && t.event.Deliver? then t.now
      else if t.event == Restart(id) then 0.0
      else s.At(id).lastHeartbeat
  {
  }

  lemma {:induction false} HeartbeatClock(states: seq<System>, events: seq<Timed>, id: NodeId, k: nat)
    requires IsRun(states, events) && k < |states|
    ensures states[k].At(id).timeoutMs == states[0].At(id).timeoutMs
    ensures states[k].At(id).lastHeartbeat
         == match LastDelivery(events, id, k) case None => 0.0 case Some(j) => events[j].now
  {
    if k > 0 {
      HeartbeatClock(states, events, id, k - 1);
      ClockStep(states[k - 1], events[k - 1], id);
    }
  }

  /** The monitor promotes exactly a STANDBY node that has heard from its peer since it started
      and then heard nothing for the whole timeout. */
  lemma AutoPromotionExactlyAfterSilence(states: seq<System>, events: seq<Timed>, k: nat)
    requires IsRun(states, events) && k < |events| && events[k].event.MonitorTick?
    ensures var id := events[k].event.id;
      PromotedAt(states, k, id) <==>
        && states[k].At(id).role == Standby
        && match LastDelivery(events, id, k)
           case None => false
           case Some(j) => (events[k].now - events[j].now) * 1000.0 >= states[0].At(id).timeoutMs as real
  {
    HeartbeatClock(states, events, events[k].event.id, k);
    assert states[k + 1] == Next(states[k], events[k]);
  }

  // ---------------------------------------------------------------- active periods

  /** When no restart loses a generation, two ACTIVE periods of a node, separated by any moment of not
      being ACTIVE, carry different tokens, the later one the greater. */
  lemma ActivePeriodsIncrease(
    states: seq<System>, events: seq<Timed>, id: NodeId, i: nat, between: nat, j: nat)
    requires IsPersistedRun(states, events) && i <= between <= j < |states|
    requires states[i].At(id).role == Active && states[j].At(id).role == Active
    requires states[between].At(id).role != Active
    ensures states[i].At(id).generation < states[j].At(id).generation
  {
    TokensIncreaseExactly(states, events, id, i, between, j);
    NothingLost(states, events, id, i, j);
  }

  /** A promotion whose write fails, a restart and a second promotion: both ACTIVE periods carry the
      same token. */
  lemma LostWriteReusesToken(timeoutMs: int, hooked: bool) returns (states: seq<System>, events: seq<Timed>)
    ensures IsRun(states, events) && |states| == 4
    ensures states[1].left.role == Active && states[2].left.role != Active && states[3].left.role == Active
    ensures states[1].left.generation == states[3].left.generation
  {
    var n := Boot(true, timeoutMs, hooked, None);
    var lost := Promote(n, Failed(None));
    events := [Timed(1.0, OperatorPromote(Left, Failed(None))), Timed(2.0, Restart(Left)),
               Timed(3.0, OperatorPromote(Left, Written))];
    states := [System(n, n, {}, {}), System(lost, n, {}, {}), System(n, n, {}, {}),
               System(Promote(n, Written), n, {}, {})];
  }

  // ---------------------------------------------------------------- operator and flush

  ghost predicate EntersStandby(states: seq<System>, k: nat, id: NodeId)
    requires k + 1 < |states|
  {
    states[k].At(id).role != Standby && states[k + 1].At(id).role == Standby
  }

  /** How often `id` entered STANDBY before state `k`, restarts aside, since it last started. */
  ghost function DemotionsSinceStart(states: seq<System>, events: seq<Timed>, id: NodeId, k: nat): nat
    requires |states| == |events| + 1 && k <= |events|
  {
    if k == 0 || events[k - 1].event == Restart(id) then 0
    else DemotionsSinceStart(states, events, id, k - 1) + if EntersStandby(states, k - 1, id) then 1 else 0
  }

  lemma FlushStep(s: System, t: Timed, id: NodeId)
    ensures Next(s, t).At(id).hooked == s.At(id).hooked
    ensures Next(s, t).At(id).flushes ==
      if t.event == Restart(id) then 0
      else s.At(id).flushes
           + if s.At(id).hooked && s.At(id).role != Standby && Next(s, t).At(id).role == Standby then 1 else 0
  {
  }

  /** Over any run the callback, if one is set, was called once for every demotion since the node
      started; a node without a callback never flushes. */
  lemma {:induction false} FlushesCountDemotions(states: seq<System>, events: seq<Timed>, id: NodeId, k: nat)
    requires IsRun(states, events) && k < |states|
    ensures states[k].At(id).hooked == states[0].At(id).hooked
    ensures states[k].At(id).flushes
         == if states[0].At(id).hooked then DemotionsSinceStart(states, events, id, k) else 0
  {
    if k > 0 {
      FlushesCountDemotions(states, events, id, k - 1);
      FlushStep(states[k - 1], events[k - 1], id);
    }
  }

  /** A node that left another role for STANDBY has called its callback on the way, if one is set, or
      was restarted. */
  lemma {:induction false} StandbyHasFlushed(states: seq<System>, events: seq<Timed>, id: NodeId, i: nat, j: nat)
    requires IsRun(states, events) && i <= j < |states|
    requires states[i].At(id).role != Standby && states[j].At(id).role == Standby
    requires forall k :: i <= k < j ==> events[k].event != Restart(id)
    ensures states[0].At(id).hooked ==> states[j].At(id).flushes > states[i].At(id).flushes
    decreases j
  {
    FlushesCountDemotions(states, events, id, j - 1);
    FlushesCountDemotions(states, events, id, j);
    if states[j - 1].At(id).role == Standby {
      StandbyHasFlushed(states, events, id, i, j - 1);
    } else {
      FlushesNeverFall(states, events, id, i, j - 1);
    }
  }

  lemma {:induction false} FlushesNeverFall(states: seq<System>, events: seq<Timed>, id: NodeId, i: nat, j: nat)
    requires IsRun(states, events) && i <= j < |states|
    requires forall k :: i <= k < j ==> events[k].event != Restart(id)
    ensures states[j].At(id).flushes >= states[i].At(id).flushes
    decreases j
  {
    if i < j {
      FlushesNeverFall(states, events, id, i, j - 1);
      assert states[j] == Next(states[j - 1], events[j - 1]);
    }
  }

  /** Split brain can happen: both operators promote before either hears from the other, and the
      two nodes then hold the same generation. */
  lemma SplitBrainHappens(timeoutMs: int, hooked: bool) returns (states: seq<System>, events: seq<Timed>)
    ensures IsRun(states, events) && |states| == 3
    ensures states[2].left.role == Active && states[2].right.role == Active
    ensures states[2].left.generation == states[2].right.generation
  {
    var n := Boot(true, timeoutMs, hooked, None);
    var s0 := System(n, n, {}, {});
    events := [Timed(1.0, OperatorPromote(Left, Written)), Timed(2.0, OperatorPromote(Right, Written))];
    var s1 := Next(s0, events[0]);
    states := [s0, s1, Next(s1, events[1])];
  }
}
