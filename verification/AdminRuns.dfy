/** Whole runs of the admin store, and the store as the object the handlers update in place. */
module AdminRuns {
  import opened Prelude
  import opened AdminStore

  datatype Event =
    | CreateFirewallEvent(req: FirewallRequest, id: string)
    | UpdateEvent(id: string, update: UpdateRequest)
    | DeleteFirewallEvent(id: string)
    | CreatePolicyEvent(firewallId: string, name: string, priority: nat, action: Action, id: string)
    | CreateRuleEvent(policyId: string, spec: RuleSpec, id: string)
    | DeleteRuleEvent(id: string)
    | PushEvent(firewallId: string, expected: nat, desired: seq<DesiredPolicy>, ids: Ids)

  /** Identifiers drawn for new policies and rules are unused. */
  ghost predicate Fresh(s: Store, e: Event) {
    match e
    case CreatePolicyEvent(_, _, _, _, id) => id !in s.policies
    case CreateRuleEvent(_, _, id) => id !in s.rules
    case PushEvent(_, _, desired, ids) => Fits(desired, ids) && FreshIds(s, ids)
    case _ => true
  }

  ghost function Next(s: Store, e: Event): Store
    requires Fresh(s, e)
  {
    match e
    case CreateFirewallEvent(req, id) => CreateFirewall(s, req, id)
    case UpdateEvent(id, req) => Update(s, id, req)
    case DeleteFirewallEvent(id) => DeleteFirewall(s, id)
    case CreatePolicyEvent(firewallId, name, priority, action, id) =>
      CreatePolicy(s, firewallId, name, priority, action, id)
    case CreateRuleEvent(policyId, spec, id) => CreateRule(s, policyId, spec, id)
    case DeleteRuleEvent(id) => DeleteRule(s, id)
    case PushEvent(firewallId, expected, desired, ids) => Push(s, firewallId, expected, desired, ids)
  }

  ghost predicate IsRun(states: seq<Store>, events: seq<Event>) {
    && |states| == |events| + 1
    && states[0] == START
    && forall i :: 0 <= i < |events| ==> Fresh(states[i], events[i]) && states[i + 1] == Next(states[i], events[i])
  }

  lemma PushKeepsInv(s: Store, firewallId: string, expected: nat, desired: seq<DesiredPolicy>, ids: Ids)
    requires Inv(s) && Fits(desired, ids) && FreshIds(s, ids)
    ensures Inv(Push(s, firewallId, expected, desired, ids))
    ensures Push(s, firewallId, expected, desired, ids).next >= s.next
  {
    if PushOutcome(s, firewallId, expected, desired).Ok? {
      PushInstallsExactly(s, firewallId, expected, desired, ids);
      var t := Push(s, firewallId, expected, desired, ids);
      ClearedIsReady(s, firewallId, desired, ids);
      AddPoliciesExactly(Cleared(s, firewallId), firewallId, desired, ids);
      forall r | r in t.rules
        ensures t.rules[r].policyId in t.policies
      {
        if t.rules[r].policyId in ids.policies {
          assert t.rules[r].policyId in PoliciesOf(t, firewallId);
        }
      }
    }
  }

  lemma StepKeepsInv(s: Store, e: Event)
    requires Inv(s) && Fresh(s, e)
    ensures Inv(Next(s, e)) && Next(s, e).next >= s.next
  {
    if e.PushEvent? {
      PushKeepsInv(s, e.firewallId, e.expected, e.desired, e.ids);
    }
  }

  /** In every reachable state every rule's policy exists, and every firewall's generation was
      drawn from the counter. */
  lemma {:induction false} RunKeepsInv(states: seq<Store>, events: seq<Event>, i: nat)
    requires IsRun(states, events) && i < |states|
    ensures Inv(states[i])
  {
    if i > 0 {
      RunKeepsInv(states, events, i - 1);
      StepKeepsInv(states[i - 1], events[i - 1]);
    }
  }

  // ---------------------------------------------------------------- optimistic concurrency

  /** The event is an update of, or a push to, the firewall at that generation, and succeeds. */
  ghost predicate Succeeds(s: Store, e: Event, firewallId: string, generation: nat) {
    || (e.UpdateEvent? && e.id == firewallId && e.update.generation == generation
        && UpdateOutcome(s, e.id, e.update).Ok?)
    || (e.PushEvent? && e.firewallId == firewallId && e.expected == generation
        && PushOutcome(s, e.firewallId, e.expected, e.desired).Ok?)
  }

  /** The generation is used up: the firewall, if it exists, has left it behind for good. */
  ghost predicate Spent(s: Store, firewallId: string, generation: nat) {
    && generation < s.next
    && (firewallId in s.firewalls ==> s.firewalls[firewallId].generation > generation)
  }

  lemma SuccessSpends(s: Store, e: Event, firewallId: string, generation: nat)
    requires Inv(s) && Fresh(s, e) && Succeeds(s, e, firewallId, generation)
    ensures Spent(Next(s, e), firewallId, generation)
  {
    if e.PushEvent? {
      PushInstallsExactly(s, firewallId, generation, e.desired, e.ids);
      PushKeepsInv(s, firewallId, generation, e.desired, e.ids);
    }
  }

  lemma SpentStays(s: Store, e: Event, firewallId: string, generation: nat)
    requires Inv(s) && Fresh(s, e) && Spent(s, firewallId, generation)
    ensures Spent(Next(s, e), firewallId, generation)
  {
    StepKeepsInv(s, e);
    if e.PushEvent? && PushOutcome(s, e.firewallId, e.expected, e.desired).Ok? {
      PushInstallsExactly(s, e.firewallId, e.expected, e.desired, e.ids);
    }
  }

  lemma {:induction false} SpentForGood(
    states: seq<Store>, events: seq<Event>, i: nat, j: nat, firewallId: string, generation: nat)
    requires IsRun(states, events) && i <= j < |states|
    requires Spent(states[i], firewallId, generation)
    ensures Spent(states[j], firewallId, generation)
    decreases j
  {
    if i < j {
      SpentForGood(states, events, i, j - 1, firewallId, generation);
      RunKeepsInv(states, events, j - 1);
      SpentStays(states[j - 1], events[j - 1], firewallId, generation);
    }
  }

  /** At most one update or push naming a given generation of a firewall ever succeeds, even if
      the firewall is deleted and made anew in between. */
  lemma OneSuccessPerGeneration(
    states: seq<Store>, events: seq<Event>, i: nat, j: nat, firewallId: string, generation: nat)
    requires IsRun(states, events) && i < j < |events|
    requires Succeeds(states[i], events[i], firewallId, generation)
    ensures !Succeeds(states[j], events[j], firewallId, generation)
  {
    RunKeepsInv(states, events, i);
    SuccessSpends(states[i], events[i], firewallId, generation);
    SpentForGood(states, events, i + 1, j, firewallId, generation);
  }

  /** A refused call reports why and changes nothing: the firewall is missing, or is at another
      generation. */
  lemma RefusalIsExact(s: Store, firewallId: string, expected: nat, desired: seq<DesiredPolicy>, ids: Ids)
    requires Fits(desired, ids)
    ensures match PushOutcome(s, firewallId, expected, desired)
      case Ok(generation) =>
        && firewallId in s.firewalls && s.firewalls[firewallId].generation == expected
        && Push(s, firewallId, expected, desired, ids).next == generation + 1
      case NotFound => firewallId !in s.firewalls && Push(s, firewallId, expected, desired, ids) == s
      case Conflict(e, a) =>
        && firewallId in s.firewalls && e == expected && a == s.firewalls[firewallId].generation && e != a
        && Push(s, firewallId, expected, desired, ids) == s
  {
    if Guard(s, firewallId, expected).None? {
      AddPoliciesCounts(Cleared(s, firewallId), firewallId, desired, ids);
    }
  }

  lemma {:induction false} AddPoliciesCounts(s: Store, firewallId: string, desired: seq<DesiredPolicy>, ids: Ids)
    requires Fits(desired, ids)
    ensures AddPolicies(s, firewallId, desired, ids).next == s.next + |desired|
  {
    if desired != [] {
      var n := |desired| - 1;
      AddPoliciesCounts(s, firewallId, desired[..n], Ids(ids.policies[..n], ids.rules[..n]));
    }
  }

  // ---------------------------------------------------------------- policies without a firewall

  /** Every policy's firewall exists. */
  ghost predicate Rooted(s: Store) {
    forall p :: p in s.policies ==> s.policies[p].firewallId in s.firewalls
  }

  /** The event deletes a firewall that has policies. */
  ghost predicate Uproots(s: Store, e: Event) {
    e.DeleteFirewallEvent? && PoliciesOf(s, e.id) != {}
  }

  lemma PushStaysRooted(s: Store, firewallId: string, expected: nat, desired: seq<DesiredPolicy>, ids: Ids)
    requires Inv(s) && Rooted(s) && Fits(desired, ids) && FreshIds(s, ids)
    ensures Rooted(Push(s, firewallId, expected, desired, ids))
  {
    if PushOutcome(s, firewallId, expected, desired).Ok? {
      PushInstallsExactly(s, firewallId, expected, desired, ids);
      var t := Push(s, firewallId, expected, desired, ids);
      forall p | p in t.policies
        ensures t.policies[p].firewallId in t.firewalls
      {
        if p in ids.policies {
          assert p in PoliciesOf(t, firewallId);
        } else {
          assert t.policies[p] == s.policies[p];
        }
      }
    }
  }

  lemma DeleteFirewallUproots(s: Store, id: string)
    requires Rooted(s)
    ensures Rooted(DeleteFirewall(s, id)) <==> PoliciesOf(s, id) == {}
  {
    var t := DeleteFirewall(s, id);
    forall p
      ensures p in PoliciesOf(s, id) <==> p in t.policies && t.policies[p].firewallId !in t.firewalls
    {
    }
  }

  /** One event keeps every policy's firewall in existence exactly when it does not delete a firewall
      that has policies. */
  lemma StaysRootedExactly(s: Store, e: Event)
    requires Inv(s) && Fresh(s, e) && Rooted(s)
    ensures Rooted(Next(s, e)) <==> !Uproots(s, e)
  {
    match e
    case DeleteFirewallEvent(id) => DeleteFirewallUproots(s, id);
    case PushEvent(firewallId, expected, desired, ids) => PushStaysRooted(s, firewallId, expected, desired, ids);
    case _ =>
  }

  ghost predicate RootedUpTo(states: seq<Store>, i: nat)
    requires i < |states|
  {
    forall j :: 0 <= j <= i ==> Rooted(states[j])
  }

  lemma RootedUpToStep(states: seq<Store>, i: nat)
    requires 0 < i < |states|
    ensures RootedUpTo(states, i) <==> RootedUpTo(states, i - 1) && Rooted(states[i])
    ensures RootedUpTo(states, i - 1) ==> Rooted(states[i - 1])
  {
  }

  /** Up to any point of a run every policy's firewall existed, exactly when no firewall that had policies
      was deleted before. */
  lemma {:induction false} RunRootedExactly(states: seq<Store>, events: seq<Event>, i: nat)
    requires IsRun(states, events) && i < |states|
    ensures RootedUpTo(states, i) <==> forall j :: 0 <= j < i ==> !Uproots(states[j], events[j])
  {
    if i == 0 {
      assert Rooted(states[0]);
    } else {
      RunRootedExactly(states, events, i - 1);
      RunKeepsInv(states, events, i - 1);
      RootedUpToStep(states, i);
      if RootedUpTo(states, i - 1) {
        StaysRootedExactly(states[i - 1], events[i - 1]);
      }
    }
  }

  /** A firewall with one policy is deleted, and the policy stays. */
  lemma DeletedFirewallKeepsPolicy(req: FirewallRequest, name: string, priority: nat, action: Action)
    returns (states: seq<Store>, events: seq<Event>)
    ensures IsRun(states, events) && |events| == 3
    ensures states[3].firewalls == map[] && states[3].policies.Keys == {"p"} && !Rooted(states[3])
  {
    events := [CreateFirewallEvent(req, "f"), CreatePolicyEvent("f", name, priority, action, "p"), DeleteFirewallEvent("f")];
    var s1 := Next(START, events[0]);
    var s2 := Next(s1, events[1]);
    states := [START, s1, s2, Next(s2, events[2])];
    assert "p" in states[3].policies;
  }

  // ---------------------------------------------------------------- the object

  class AppStore {
    var firewalls: map<string, Firewall>
    var policies: map<string, Policy>
    var rules: map<string, Rule>
    var generation: nat

    ghost function View(): Store
      reads this
    {
      Store(firewalls, policies, rules, generation)
    }

    constructor ()
      ensures View() == START
    {
      firewalls, policies, rules, generation := map[], map[], map[], 1;
    }

    /** Returns the counter's value and then bumps it. */
    method NextGeneration() returns (g: nat)
      modifies this`generation
      ensures g == old(generation) && generation == old(generation) + 1
    {
      g := generation;
      generation := generation + 1;
    }

    method CreateFirewallNow(req: FirewallRequest, id: string)
      modifies this
      ensures View() == CreateFirewall(old(View()), req, id)
      ensures firewalls == old(firewalls)[id := Firewall(id, req.name, req.tenantId, req.vpcId, req.vni,
                                                         req.mode, req.adminState, old(generation))]
      ensures generation == old(generation) + 1 && policies == old(policies) && rules == old(rules)
    {
      var g := NextGeneration();
      firewalls := firewalls[id := Firewall(id, req.name, req.tenantId, req.vpcId, req.vni, req.mode, req.adminState, g)];
    }

    method UpdateFirewall(id: string, req: UpdateRequest) returns (r: Outcome)
      modifies this
      ensures View() == Update(old(View()), id, req)
      ensures r == UpdateOutcome(old(View()), id, req)
      ensures r == NotFound <==> id !in old(firewalls)
      ensures r.Conflict? <==> id in old(firewalls) && old(firewalls)[id].generation != req.generation
      ensures r.Conflict? ==> r.expected == req.generation && r.actual == old(firewalls)[id].generation
      ensures !r.Ok? ==> unchanged(this)
      ensures r.Ok? ==>
        var was := old(firewalls)[id];
        && r.generation == old(generation) && generation == old(generation) + 1
        && firewalls.Keys == old(firewalls).Keys && (forall f :: f in firewalls && f != id ==> firewalls[f] == old(firewalls)[f])
        && (firewalls[id].name == if req.name.Some? then req.name.value else was.name)
        && (firewalls[id].mode == if req.mode.Some? then req.mode.value else was.mode)
        && (firewalls[id].adminState == if req.adminState.Some? then req.adminState.value else was.adminState)
        && firewalls[id].generation == r.generation
        && firewalls[id].id == was.id && firewalls[id].tenantId == was.tenantId
        && firewalls[id].vpcId == was.vpcId && firewalls[id].vni == was.vni
        && policies == old(policies) && rules == old(rules)
    {
      if id !in firewalls {
        return NotFound;
      }
      var fw := firewalls[id];
      if fw.generation != req.generation {
        return Conflict(req.generation, fw.generation);
      }
      if req.name.Some? {
        fw := fw.(name := req.name.value);
      }
      if req.mode.Some? {
        fw := fw.(mode := req.mode.value);
      }
      if req.adminState.Some? {
        fw := fw.(adminState := req.adminState.value);
      }
      var g := NextGeneration();
      firewalls := firewalls[id := fw.(generation := g)];
      return Ok(g);
    }

    /** False when there is no such firewall. */
    method DeleteFirewallNow(id: string) returns (found: bool)
      modifies this
      ensures found == (id in old(firewalls))
      ensures View() == DeleteFirewall(old(View()), id)
      ensures firewalls == old(firewalls) - {id} && unchanged(this`policies, this`rules, this`generation)
    {
      found := id in firewalls;
      firewalls := firewalls - {id};
    }

    /** False when there is no such firewall. */
    method CreatePolicyNow(firewallId: string, name: string, priority: nat, action: Action, id: string)
      returns (found: bool)
      modifies this
      ensures found == (firewallId in old(firewalls))
      ensures View() == CreatePolicy(old(View()), firewallId, name, priority, action, id)
      ensures !found ==> unchanged(this)
      ensures found ==>
        && policies == old(policies)[id := Policy(id, firewallId, name, priority, action, old(generation))]
        && generation == old(generation) + 1 && firewalls == old(firewalls) && rules == old(rules)
    {
      if firewallId !in firewalls {
        return false;
      }
      var g := NextGeneration();
      policies := policies[id := Policy(id, firewallId, name, priority, action, g)];
      return true;
    }

    /** False when there is no such policy. */
    method CreateRuleNow(policyId: string, spec: RuleSpec, id: string) returns (found: bool)
      modifies this
      ensures found == (policyId in old(policies))
      ensures View() == CreateRule(old(View()), policyId, spec, id)
      ensures !found ==> unchanged(this)
      ensures found ==> rules == old(rules)[id := Rule(id, policyId, spec)] && unchanged(this`firewalls, this`policies, this`generation)
    {
      if policyId !in policies {
        return false;
      }
      rules := rules[id := Rule(id, policyId, spec)];
      return true;
    }

    /** False when there is no such rule. */
    method DeleteRuleNow(id: string) returns (found: bool)
      modifies this
      ensures found == (id in old(rules))
      ensures View() == DeleteRule(old(View()), id)
      ensures rules == old(rules) - {id} && unchanged(this`firewalls, this`policies, this`generation)
    {
      found := id in rules;
      rules := rules - {id};
    }

    method Clear(firewallId: string)
      modifies this
      ensures View() == Cleared(old(View()), firewallId)
    {
      var gone := set p | p in policies && policies[p].firewallId == firewallId;
      ghost var under := RulesUnder(View(), gone);
      rules := map r | r in rules && rules[r].policyId !in gone :: rules[r];
      policies := map p | p in policies && policies[p].firewallId != firewallId :: policies[p];
      assert rules == old(rules) - under;
      assert policies == old(policies) - gone;
    }

    method AddDesiredPolicy(firewallId: string, d: DesiredPolicy, id: string, ruleIds: seq<string>)
      requires |ruleIds| == |d.rules|
      modifies this
      ensures View() == AddPolicy(old(View()), firewallId, d, id, ruleIds)
    {
      var g := NextGeneration();
      policies := policies[id := Policy(id, firewallId, d.name, d.priority, d.defaultAction, g)];
      for j := 0 to |d.rules|
        invariant rules == AddRules(old(rules), id, d.rules[..j], ruleIds[..j])
        invariant firewalls == old(firewalls) && generation == old(generation) + 1
        invariant policies == old(policies)[id := Policy(id, firewallId, d.name, d.priority, d.defaultAction, g)]
      {
        assert d.rules[..j + 1][..j] == d.rules[..j] && ruleIds[..j + 1][..j] == ruleIds[..j];
        rules := rules[ruleIds[j] := Rule(ruleIds[j], id, d.rules[j])];
      }
      assert d.rules[..|d.rules|] == d.rules && ruleIds[..|d.rules|] == ruleIds;
    }

    method ApplyDesiredState(firewallId: string, expected: nat, desired: seq<DesiredPolicy>, ids: Ids)
      returns (r: Outcome)
      requires Fits(desired, ids)
      modifies this
      ensures View() == Push(old(View()), firewallId, expected, desired, ids)
      ensures r == PushOutcome(old(View()), firewallId, expected, desired)
      ensures r == NotFound <==> firewallId !in old(firewalls)
      ensures r.Conflict? <==> firewallId in old(firewalls) && old(firewalls)[firewallId].generation != expected
      ensures !r.Ok? ==> View() == old(View())
      ensures r.Ok? ==> r.generation == old(generation) + |desired|
    {
      if firewallId !in firewalls {
        return NotFound;
      }
      if firewalls[firewallId].generation != expected {
        return Conflict(expected, firewalls[firewallId].generation);
      }
      Clear(firewallId);
      ghost var c := View();
      for i := 0 to |desired|
        invariant View() == AddPolicies(c, firewallId, desired[..i], Front(ids, i))
      {
        PrefixStep(desired, ids, i);
        AddDesiredPolicy(firewallId, desired[i], ids.policies[i], ids.rules[i]);
      }
      PrefixWhole(desired, ids);
      AddPoliciesCounts(c, firewallId, desired, ids);
      var g := StampNow(firewallId);
      return Ok(g);
    }

    method StampNow(firewallId: string) returns (g: nat)
      modifies this`firewalls, this`generation
      ensures View() == Stamp(old(View()), firewallId) && g == old(generation)
    {
      g := NextGeneration();
      if firewallId in firewalls {
        firewalls := firewalls[firewallId := firewalls[firewallId].(generation := g)];
      }
    }
  }

  lemma PrefixStep(desired: seq<DesiredPolicy>, ids: Ids, i: nat)
    requires Fits(desired, ids) && i < |desired|
    ensures desired[..i + 1][..i] == desired[..i]
    ensures Front(ids, i + 1).policies[..i] == ids.policies[..i]
    ensures Front(ids, i + 1).rules[..i] == ids.rules[..i]
  {
  }

  lemma PrefixWhole(desired: seq<DesiredPolicy>, ids: Ids)
    requires Fits(desired, ids)
    ensures desired[..|desired|] == desired && Front(ids, |desired|) == ids
  {
  }
}
