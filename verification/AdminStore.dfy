/** The admin store: firewalls, policies and rules under generation numbers, and the bulk push that
    replaces everything below one firewall. Each call is one atomic step. */
module AdminStore {
  import opened Prelude

  datatype Mode = Inline | Tap

  datatype AdminState = Enabled | Disabled

  datatype Action = Allow | Deny | Reject | RateLimit

  datatype Firewall = Firewall(
    id: string, name: string, tenantId: string, vpcId: string, vni: nat,
    mode: Mode, adminState: AdminState, generation: nat)

  datatype Policy = Policy(
    id: string, firewallId: string, name: string, priority: nat, defaultAction: Action, generation: nat)

  datatype RuleSpec = RuleSpec(
    priority: nat, srcCidr: Option<string>, dstCidr: Option<string>,
    srcPorts: Option<(nat, nat)>, dstPorts: Option<(nat, nat)>,
    protocol: Option<string>, action: Action, offloadEligible: bool)

  datatype Rule = Rule(id: string, policyId: string, spec: RuleSpec)

  datatype FirewallRequest = FirewallRequest(
    name: string, tenantId: string, vpcId: string, vni: nat, mode: Mode, adminState: AdminState)

  datatype UpdateRequest = UpdateRequest(
    name: Option<string>, mode: Option<Mode>, adminState: Option<AdminState>, generation: nat)

  datatype DesiredPolicy = DesiredPolicy(name: string, priority: nat, defaultAction: Action, rules: seq<RuleSpec>)

  datatype Outcome = Ok(generation: nat) | NotFound | Conflict(expected: nat, actual: nat)

  datatype Store = Store(
    firewalls: map<string, Firewall>, policies: map<string, Policy>, rules: map<string, Rule>, next: nat)

  const START := Store(map[], map[], map[], 1)

  function Or<T>(o: Option<T>, default: T): T {
    if o.Some? then o.value else default
  }

  // ---------------------------------------------------------------- operations

  function CreateFirewall(s: Store, req: FirewallRequest, id: string): Store {
    s.(firewalls := s.firewalls[id := Firewall(id, req.name, req.tenantId, req.vpcId, req.vni,
                                               req.mode, req.adminState, s.next)],
       next := s.next + 1)
  }

  /** The check every generation-guarded call makes first. */
  function Guard(s: Store, id: string, expected: nat): Option<Outcome> {
    if id !in s.firewalls then Some(NotFound)
    else if s.firewalls[id].generation != expected then Some(Conflict(expected, s.firewalls[id].generation))
    else None
  }

  function Update(s: Store, id: string, req: UpdateRequest): Store {
    if Guard(s, id, req.generation).Some? then s
    else
      var fw := s.firewalls[id];
      s.(firewalls := s.firewalls[id := fw.(name := Or(req.name, fw.name), mode := Or(req.mode, fw.mode),
                                            adminState := Or(req.adminState, fw.adminState), generation := s.next)],
         next := s.next + 1)
  }

  function UpdateOutcome(s: Store, id: string, req: UpdateRequest): Outcome {
    Or(Guard(s, id, req.generation), Ok(s.next))
  }

  function DeleteFirewall(s: Store, id: string): Store {
    s.(firewalls := s.firewalls - {id})
  }

  function CreatePolicy(s: Store, firewallId: string, name: string, priority: nat, action: Action, id: string): Store {
    if firewallId !in s.firewalls then s
    else s.(policies := s.policies[id := Policy(id, firewallId, name, priority, action, s.next)], next := s.next + 1)
  }

  function CreateRule(s: Store, policyId: string, spec: RuleSpec, id: string): Store {
    if policyId !in s.policies then s else s.(rules := s.rules[id := Rule(id, policyId, spec)])
  }

  function DeleteRule(s: Store, id: string): Store {
    s.(rules := s.rules - {id})
  }

  function PoliciesOf(s: Store, firewallId: string): set<string> {
    set p | p in s.policies && s.policies[p].firewallId == firewallId
  }

  function RulesUnder(s: Store, policyIds: set<string>): set<string> {
    set r | r in s.rules && s.rules[r].policyId in policyIds
  }

  /** Everything below the firewall removed. */
  function Cleared(s: Store, firewallId: string): Store {
    var gone := PoliciesOf(s, firewallId);
    s.(policies := s.policies - gone, rules := s.rules - RulesUnder(s, gone))
  }

  /** The fresh identifiers a push draws: one per policy, one per rule of each policy. */
  datatype Ids = Ids(policies: seq<string>, rules: seq<seq<string>>)

  predicate Fits(desired: seq<DesiredPolicy>, ids: Ids) {
    && |ids.policies| == |ids.rules| == |desired|
    && forall i :: 0 <= i < |desired| ==> |ids.rules[i]| == |desired[i].rules|
  }

  function AddRules(rules: map<string, Rule>, policyId: string, specs: seq<RuleSpec>, ids: seq<string>): map<string, Rule>
    requires |ids| == |specs|
  {
    if specs == [] then rules
    else
      var n := |specs| - 1;
      AddRules(rules, policyId, specs[..n], ids[..n])[ids[n] := Rule(ids[n], policyId, specs[n])]
  }

  function AddPolicy(s: Store, firewallId: string, d: DesiredPolicy, id: string, ruleIds: seq<string>): Store
    requires |ruleIds| == |d.rules|
  {
    Store(s.firewalls,
          s.policies[id := Policy(id, firewallId, d.name, d.priority, d.defaultAction, s.next)],
          AddRules(s.rules, id, d.rules, ruleIds),
          s.next + 1)
  }

  function AddPolicies(s: Store, firewallId: string, desired: seq<DesiredPolicy>, ids: Ids): Store
    requires Fits(desired, ids)
  {
    if desired == [] then s
    else
      var n := |desired| - 1;
      AddPolicy(AddPolicies(s, firewallId, desired[..n], Ids(ids.policies[..n], ids.rules[..n])),
                firewallId, desired[n], ids.policies[n], ids.rules[n])
  }

  function Stamp(s: Store, firewallId: string): Store {
    s.(firewalls := if firewallId in s.firewalls
                    then s.firewalls[firewallId := s.firewalls[firewallId].(generation := s.next)] else s.firewalls,
       next := s.next + 1)
  }

  function Push(s: Store, firewallId: string, expected: nat, desired: seq<DesiredPolicy>, ids: Ids): Store
    requires Fits(desired, ids)
  {
    if Guard(s, firewallId, expected).Some? then s
    else Stamp(AddPolicies(Cleared(s, firewallId), firewallId, desired, ids), firewallId)
  }

  function PushOutcome(s: Store, firewallId: string, expected: nat, desired: seq<DesiredPolicy>): Outcome {
    Or(Guard(s, firewallId, expected), Ok(s.next + |desired|))
  }

  // ---------------------------------------------------------------- a push installs exactly what it was given

  ghost predicate DistinctIds(ids: Ids) {
    && Distinct(ids.policies)
    && (forall i :: 0 <= i < |ids.rules| ==> Distinct(ids.rules[i]))
    && (forall i, j :: 0 <= i < j < |ids.rules| ==> Members(ids.rules[i]) !! Members(ids.rules[j]))
  }

  ghost function AllRuleIds(ruleIds: seq<seq<string>>): set<string> {
    set i, id | 0 <= i < |ruleIds| && id in ruleIds[i] :: id
  }

  ghost predicate FreshIds(s: Store, ids: Ids) {
    && DistinctIds(ids)
    && Members(ids.policies) !! s.policies.Keys
    && AllRuleIds(ids.rules) !! s.rules.Keys
  }

  /** `r` is `rules` with one rule per specification added under the given identifiers. */
  ghost predicate RulesAdded(
    rules: map<string, Rule>, r: map<string, Rule>, policyId: string, specs: seq<RuleSpec>, ids: seq<string>)
    requires |ids| == |specs|
  {
    && r.Keys == rules.Keys + Members(ids)
    && (forall k :: k in rules && k !in ids ==> r[k] == rules[k])
    && (forall j :: 0 <= j < |ids| ==> ids[j] in r && r[ids[j]] == Rule(ids[j], policyId, specs[j]))
  }

  lemma RulesAddedStep(
    rules: map<string, Rule>, front: map<string, Rule>, policyId: string,
    specs: seq<RuleSpec>, ids: seq<string>, spec: RuleSpec, id: string)
    requires |ids| == |specs| && id !in ids && RulesAdded(rules, front, policyId, specs, ids)
    ensures RulesAdded(rules, front[id := Rule(id, policyId, spec)], policyId, specs + [spec], ids + [id])
  {
    assert Members(ids + [id]) == Members(ids) + {id};
  }

  lemma {:induction false} AddRulesExactly(rules: map<string, Rule>, policyId: string, specs: seq<RuleSpec>, ids: seq<string>)
    requires |ids| == |specs| && Distinct(ids)
    ensures RulesAdded(rules, AddRules(rules, policyId, specs, ids), policyId, specs, ids)
  {
    if specs != [] {
      var n := |specs| - 1;
      AddRulesExactly(rules, policyId, specs[..n], ids[..n]);
      RulesAddedStep(rules, AddRules(rules, policyId, specs[..n], ids[..n]), policyId, specs[..n], ids[..n], specs[n], ids[n]);
      assert ids == ids[..n] + [ids[n]] && specs == specs[..n] + [specs[n]];
    }
  }

  /** The policies and rules below one firewall, spelled out by identifier. */
  ghost predicate Holds(t: Store, firewallId: string, desired: seq<DesiredPolicy>, ids: Ids)
    requires Fits(desired, ids)
  {
    && (forall i :: 0 <= i < |desired| ==> PolicyHolds(t, firewallId, desired[i], ids.policies[i]))
    && (forall i :: 0 <= i < |desired| ==> RulesHold(t, desired[i], ids.policies[i], ids.rules[i]))
  }

  ghost predicate PolicyHolds(t: Store, firewallId: string, d: DesiredPolicy, id: string) {
    && id in t.policies
    && var p := t.policies[id];
       p.id == id && p.firewallId == firewallId
       && p.name == d.name && p.priority == d.priority && p.defaultAction == d.defaultAction
  }

  /** The rules under the policy are those of the request and no others. */
  ghost predicate RulesHold(t: Store, d: DesiredPolicy, policyId: string, ruleIds: seq<string>)
    requires |ruleIds| == |d.rules|
  {
    && RulesUnder(t, {policyId}) == Members(ruleIds)
    && forall j :: 0 <= j < |ruleIds| ==> ruleIds[j] in t.rules && t.rules[ruleIds[j]] == Rule(ruleIds[j], policyId, d.rules[j])
  }

  /** Nothing but the given identifiers is touched. */
  ghost predicate Untouched(s: Store, t: Store, ids: Ids) {
    && t.policies.Keys == s.policies.Keys + Members(ids.policies)
    && t.rules.Keys == s.rules.Keys + AllRuleIds(ids.rules)
    && (forall p :: p in s.policies ==> t.policies[p] == s.policies[p])
    && (forall r :: r in s.rules ==> t.rules[r] == s.rules[r])
  }

  /** No rule already hangs under an identifier yet to be used for a policy. */
  ghost predicate NoRulesUnder(s: Store, policyIds: seq<string>) {
    RulesUnder(s, Members(policyIds)) == {}
  }

  lemma AddPolicyExactly(s: Store, firewallId: string, d: DesiredPolicy, id: string, ruleIds: seq<string>)
    requires |ruleIds| == |d.rules| && Distinct(ruleIds)
    requires id !in s.policies && Members(ruleIds) !! s.rules.Keys && RulesUnder(s, {id}) == {}
    ensures var t := AddPolicy(s, firewallId, d, id, ruleIds);
      && PolicyHolds(t, firewallId, d, id) && RulesHold(t, d, id, ruleIds)
      && t.policies == s.policies[id := t.policies[id]]
      && t.rules.Keys == s.rules.Keys + Members(ruleIds)
      && (forall r :: r in s.rules ==> t.rules[r] == s.rules[r])
      && (forall r :: r in t.rules && r !in s.rules ==> t.rules[r].policyId == id)
  {
    AddRulesExactly(s.rules, id, d.rules, ruleIds);
    var t := AddPolicy(s, firewallId, d, id, ruleIds);
    forall r | r in t.rules && r !in s.rules
      ensures t.rules[r].policyId == id
    {
      assert r in Members(ruleIds);
    }
    assert forall r :: r in s.rules ==> r !in Members(ruleIds);
    assert forall r :: r in s.rules ==> s.rules[r].policyId != id by {
      assert forall r :: r in s.rules ==> r !in RulesUnder(s, {id});
    }
  }

  /** A policy already in place is left as it is by adding another. */
  lemma AddPolicyKeepsOthers(
    s: Store, firewallId: string, d: DesiredPolicy, id: string, ruleIds: seq<string>,
    other: DesiredPolicy, otherId: string, otherRuleIds: seq<string>)
    requires |ruleIds| == |d.rules| && Distinct(ruleIds) && |otherRuleIds| == |other.rules|
    requires id !in s.policies && Members(ruleIds) !! s.rules.Keys && RulesUnder(s, {id}) == {}
    requires otherId != id && PolicyHolds(s, firewallId, other, otherId) && RulesHold(s, other, otherId, otherRuleIds)
    ensures var t := AddPolicy(s, firewallId, d, id, ruleIds);
      PolicyHolds(t, firewallId, other, otherId) && RulesHold(t, other, otherId, otherRuleIds)
  {
    AddPolicyExactly(s, firewallId, d, id, ruleIds);
    var t := AddPolicy(s, firewallId, d, id, ruleIds);
    assert RulesUnder(t, {otherId}) == RulesUnder(s, {otherId});
  }

  ghost predicate Ready(s: Store, desired: seq<DesiredPolicy>, ids: Ids) {
    Fits(desired, ids) && FreshIds(s, ids) && NoRulesUnder(s, ids.policies)
  }

  function Front(ids: Ids, n: nat): Ids
    requires n <= |ids.policies| == |ids.rules|
  {
    Ids(ids.policies[..n], ids.rules[..n])
  }

  lemma FrontIds(s: Store, desired: seq<DesiredPolicy>, ids: Ids)
    requires desired != [] && Ready(s, desired, ids)
    ensures var n := |desired| - 1;
      && Ready(s, desired[..n], Front(ids, n))
      && ids.policies[n] !in ids.policies[..n]
      && Members(ids.policies) == Members(ids.policies[..n]) + {ids.policies[n]}
      && AllRuleIds(ids.rules) == AllRuleIds(ids.rules[..n]) + Members(ids.rules[n])
      && AllRuleIds(ids.rules[..n]) !! Members(ids.rules[n])
  {
    var n := |desired| - 1;
    assert ids.policies == ids.policies[..n] + [ids.policies[n]];
    assert Members(ids.policies) == Members(ids.policies[..n]) + {ids.policies[n]};
    RuleIdsSplit(ids.rules);
    assert RulesUnder(s, Members(ids.policies[..n])) <= RulesUnder(s, Members(ids.policies));
  }

  lemma RuleIdsSplit(ruleIds: seq<seq<string>>)
    requires ruleIds != []
    requires forall i, j :: 0 <= i < j < |ruleIds| ==> Members(ruleIds[i]) !! Members(ruleIds[j])
    ensures var n := |ruleIds| - 1;
      && AllRuleIds(ruleIds) == AllRuleIds(ruleIds[..n]) + Members(ruleIds[n])
      && AllRuleIds(ruleIds[..n]) !! Members(ruleIds[n])
  {
    var n := |ruleIds| - 1;
    forall id | id in AllRuleIds(ruleIds[..n])
      ensures id !in Members(ruleIds[n])
    {
      var i :| 0 <= i < n && id in ruleIds[..n][i];
      assert id in Members(ruleIds[i]);
    }
    forall id | id in AllRuleIds(ruleIds[..n])
      ensures id in AllRuleIds(ruleIds)
    {
      var i :| 0 <= i < n && id in ruleIds[..n][i];
      assert id in ruleIds[i];
    }
    forall id | id in AllRuleIds(ruleIds)
      ensures id in AllRuleIds(ruleIds[..n]) + Members(ruleIds[n])
    {
      var i :| 0 <= i < |ruleIds| && id in ruleIds[i];
      if i < n {
        assert id in ruleIds[..n][i];
      }
    }
  }

  lemma {:induction false} AddPoliciesExactly(s: Store, firewallId: string, desired: seq<DesiredPolicy>, ids: Ids)
    requires Ready(s, desired, ids)
    ensures var t := AddPolicies(s, firewallId, desired, ids);
      && t.firewalls == s.firewalls && t.next == s.next + |desired|
      && Holds(t, firewallId, desired, ids) && Untouched(s, t, ids)
      && (forall r :: r in t.rules && r !in s.rules ==> t.rules[r].policyId in Members(ids.policies))
  {
    if desired == [] {
      assert AllRuleIds(ids.rules) == {};
    } else {
      var n := |desired| - 1;
      var id, ruleIds := ids.policies[n], ids.rules[n];
      FrontIds(s, desired, ids);
      AddPoliciesExactly(s, firewallId, desired[..n], Front(ids, n));
      var t0 := AddPolicies(s, firewallId, desired[..n], Front(ids, n));
      NothingUnderNext(s, t0, ids, n);
      NextIdsAreFree(s, t0, ids, n);
      HoldsAfterOneMore(t0, firewallId, desired, ids);
      UntouchedAfterOneMore(s, t0, firewallId, desired[n], ids, n);
    }
  }

  lemma NextIdsAreFree(s: Store, t0: Store, ids: Ids, n: nat)
    requires n < |ids.policies| == |ids.rules| && n + 1 == |ids.policies|
    requires FreshIds(s, ids) && Untouched(s, t0, Front(ids, n))
    requires ids.policies[n] !in ids.policies[..n] && AllRuleIds(ids.rules[..n]) !! Members(ids.rules[n])
    requires AllRuleIds(ids.rules) == AllRuleIds(ids.rules[..n]) + Members(ids.rules[n])
    ensures ids.policies[n] !in t0.policies && Members(ids.rules[n]) !! t0.rules.Keys
  {
    assert ids.policies[n] in Members(ids.policies);
  }

  lemma UntouchedAfterOneMore(s: Store, t0: Store, firewallId: string, d: DesiredPolicy, ids: Ids, n: nat)
    requires n < |ids.policies| == |ids.rules| && |ids.rules[n]| == |d.rules| && Distinct(ids.rules[n])
    requires Untouched(s, t0, Front(ids, n))
    requires ids.policies[n] !in t0.policies && Members(ids.rules[n]) !! t0.rules.Keys
    requires RulesUnder(t0, {ids.policies[n]}) == {}
    requires Members(ids.policies) == Members(ids.policies[..n]) + {ids.policies[n]}
    requires AllRuleIds(ids.rules) == AllRuleIds(ids.rules[..n]) + Members(ids.rules[n])
    requires forall r :: r in t0.rules && r !in s.rules ==> t0.rules[r].policyId in Members(ids.policies[..n])
    ensures var t := AddPolicy(t0, firewallId, d, ids.policies[n], ids.rules[n]);
      && Untouched(s, t, ids)
      && forall r :: r in t.rules && r !in s.rules ==> t.rules[r].policyId in Members(ids.policies)
  {
    AddPolicyExactly(t0, firewallId, d, ids.policies[n], ids.rules[n]);
    var t := AddPolicy(t0, firewallId, d, ids.policies[n], ids.rules[n]);
    forall r | r in t.rules && r !in s.rules
      ensures t.rules[r].policyId in Members(ids.policies)
    {
      if r in t0.rules {
        assert t.rules[r] == t0.rules[r];
      }
    }
  }

  lemma NothingUnderNext(s: Store, t: Store, ids: Ids, n: nat)
    requires n < |ids.policies| == |ids.rules|
    requires NoRulesUnder(s, ids.policies) && Untouched(s, t, Front(ids, n))
    requires ids.policies[n] !in ids.policies[..n]
    requires forall r :: r in t.rules && r !in s.rules ==> t.rules[r].policyId in Members(ids.policies[..n])
    ensures RulesUnder(t, {ids.policies[n]}) == {}
  {
    forall r | r in t.rules
      ensures t.rules[r].policyId != ids.policies[n]
    {
      if r in s.rules {
        assert r !in RulesUnder(s, Members(ids.policies));
        assert ids.policies[n] in Members(ids.policies);
      }
    }
  }

  lemma HoldsAfterOneMore(t0: Store, firewallId: string, desired: seq<DesiredPolicy>, ids: Ids)
    requires desired != [] && Fits(desired, ids) && DistinctIds(ids)
    requires var n := |desired| - 1;
      && Holds(t0, firewallId, desired[..n], Front(ids, n))
      && ids.policies[n] !in t0.policies && Members(ids.rules[n]) !! t0.rules.Keys
      && RulesUnder(t0, {ids.policies[n]}) == {}
    ensures var n := |desired| - 1;
      Holds(AddPolicy(t0, firewallId, desired[n], ids.policies[n], ids.rules[n]), firewallId, desired, ids)
  {
    var n := |desired| - 1;
    AddPolicyExactly(t0, firewallId, desired[n], ids.policies[n], ids.rules[n]);
    forall i | 0 <= i < n
      ensures var t := AddPolicy(t0, firewallId, desired[n], ids.policies[n], ids.rules[n]);
        PolicyHolds(t, firewallId, desired[i], ids.policies[i]) && RulesHold(t, desired[i], ids.policies[i], ids.rules[i])
    {
      assert desired[..n][i] == desired[i];
      assert Front(ids, n).policies[i] == ids.policies[i] && Front(ids, n).rules[i] == ids.rules[i];
      AddPolicyKeepsOthers(t0, firewallId, desired[n], ids.policies[n], ids.rules[n],
                           desired[i], ids.policies[i], ids.rules[i]);
    }
  }

  /** Every rule belongs to a policy that exists, and every generation was drawn from the counter. */
  ghost predicate Inv(s: Store) {
    && (forall r :: r in s.rules ==> s.rules[r].policyId in s.policies)
    && (forall f :: f in s.firewalls ==> s.firewalls[f].generation < s.next)
  }

  /** What a push builds before it stamps the firewall. */
  function Built(s: Store, firewallId: string, desired: seq<DesiredPolicy>, ids: Ids): Store
    requires Fits(desired, ids)
  {
    AddPolicies(Cleared(s, firewallId), firewallId, desired, ids)
  }

  ghost predicate OtherPoliciesKept(s: Store, t: Store, firewallId: string, ids: Ids) {
    && (forall p :: p in t.policies && p !in ids.policies <==> p in s.policies && s.policies[p].firewallId != firewallId)
    && (forall p :: p in s.policies && s.policies[p].firewallId != firewallId ==> t.policies[p] == s.policies[p])
  }

  ghost predicate OtherRulesKept(s: Store, t: Store, firewallId: string, ids: Ids)
    requires Inv(s)
  {
    && (forall r :: r in t.rules && t.rules[r].policyId !in ids.policies <==>
                    r in s.rules && s.policies[s.rules[r].policyId].firewallId != firewallId)
    && (forall r :: r in s.rules && s.policies[s.rules[r].policyId].firewallId != firewallId ==>
                    r in t.rules && t.rules[r] == s.rules[r])
  }

  lemma HeldPoliciesAreOwn(t: Store, firewallId: string, desired: seq<DesiredPolicy>, ids: Ids)
    requires Fits(desired, ids) && Holds(t, firewallId, desired, ids)
    ensures forall p :: p in Members(ids.policies) ==> p in t.policies && t.policies[p].firewallId == firewallId
  {
    forall p | p in Members(ids.policies)
      ensures p in t.policies && t.policies[p].firewallId == firewallId
    {
      var i :| 0 <= i < |ids.policies| && ids.policies[i] == p;
      assert PolicyHolds(t, firewallId, desired[i], ids.policies[i]);
    }
  }

  lemma ClearedPolicies(s: Store, firewallId: string)
    ensures var c := Cleared(s, firewallId);
      && (forall p :: p in c.policies <==> p in s.policies && s.policies[p].firewallId != firewallId)
      && (forall p :: p in c.policies ==> c.policies[p] == s.policies[p])
  {
  }

  lemma BuiltPolicies(s: Store, firewallId: string, desired: seq<DesiredPolicy>, ids: Ids)
    requires Inv(s) && Fits(desired, ids) && FreshIds(s, ids)
    ensures var t := Built(s, firewallId, desired, ids);
      && PoliciesOf(t, firewallId) == Members(ids.policies)
      && OtherPoliciesKept(s, t, firewallId, ids)
  {
    var c, t := Cleared(s, firewallId), Built(s, firewallId, desired, ids);
    ClearedIsReady(s, firewallId, desired, ids);
    AddPoliciesExactly(c, firewallId, desired, ids);
    HeldPoliciesAreOwn(t, firewallId, desired, ids);
    ClearedPolicies(s, firewallId);
    PoliciesOverCleared(s, c, t, firewallId, ids);
  }

  lemma PoliciesOverCleared(s: Store, c: Store, t: Store, firewallId: string, ids: Ids)
    requires forall p :: p in c.policies <==> p in s.policies && s.policies[p].firewallId != firewallId
    requires t.policies.Keys == c.policies.Keys + Members(ids.policies) && Members(ids.policies) !! s.policies.Keys
    requires forall p :: p in c.policies ==> c.policies[p] == s.policies[p] && t.policies[p] == c.policies[p]
    requires forall p :: p in Members(ids.policies) ==> t.policies[p].firewallId == firewallId
    ensures PoliciesOf(t, firewallId) == Members(ids.policies)
    ensures OtherPoliciesKept(s, t, firewallId, ids)
  {
    forall p
      ensures p in ids.policies <==> p in Members(ids.policies)
    {
    }
  }

  lemma BuiltRules(s: Store, firewallId: string, desired: seq<DesiredPolicy>, ids: Ids)
    requires Inv(s) && Fits(desired, ids) && FreshIds(s, ids)
    ensures OtherRulesKept(s, Built(s, firewallId, desired, ids), firewallId, ids)
  {
    ClearedIsReady(s, firewallId, desired, ids);
    AddPoliciesExactly(Cleared(s, firewallId), firewallId, desired, ids);
    ClearedRules(s, firewallId, ids);
  }

  /** A successful push makes the firewall's policies and rules exactly the requested ones, leaves
      everything under other firewalls as it was, and moves the firewall to a new generation. */
  lemma PushInstallsExactly(s: Store, firewallId: string, expected: nat, desired: seq<DesiredPolicy>, ids: Ids)
    requires Inv(s) && Fits(desired, ids) && FreshIds(s, ids)
    requires PushOutcome(s, firewallId, expected, desired).Ok?
    ensures var t := Push(s, firewallId, expected, desired, ids);
      && t.firewalls == s.firewalls[firewallId := s.firewalls[firewallId].(generation := s.next + |desired|)]
      && PoliciesOf(t, firewallId) == Members(ids.policies)
      && Holds(t, firewallId, desired, ids)
      && OtherPoliciesKept(s, t, firewallId, ids) && OtherRulesKept(s, t, firewallId, ids)
  {
    ClearedIsReady(s, firewallId, desired, ids);
    AddPoliciesExactly(Cleared(s, firewallId), firewallId, desired, ids);
    StampKeepsHolds(Built(s, firewallId, desired, ids), firewallId, desired, ids);
    BuiltPolicies(s, firewallId, desired, ids);
    BuiltRules(s, firewallId, desired, ids);
    StampKeepsOthers(s, Built(s, firewallId, desired, ids), firewallId, ids);
  }

  lemma StampKeepsOthers(s: Store, t: Store, firewallId: string, ids: Ids)
    requires Inv(s) && OtherPoliciesKept(s, t, firewallId, ids) && OtherRulesKept(s, t, firewallId, ids)
    ensures var u := Stamp(t, firewallId);
      && OtherPoliciesKept(s, u, firewallId, ids) && OtherRulesKept(s, u, firewallId, ids)
      && PoliciesOf(u, firewallId) == PoliciesOf(t, firewallId)
  {
  }

  lemma StampKeepsHolds(t: Store, firewallId: string, desired: seq<DesiredPolicy>, ids: Ids)
    requires Fits(desired, ids) && Holds(t, firewallId, desired, ids)
    ensures Holds(Stamp(t, firewallId), firewallId, desired, ids)
  {
    var u := Stamp(t, firewallId);
    forall i | 0 <= i < |desired|
      ensures PolicyHolds(u, firewallId, desired[i], ids.policies[i])
      ensures RulesHold(u, desired[i], ids.policies[i], ids.rules[i])
    {
      assert PolicyHolds(t, firewallId, desired[i], ids.policies[i]);
      assert RulesHold(t, desired[i], ids.policies[i], ids.rules[i]);
      assert RulesUnder(u, {ids.policies[i]}) == RulesUnder(t, {ids.policies[i]});
    }
  }

  lemma ClearedIsReady(s: Store, firewallId: string, desired: seq<DesiredPolicy>, ids: Ids)
    requires Inv(s) && Fits(desired, ids) && FreshIds(s, ids)
    ensures Ready(Cleared(s, firewallId), desired, ids)
  {
    var c := Cleared(s, firewallId);
    forall r | r in c.rules
      ensures c.rules[r].policyId !in Members(ids.policies)
    {
      assert s.rules[r].policyId in s.policies;
    }
    assert RulesUnder(c, Members(ids.policies)) == {};
  }

  lemma ClearedRules(s: Store, firewallId: string, ids: Ids)
    requires Inv(s) && Members(ids.policies) !! s.policies.Keys
    ensures forall r :: r in Cleared(s, firewallId).rules <==>
              r in s.rules && s.policies[s.rules[r].policyId].firewallId != firewallId
    ensures forall r :: r in Cleared(s, firewallId).rules ==> s.rules[r].policyId !in ids.policies
  {
    forall r | r in s.rules
      ensures r in RulesUnder(s, PoliciesOf(s, firewallId)) <==> s.policies[s.rules[r].policyId].firewallId == firewallId
      ensures s.rules[r].policyId !in Members(ids.policies)
    {
    }
  }
}
