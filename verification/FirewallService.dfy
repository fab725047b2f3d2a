/** The tenant-scoped endpoints of tc-firewall over the rule store and the NAT manager. Each is one
    atomic step. */
module FirewallService {
  import opened Prelude
  import opened TcFilters
  import RS = RuleStore
  import NM = NatManager

  datatype Quota = Quota(maxRules: int, maxNat: int)

  /** `tracked` holds the ids of the NAT entries the endpoints keep; they share the entry objects
      with the NAT manager. */
  datatype State = State(tenants: map<string, Quota>, rules: RS.Rules, nats: NM.Nat, tracked: set<string>)

  const START := State(map[], RS.EMPTY, NM.NO_NAT, {})

  datatype Denied = HeaderMissing | TenantUnknown

  function Authorize(tenants: map<string, Quota>, header: Option<string>): (r: Option<Denied>)
    ensures r.None? <==> header.Some? && header.value != "" && header.value in tenants
    ensures r == Some(HeaderMissing) <==> header.None? || header.value == ""
  {
    if !GivenText(header) then Some(HeaderMissing)
    else if header.value !in tenants then Some(TenantUnknown)
    else None
  }

  // ---------------------------------------------------------------- NAT ownership

  function NatOwnedBy(s: State, tenant: string): set<string> {
    set id | id in s.tracked && id in s.nats.db && s.nats.db[id].tenant == Some(tenant)
  }

  function OwnedNatIds(order: seq<string>, owned: set<string>): seq<string> {
    if order == [] then []
    else
      var last := order[|order| - 1];
      var front := OwnedNatIds(order[..|order| - 1], owned);
      if last in owned then front + [last] else front
  }

  /** What the commands of each of several removals do. */
  type Refills = string -> NM.Refill

  function RemoveAll(n: NM.Nat, ids: seq<string>, ok: Refills): NM.Nat {
    if ids == [] then n
    else
      var last := ids[|ids| - 1];
      NM.Remove(RemoveAll(n, ids[..|ids| - 1], ok), last, ok(last))
  }

  function Claimed(n: NM.Nat, id: string, tenant: string): NM.Nat
    requires id in n.db
  {
    n.(db := n.db[id := n.db[id].(tenant := Some(tenant))])
  }

  // ---------------------------------------------------------------- endpoints

  datatype Event =
    | Register(tenant: string, quota: Quota)
    | DeleteTenant(tenant: string, removals: RS.Removals, refills: Refills)
    | AddRule(header: Option<string>, req: RS.Request, id: string, tc: RS.TcOutcome)
    | DeleteRule(header: Option<string>, id: string, removal: RS.TcRemoval)
    | FlushRules(header: Option<string>, removals: RS.Removals)
    | AddNat(header: Option<string>, spec: NM.NatSpec, mode: string, id: string, exhausted: bool, ok: bool)
    | DeleteNat(header: Option<string>, id: string, refill: NM.Refill)
    | FlushNat(header: Option<string>, refills: Refills)

  function DoAddNat(s: State, tenant: string, quota: int, e: Event): State
    requires e.AddNat?
  {
    if |NatOwnedBy(s, tenant)| >= quota then s
    else match NM.AddReply(s.nats, e.spec, e.mode, e.id, e.exhausted, e.ok)
         case Accepted(id) => s.(nats := AfterAddNat(s.nats, tenant, e), tracked := s.tracked + {id})
         case _ => s
  }

  function DoDeleteNat(s: State, tenant: string, id: string, ok: NM.Refill): State {
    if id in NatOwnedBy(s, tenant) then s.(nats := NM.Remove(s.nats, id, ok), tracked := s.tracked - {id}) else s
  }

  function DoFlushNat(s: State, tenant: string, ok: Refills): State {
    var owned := NatOwnedBy(s, tenant);
    s.(nats := RemoveAll(s.nats, OwnedNatIds(s.nats.order, owned), ok), tracked := s.tracked - owned)
  }

  function Next(s: State, e: Event): State {
    match e
    case Register(tenant, quota) =>
      if tenant in s.tenants then s else s.(tenants := s.tenants[tenant := quota])
    case DeleteTenant(tenant, removals, refills) =>
      if tenant !in s.tenants then s
      else
        var flushed := s.(rules := RS.Flush(s.rules, tenant, removals));
        if RS.GivenUpAt(s.rules, tenant, removals).Some? then flushed
        else DoFlushNat(flushed, tenant, refills).(tenants := s.tenants - {tenant})
    case AddRule(header, req, id, tc) =>
      if Authorize(s.tenants, header).Some? then s
      else s.(rules := RS.Add(s.rules, header.value, s.tenants[header.value].maxRules, req, id, tc))
    case DeleteRule(header, id, removal) =>
      if Authorize(s.tenants, header).Some? then s
      else s.(rules := RS.Delete(s.rules, header.value, id, removal))
    case FlushRules(header, removals) =>
      if Authorize(s.tenants, header).Some? then s
      else s.(rules := RS.Flush(s.rules, header.value, removals))
    case AddNat(header, _, _, _, _, _) =>
      if Authorize(s.tenants, header).Some? then s
      else DoAddNat(s, header.value, s.tenants[header.value].maxNat, e)
    case DeleteNat(header, id, refill) =>
      if Authorize(s.tenants, header).Some? then s else DoDeleteNat(s, header.value, id, refill)
    case FlushNat(header, refills) =>
      if Authorize(s.tenants, header).Some? then s else DoFlushNat(s, header.value, refills)
  }

  /** Identifiers of new rules and entries are unused. */
  ghost predicate Enabled(s: State, e: Event) {
    match e
    case AddRule(_, _, id, _) => RS.Unused(s.rules, id)
    case AddNat(_, _, _, id, _, _) => id !in s.nats.db
    case _ => true
  }

  // ---------------------------------------------------------------- the invariant

  function AtLeastZero(n: int): (r: int)
    ensures r >= 0 && r >= n && (r == 0 || r == n)
  {
    if n < 0 then 0 else n
  }

  ghost predicate Owned(s: State) {
    && (forall id :: id in s.rules.db ==> s.rules.db[id].tenant in s.tenants)
    && s.tracked == s.nats.db.Keys
    && (forall id :: id in s.nats.db ==> s.nats.db[id].tenant.Some? && s.nats.db[id].tenant.value in s.tenants)
  }

  ghost predicate WithinQuotas(s: State) {
    forall t :: t in s.tenants ==>
      && |RS.OwnedBy(s.rules, t)| <= AtLeastZero(s.tenants[t].maxRules)
      && |NatOwnedBy(s, t)| <= AtLeastZero(s.tenants[t].maxNat)
  }

  ghost predicate Stores(s: State) {
    RS.Ordered(s.rules) && RS.Indexed(s.rules) && NM.Ordered(s.nats) && NM.Indexed(s.nats)
  }

  ghost predicate Inv(s: State) {
    Stores(s) && Owned(s) && WithinQuotas(s)
  }

  lemma SmallerSet<T>(a: set<T>, b: set<T>)
    requires a <= b
    ensures |a| <= |b|
  {
    assert |b - a| == |b| - |a|;
  }

  // ---- rules

  /** The rules change so that no tenant but `tenant` owns more than before. */
  ghost predicate RulesGrowOnlyFor(s: RS.Rules, t: RS.Rules, tenant: string) {
    forall id :: id in t.db ==> (id in s.db && t.db[id] == s.db[id]) || t.db[id].tenant == tenant
  }

  lemma RuleChangeKeepsQuotas(s: State, rules: RS.Rules, tenant: string)
    requires Inv(s) && tenant in s.tenants && RulesGrowOnlyFor(s.rules, rules, tenant)
    requires |RS.OwnedBy(rules, tenant)| <= AtLeastZero(s.tenants[tenant].maxRules)
    ensures Owned(s.(rules := rules)) && WithinQuotas(s.(rules := rules))
  {
    var s' := s.(rules := rules);
    forall t | t in s.tenants
      ensures |RS.OwnedBy(rules, t)| <= AtLeastZero(s.tenants[t].maxRules)
      ensures |NatOwnedBy(s', t)| <= AtLeastZero(s.tenants[t].maxNat)
    {
      assert NatOwnedBy(s', t) == NatOwnedBy(s, t);
      if t != tenant {
        SmallerSet(RS.OwnedBy(rules, t), RS.OwnedBy(s.rules, t));
      }
    }
  }

  /** An accepted rule counts against its tenant only, and only while there was room. */
  lemma AddRuleCounts(s: RS.Rules, tenant: string, quota: int, req: RS.Request, id: string, tc: RS.TcOutcome)
    requires id !in s.db && |RS.OwnedBy(s, tenant)| <= AtLeastZero(quota)
    ensures var t := RS.Add(s, tenant, quota, req, id, tc);
      RulesGrowOnlyFor(s, t, tenant) && |RS.OwnedBy(t, tenant)| <= AtLeastZero(quota)
  {
    var t := RS.Add(s, tenant, quota, req, id, tc);
    if RS.AddAnswer(s, tenant, quota, req, id, tc).Created? {
      assert t.db == s.db[id := RS.NewRule(tenant, req, id, tc)];
      assert RS.OwnedBy(t, tenant) == RS.OwnedBy(s, tenant) + {id};
    } else {
      assert t.db == s.db;
      assert RS.OwnedBy(t, tenant) == RS.OwnedBy(s, tenant);
    }
  }

  lemma AddRuleKeepsInv(s: State, tenant: string, req: RS.Request, id: string, tc: RS.TcOutcome)
    requires Inv(s) && tenant in s.tenants && RS.Unused(s.rules, id)
    ensures Inv(s.(rules := RS.Add(s.rules, tenant, s.tenants[tenant].maxRules, req, id, tc)))
  {
    var quota := s.tenants[tenant].maxRules;
    RS.AddKeeps(s.rules, tenant, quota, req, id, tc);
    AddRuleCounts(s.rules, tenant, quota, req, id, tc);
    RuleChangeKeepsQuotas(s, RS.Add(s.rules, tenant, quota, req, id, tc), tenant);
  }

  lemma DeleteRuleShrinks(s: RS.Rules, tenant: string, id: string, removal: RS.TcRemoval)
    ensures var t := RS.Delete(s, tenant, id, removal);
      RulesGrowOnlyFor(s, t, tenant) && RS.OwnedBy(t, tenant) <= RS.OwnedBy(s, tenant)
  {
  }

  lemma DeleteRuleKeepsInv(s: State, tenant: string, id: string, removal: RS.TcRemoval)
    requires Inv(s) && tenant in s.tenants
    ensures Inv(s.(rules := RS.Delete(s.rules, tenant, id, removal)))
  {
    var rules := RS.Delete(s.rules, tenant, id, removal);
    RS.DeleteKeeps(s.rules, tenant, id, removal);
    DeleteRuleShrinks(s.rules, tenant, id, removal);
    SmallerSet(RS.OwnedBy(rules, tenant), RS.OwnedBy(s.rules, tenant));
    RuleChangeKeepsQuotas(s, rules, tenant);
  }

  lemma FlushRulesKeepsInv(s: State, tenant: string, removals: RS.Removals)
    requires Inv(s) && tenant in s.tenants
    ensures Inv(s.(rules := RS.Flush(s.rules, tenant, removals)))
    ensures RS.GivenUpAt(s.rules, tenant, removals).None? ==> RS.OwnedBy(RS.Flush(s.rules, tenant, removals), tenant) == {}
  {
    var rules := RS.Flush(s.rules, tenant, removals);
    RS.FlushKeeps(s.rules, tenant, removals);
    SmallerSet(RS.OwnedBy(rules, tenant), RS.OwnedBy(s.rules, tenant));
    RuleChangeKeepsQuotas(s, rules, tenant);
    if RS.GivenUpAt(s.rules, tenant, removals).None? {
      forall id | id in rules.db
        ensures rules.db[id].tenant != tenant
      {
        assert id !in RS.OwnedBy(s.rules, tenant);
      }
    }
  }

  // ---- NAT

  /** The NAT entries change so that no tenant but `tenant` owns more than before. */
  ghost predicate NatGrowsOnlyFor(s: State, t: State, tenant: string) {
    forall id :: id in t.nats.db ==>
      (id in s.nats.db && t.nats.db[id].tenant == s.nats.db[id].tenant) || t.nats.db[id].tenant == Some(tenant)
  }

  lemma NatChangeKeepsQuotas(s: State, s': State, tenant: string)
    requires Inv(s) && tenant in s.tenants && s'.tenants == s.tenants && s'.rules == s.rules
    requires NatGrowsOnlyFor(s, s', tenant) && s'.tracked == s'.nats.db.Keys
    requires |NatOwnedBy(s', tenant)| <= AtLeastZero(s.tenants[tenant].maxNat)
    ensures Owned(s') && WithinQuotas(s')
  {
    forall t | t in s.tenants
      ensures |NatOwnedBy(s', t)| <= AtLeastZero(s.tenants[t].maxNat)
    {
      if t != tenant {
        OthersOwnNoMore(s, s', tenant, t);
      }
    }
  }

  lemma OthersOwnNoMore(s: State, s': State, tenant: string, t: string)
    requires NatGrowsOnlyFor(s, s', tenant) && s.tracked == s.nats.db.Keys && t != tenant
    ensures |NatOwnedBy(s', t)| <= |NatOwnedBy(s, t)|
  {
    SmallerSet(NatOwnedBy(s', t), NatOwnedBy(s, t));
  }

  lemma ClaimKeeps(n: NM.Nat, id: string, tenant: string)
    requires NM.Ordered(n) && NM.Indexed(n) && id in n.db
    ensures NM.Ordered(Claimed(n, id, tenant)) && NM.Indexed(Claimed(n, id, tenant))
    ensures NM.BandsExact(n) ==> NM.BandsExact(Claimed(n, id, tenant))
    ensures NM.AllFaithful(n) ==> NM.AllFaithful(Claimed(n, id, tenant))
  {
    var c := Claimed(n, id, tenant);
    NM.RenderedSame(n.order, n.db, c.db, true, NM.AddFilter, NM.AddFilter);
    NM.RenderedSame(n.order, n.db, c.db, false, NM.AddFilter, NM.AddFilter);
  }

  /** The id an accepted NAT request is answered with names a live entry. */
  lemma AcceptedIsLive(n: NM.Nat, e: Event)
    requires e.AddNat? && NM.AddReply(n, e.spec, e.mode, e.id, e.exhausted, e.ok).Accepted?
    ensures NM.AddReply(n, e.spec, e.mode, e.id, e.exhausted, e.ok).id
         in NM.Add(n, e.spec, e.mode, e.id, e.exhausted, e.ok).db
  {
  }

  /** The NAT manager after an accepted request, the entry claimed by the tenant. */
  function AfterAddNat(n: NM.Nat, tenant: string, e: Event): NM.Nat
    requires e.AddNat? && NM.AddReply(n, e.spec, e.mode, e.id, e.exhausted, e.ok).Accepted?
  {
    AcceptedIsLive(n, e);
    Claimed(NM.Add(n, e.spec, e.mode, e.id, e.exhausted, e.ok),
            NM.AddReply(n, e.spec, e.mode, e.id, e.exhausted, e.ok).id, tenant)
  }

  lemma AfterAddNatKeeps(n: NM.Nat, tenant: string, e: Event)
    requires NM.Ordered(n) && NM.Indexed(n) && e.AddNat? && e.id !in n.db
    requires NM.AddReply(n, e.spec, e.mode, e.id, e.exhausted, e.ok).Accepted?
    ensures NM.Ordered(AfterAddNat(n, tenant, e)) && NM.Indexed(AfterAddNat(n, tenant, e))
    ensures NM.BandsExact(n) && NM.AllFaithful(n) && NM.Faithful(e.spec) ==>
              NM.BandsExact(AfterAddNat(n, tenant, e)) && NM.AllFaithful(AfterAddNat(n, tenant, e))
  {
    NM.AddKeeps(n, e.spec, e.mode, e.id, e.exhausted, e.ok);
    AcceptedIsLive(n, e);
    ClaimKeeps(NM.Add(n, e.spec, e.mode, e.id, e.exhausted, e.ok),
               NM.AddReply(n, e.spec, e.mode, e.id, e.exhausted, e.ok).id, tenant);
  }

  lemma AfterAddNatEntries(n: NM.Nat, tenant: string, e: Event)
    requires e.AddNat? && NM.AddReply(n, e.spec, e.mode, e.id, e.exhausted, e.ok).Accepted?
    ensures var r, id := AfterAddNat(n, tenant, e), NM.AddReply(n, e.spec, e.mode, e.id, e.exhausted, e.ok).id;
      && r.db.Keys == n.db.Keys + {id}
      && r.db[id].tenant == Some(tenant)
      && forall x :: x in n.db && x != id ==> r.db[x].tenant == n.db[x].tenant
  {
  }

  /** The tenant takes over the entry: a new one, or an existing one of another tenant. */
  lemma AddNatCounts(s: State, tenant: string, quota: int, e: Event)
    requires e.AddNat? && s.tracked == s.nats.db.Keys && |NatOwnedBy(s, tenant)| <= AtLeastZero(quota)
    ensures var s' := DoAddNat(s, tenant, quota, e);
      && NatGrowsOnlyFor(s, s', tenant) && s'.tracked == s'.nats.db.Keys
      && |NatOwnedBy(s', tenant)| <= AtLeastZero(quota)
  {
    var s' := DoAddNat(s, tenant, quota, e);
    if |NatOwnedBy(s, tenant)| < quota && NM.AddReply(s.nats, e.spec, e.mode, e.id, e.exhausted, e.ok).Accepted? {
      AfterAddNatEntries(s.nats, tenant, e);
      OneMoreNat(s, s', tenant, NM.AddReply(s.nats, e.spec, e.mode, e.id, e.exhausted, e.ok).id);
    }
  }

  lemma OneMoreNat(s: State, s': State, tenant: string, id: string)
    requires s.tracked == s.nats.db.Keys && s'.tracked == s'.nats.db.Keys == s.tracked + {id}
    requires s'.nats.db[id].tenant == Some(tenant)
    requires forall x :: x in s.nats.db && x != id ==> s'.nats.db[x].tenant == s.nats.db[x].tenant
    ensures NatOwnedBy(s', tenant) == NatOwnedBy(s, tenant) + {id}
    ensures NatGrowsOnlyFor(s, s', tenant)
  {
  }

  lemma AddNatKeepsStores(s: State, tenant: string, quota: int, e: Event)
    requires Stores(s) && e.AddNat? && e.id !in s.nats.db
    ensures Stores(DoAddNat(s, tenant, quota, e))
  {
    if NM.AddReply(s.nats, e.spec, e.mode, e.id, e.exhausted, e.ok).Accepted? {
      AfterAddNatKeeps(s.nats, tenant, e);
    }
  }

  lemma AddNatKeepsInv(s: State, tenant: string, e: Event)
    requires Inv(s) && tenant in s.tenants && e.AddNat? && e.id !in s.nats.db
    ensures Inv(DoAddNat(s, tenant, s.tenants[tenant].maxNat, e))
  {
    var quota := s.tenants[tenant].maxNat;
    AddNatKeepsStores(s, tenant, quota, e);
    AddNatCounts(s, tenant, quota, e);
    NatChangeKeepsQuotas(s, DoAddNat(s, tenant, quota, e), tenant);
  }

  lemma DeleteNatKeepsInv(s: State, tenant: string, id: string, ok: NM.Refill)
    requires Inv(s) && tenant in s.tenants
    ensures Inv(DoDeleteNat(s, tenant, id, ok))
  {
    var s' := DoDeleteNat(s, tenant, id, ok);
    if id in NatOwnedBy(s, tenant) {
      NM.RemoveKeepsOrder(s.nats, id, ok);
      SmallerSet(NatOwnedBy(s', tenant), NatOwnedBy(s, tenant));
      NatChangeKeepsQuotas(s, s', tenant);
    }
  }

  lemma {:induction false} RemoveAllEntries(n: NM.Nat, ids: seq<string>, ok: Refills)
    ensures RemoveAll(n, ids, ok).db == n.db - Members(ids)
  {
    if ids == [] {
      assert n.db - Members(ids) == n.db;
    } else {
      var front, last := ids[..|ids| - 1], ids[|ids| - 1];
      RemoveAllEntries(n, front, ok);
      assert ids == front + [last];
      assert Members(ids) == Members(front) + {last};
      assert NM.Remove(RemoveAll(n, front, ok), last, ok(last)).db == RemoveAll(n, front, ok).db - {last};
    }
  }

  /** Every flush and re-application of every removal succeeds. */
  ghost predicate AllRefilled(ids: set<string>, db: map<string, NM.NatEntry>, ok: Refills) {
    (forall id :: id in ids ==> ok(id).flushed) && (forall id, x :: id in ids && x in db && x != id ==> ok(id).ok(x))
  }

  lemma {:induction false} RemoveAllKeepsOrder(n: NM.Nat, ids: seq<string>, ok: Refills)
    requires NM.Ordered(n) && NM.Indexed(n)
    ensures NM.Ordered(RemoveAll(n, ids, ok)) && NM.Indexed(RemoveAll(n, ids, ok))
  {
    if ids != [] {
      var front, last := ids[..|ids| - 1], ids[|ids| - 1];
      RemoveAllKeepsOrder(n, front, ok);
      NM.RemoveKeepsOrder(RemoveAll(n, front, ok), last, ok(last));
    }
  }

  lemma {:induction false} RemoveAllKeepsBands(n: NM.Nat, ids: seq<string>, ok: Refills)
    requires NM.Ordered(n) && NM.Indexed(n) && NM.BandsExact(n) && NM.AllFaithful(n)
    requires AllRefilled(Members(ids), n.db, ok)
    ensures NM.BandsExact(RemoveAll(n, ids, ok)) && NM.AllFaithful(RemoveAll(n, ids, ok))
  {
    if ids != [] {
      var front, last := ids[..|ids| - 1], ids[|ids| - 1];
      assert ids == front + [last];
      assert Members(ids) == Members(front) + {last};
      RemoveAllKeepsBands(n, front, ok);
      RemoveAllKeepsOrder(n, front, ok);
      RemoveAllEntries(n, front, ok);
      NM.RemoveKeepsBands(RemoveAll(n, front, ok), last, ok(last));
    }
  }

  lemma {:induction false} OwnedNatIdsMembers(order: seq<string>, owned: set<string>)
    ensures Members(OwnedNatIds(order, owned)) == Members(order) * owned
  {
    if order != [] {
      var front, last := order[..|order| - 1], order[|order| - 1];
      OwnedNatIdsMembers(front, owned);
      assert order == front + [last];
      assert Members(order) == Members(front) + {last};
      assert Members(OwnedNatIds(front, owned) + [last]) == Members(OwnedNatIds(front, owned)) + {last};
    }
  }

  lemma FlushNatRemoves(s: State, tenant: string, ok: Refills)
    requires NM.Ordered(s.nats) && NM.Indexed(s.nats) && s.tracked == s.nats.db.Keys
    ensures var s' := DoFlushNat(s, tenant, ok);
      && NM.Ordered(s'.nats) && NM.Indexed(s'.nats)
      && s'.nats.db == s.nats.db - NatOwnedBy(s, tenant) && s'.tracked == s'.nats.db.Keys
      && NatOwnedBy(s', tenant) == {}
  {
    FlushNatIds(s, tenant);
    var ids := OwnedNatIds(s.nats.order, NatOwnedBy(s, tenant));
    RemoveAllEntries(s.nats, ids, ok);
    RemoveAllKeepsOrder(s.nats, ids, ok);
  }

  lemma FlushNatIds(s: State, tenant: string)
    requires NM.Ordered(s.nats)
    ensures Members(OwnedNatIds(s.nats.order, NatOwnedBy(s, tenant))) == NatOwnedBy(s, tenant)
  {
    OwnedNatIdsMembers(s.nats.order, NatOwnedBy(s, tenant));
    forall id | id in NatOwnedBy(s, tenant)
      ensures id in Members(s.nats.order)
    {
    }
  }

  lemma FlushNatKeepsBands(s: State, tenant: string, ok: Refills)
    requires NM.Ordered(s.nats) && NM.Indexed(s.nats) && NM.BandsExact(s.nats) && NM.AllFaithful(s.nats)
    requires AllRefilled(NatOwnedBy(s, tenant), s.nats.db, ok)
    ensures NM.BandsExact(DoFlushNat(s, tenant, ok).nats) && NM.AllFaithful(DoFlushNat(s, tenant, ok).nats)
  {
    FlushNatIds(s, tenant);
    RemoveAllKeepsBands(s.nats, OwnedNatIds(s.nats.order, NatOwnedBy(s, tenant)), ok);
  }

  lemma FlushNatKeepsInv(s: State, tenant: string, ok: Refills)
    requires Inv(s) && tenant in s.tenants
    ensures Inv(DoFlushNat(s, tenant, ok))
    ensures NatOwnedBy(DoFlushNat(s, tenant, ok), tenant) == {}
  {
    FlushNatRemoves(s, tenant, ok);
    NatChangeKeepsQuotas(s, DoFlushNat(s, tenant, ok), tenant);
  }

  lemma UnregisterKeepsInv(s: State, tenant: string)
    requires Inv(s) && RS.OwnedBy(s.rules, tenant) == {} && NatOwnedBy(s, tenant) == {}
    ensures Inv(s.(tenants := s.tenants - {tenant}))
  {
    var s' := s.(tenants := s.tenants - {tenant});
    forall id | id in s.rules.db
      ensures s.rules.db[id].tenant in s'.tenants
    {
      assert id !in RS.OwnedBy(s.rules, tenant);
    }
    forall id | id in s.nats.db
      ensures s.nats.db[id].tenant.Some? && s.nats.db[id].tenant.value in s'.tenants
    {
      assert id !in NatOwnedBy(s, tenant);
    }
    forall t
      ensures NatOwnedBy(s', t) == NatOwnedBy(s, t)
    {
    }
  }

  lemma DeleteTenantKeepsInv(s: State, tenant: string, removals: RS.Removals, refills: Refills)
    requires Inv(s) && tenant in s.tenants
    ensures Inv(Next(s, DeleteTenant(tenant, removals, refills)))
  {
    var s1 := s.(rules := RS.Flush(s.rules, tenant, removals));
    FlushRulesKeepsInv(s, tenant, removals);
    if RS.GivenUpAt(s.rules, tenant, removals).None? {
      FlushNatKeepsInv(s1, tenant, refills);
      UnregisterKeepsInv(DoFlushNat(s1, tenant, refills), tenant);
    }
  }

  lemma RegisterKeepsInv(s: State, tenant: string, quota: Quota)
    requires Inv(s)
    ensures Inv(Next(s, Register(tenant, quota)))
  {
    if tenant !in s.tenants {
      var s' := Next(s, Register(tenant, quota));
      assert RS.OwnedBy(s.rules, tenant) == {};
      assert NatOwnedBy(s', tenant) == {};
      forall t | t in s.tenants
        ensures NatOwnedBy(s', t) == NatOwnedBy(s, t)
      {
      }
    }
  }

  lemma StepKeepsInv(s: State, e: Event)
    requires Inv(s) && Enabled(s, e)
    ensures Inv(Next(s, e))
  {
    match e
    case Register(tenant, quota) => RegisterKeepsInv(s, tenant, quota);
    case DeleteTenant(tenant, removals, refills) => if tenant in s.tenants { DeleteTenantKeepsInv(s, tenant, removals, refills); }
    case AddRule(header, req, id, tc) =>
      if Authorize(s.tenants, header).None? { AddRuleKeepsInv(s, header.value, req, id, tc); }
    case DeleteRule(header, id, removal) => if Authorize(s.tenants, header).None? { DeleteRuleKeepsInv(s, header.value, id, removal); }
    case FlushRules(header, removals) => if Authorize(s.tenants, header).None? { FlushRulesKeepsInv(s, header.value, removals); }
    case AddNat(header, _, _, _, _, _) => if Authorize(s.tenants, header).None? { AddNatKeepsInv(s, header.value, e); }
    case DeleteNat(header, id, ok) => if Authorize(s.tenants, header).None? { DeleteNatKeepsInv(s, header.value, id, ok); }
    case FlushNat(header, ok) => if Authorize(s.tenants, header).None? { FlushNatKeepsInv(s, header.value, ok); }
  }

  // ---------------------------------------------------------------- runs

  ghost predicate IsRun(states: seq<State>, events: seq<Event>) {
    && |states| == |events| + 1
    && states[0] == START
    && forall i :: 0 <= i < |events| ==> Enabled(states[i], events[i]) && states[i + 1] == Next(states[i], events[i])
  }

  /** In every run the signature index is the inverse of the rules, every rule and NAT entry belongs
      to a registered tenant, and no tenant is over quota in either kind. */
  lemma {:induction false} RunKeepsInv(states: seq<State>, events: seq<Event>, i: nat)
    requires IsRun(states, events) && i < |states|
    ensures Stores(states[i]) && Owned(states[i]) && WithinQuotas(states[i])
  {
    if i > 0 {
      RunKeepsInv(states, events, i - 1);
      StepKeepsInv(states[i - 1], events[i - 1]);
    } else {
      assert Members<string>([]) == {};
    }
  }

  /** What the kernel promises: the handles it hands out are unused at their priority. */
  ghost predicate FreshHandles(s: State, e: Event) {
    e.AddRule? ==> RS.HandlesAreFresh(s.rules, e.req.priority, e.tc)
  }

  /** The event leaves no filter without a rule and no rule without a filter: an install does not leave
      filters behind, and a removal takes both filters of a rule that goes and none of one that stays. */
  ghost predicate Whole(s: State, e: Event) {
    match e
    case AddRule(header, req, id, tc) =>
      Authorize(s.tenants, header).None? ==>
        !RS.LeavesFilters(s.rules, header.value, s.tenants[header.value].maxRules, req, id, tc)
    case DeleteRule(header, id, removal) =>
      Authorize(s.tenants, header).None? ==> RS.DeletesWhole(s.rules, header.value, id, removal)
    case FlushRules(header, removals) =>
      Authorize(s.tenants, header).None? ==> RS.FlushesWhole(s.rules, header.value, removals)
    case DeleteTenant(tenant, removals, _) =>
      tenant in s.tenants ==> RS.FlushesWhole(s.rules, tenant, removals)
    case _ => true
  }

  lemma DeleteTenantRules(s: State, tenant: string, removals: RS.Removals, refills: Refills)
    ensures Next(s, DeleteTenant(tenant, removals, refills)).rules
         == if tenant in s.tenants then RS.Flush(s.rules, tenant, removals) else s.rules
  {
  }

  /** The ports go on holding exactly the filters of the live rules exactly at such events. */
  lemma StaysInstalledExactly(s: State, e: Event)
    requires Stores(s) && Enabled(s, e) && FreshHandles(s, e) && RS.InstalledExactly(s.rules)
    ensures RS.Ordered(Next(s, e).rules)
    ensures RS.InstalledExactly(Next(s, e).rules) <==> Whole(s, e)
  {
    match e
    case DeleteTenant(tenant, removals, refills) =>
      DeleteTenantRules(s, tenant, removals, refills);
      RS.FlushKeeps(s.rules, tenant, removals);
    case AddRule(header, req, id, tc) =>
      if Authorize(s.tenants, header).None? {
        RS.AddKeeps(s.rules, header.value, s.tenants[header.value].maxRules, req, id, tc);
      }
    case DeleteRule(header, id, removal) =>
      if Authorize(s.tenants, header).None? {
        RS.DeleteKeeps(s.rules, header.value, id, removal);
      }
    case FlushRules(header, removals) =>
      if Authorize(s.tenants, header).None? {
        RS.FlushKeeps(s.rules, header.value, removals);
      }
    case _ => OtherEventsKeepRules(s, e);
  }

  lemma OtherEventsKeepRules(s: State, e: Event)
    requires e.Register? || e.AddNat? || e.DeleteNat? || e.FlushNat?
    ensures Next(s, e).rules == s.rules
  {
  }

  ghost predicate FreshHandlesRun(states: seq<State>, events: seq<Event>)
    requires |states| == |events| + 1
  {
    forall i :: 0 <= i < |events| ==> FreshHandles(states[i], events[i])
  }

  ghost predicate WholeUpTo(states: seq<State>, events: seq<Event>, i: nat)
    requires |states| == |events| + 1 && i <= |events|
  {
    forall j :: 0 <= j < i ==> Whole(states[j], events[j])
  }

  ghost predicate ExactPorts(s: RS.Rules) {
    RS.Ordered(s) && RS.InstalledExactly(s)
  }

  ghost predicate ExactUpTo(states: seq<State>, i: nat)
    requires i < |states|
  {
    forall j :: 0 <= j <= i ==> ExactPorts(states[j].rules)
  }

  /** Up to any point of a run the ports always held exactly the filters of the live rules, exactly when
      every event before was whole. */
  lemma {:induction false} RunInstalledExactly(states: seq<State>, events: seq<Event>, i: nat)
    requires IsRun(states, events) && FreshHandlesRun(states, events) && i < |states|
    ensures ExactUpTo(states, i) <==> WholeUpTo(states, events, i)
  {
    if i == 0 {
      StartIsExact();
    } else {
      RunInstalledExactly(states, events, i - 1);
      ExactRunStep(states, events, i - 1);
      ExactUpToStep(states, i);
    }
  }

  lemma ExactRunStep(states: seq<State>, events: seq<Event>, i: nat)
    requires IsRun(states, events) && FreshHandlesRun(states, events) && i < |events|
    ensures ExactPorts(states[i].rules) ==> (ExactPorts(states[i + 1].rules) <==> Whole(states[i], events[i]))
  {
    RunKeepsInv(states, events, i);
    ExactStep(states[i], events[i]);
  }

  lemma StartIsExact()
    ensures ExactPorts(START.rules)
  {
    assert Members<string>([]) == {};
  }

  lemma ExactStep(s: State, e: Event)
    requires Stores(s) && Enabled(s, e) && FreshHandles(s, e)
    ensures ExactPorts(s.rules) ==> (ExactPorts(Next(s, e).rules) <==> Whole(s, e))
  {
    if ExactPorts(s.rules) {
      StaysInstalledExactly(s, e);
    }
  }

  lemma ExactUpToStep(states: seq<State>, i: nat)
    requires 0 < i < |states|
    ensures ExactUpTo(states, i) <==> ExactUpTo(states, i - 1) && ExactPorts(states[i].rules)
    ensures ExactUpTo(states, i - 1) ==> ExactPorts(states[i - 1].rules)
  {
  }

  /** As long as every event is whole, a packet entering the internet port is redirected exactly when its reverse
      entering the client port is. */
  lemma PortsMirror(states: seq<State>, events: seq<Event>, i: nat, covers: Covers, p: Packet)
    requires IsRun(states, events) && FreshHandlesRun(states, events) && i < |states| && WholeUpTo(states, events, i)
    ensures Redirected(states[i].rules.internet, covers, p) <==> Redirected(states[i].rules.client, covers, Reversed(p))
  {
    RunInstalledExactly(states, events, i);
    assert ExactPorts(states[i].rules);
    RS.InstalledPortsMirror(states[i].rules, covers, p);
  }

  /** A NAT rule that is added is one a removal can re-apply, and the commands of a removal
      succeed. */
  ghost predicate BringsBackAll(s: State, e: Event) {
    match e
    case AddNat(_, spec, _, _, _, _) => NM.Faithful(spec)
    case DeleteNat(_, id, refill) => refill.flushed && forall x :: x in s.nats.db && x != id ==> refill.ok(x)
    case FlushNat(header, refills) => header.Some? ==> AllRefilled(NatOwnedBy(s, header.value), s.nats.db, refills)
    case DeleteTenant(tenant, _, refills) => AllRefilled(NatOwnedBy(s, tenant), s.nats.db, refills)
    case _ => true
  }

  lemma DeleteTenantKeepsBands(s: State, tenant: string, removals: RS.Removals, refills: Refills)
    requires NM.Ordered(s.nats) && NM.Indexed(s.nats) && NM.BandsExact(s.nats) && NM.AllFaithful(s.nats)
    requires AllRefilled(NatOwnedBy(s, tenant), s.nats.db, refills)
    ensures var t := Next(s, DeleteTenant(tenant, removals, refills)).nats; NM.BandsExact(t) && NM.AllFaithful(t)
  {
    var flushed := s.(rules := RS.Flush(s.rules, tenant, removals));
    assert NatOwnedBy(flushed, tenant) == NatOwnedBy(s, tenant);
    FlushNatKeepsBands(flushed, tenant, refills);
  }

  lemma AddNatKeepsBands(s: State, tenant: string, quota: int, e: Event)
    requires NM.Ordered(s.nats) && NM.Indexed(s.nats) && NM.BandsExact(s.nats) && NM.AllFaithful(s.nats)
    requires e.AddNat? && e.id !in s.nats.db && NM.Faithful(e.spec)
    ensures var t := DoAddNat(s, tenant, quota, e).nats; NM.BandsExact(t) && NM.AllFaithful(t)
  {
    if NM.AddReply(s.nats, e.spec, e.mode, e.id, e.exhausted, e.ok).Accepted? {
      AfterAddNatKeeps(s.nats, tenant, e);
    }
  }

  lemma DeleteNatKeepsBands(s: State, tenant: string, id: string, refill: NM.Refill)
    requires NM.Ordered(s.nats) && NM.BandsExact(s.nats) && NM.AllFaithful(s.nats)
    requires refill.flushed && forall x :: x in s.nats.db && x != id ==> refill.ok(x)
    ensures var t := DoDeleteNat(s, tenant, id, refill).nats; NM.BandsExact(t) && NM.AllFaithful(t)
  {
    NM.RemoveKeepsBands(s.nats, id, refill);
  }

  lemma StepKeepsBands(s: State, e: Event)
    requires NM.Ordered(s.nats) && NM.Indexed(s.nats) && Enabled(s, e) && BringsBackAll(s, e)
    requires NM.BandsExact(s.nats) && NM.AllFaithful(s.nats)
    ensures NM.BandsExact(Next(s, e).nats) && NM.AllFaithful(Next(s, e).nats)
  {
    match e
    case DeleteTenant(tenant, removals, refills) => DeleteTenantKeepsBands(s, tenant, removals, refills);
    case AddNat(header, _, _, _, _, _) =>
      if Authorize(s.tenants, header).None? {
        AddNatKeepsBands(s, header.value, s.tenants[header.value].maxNat, e);
      }
    case DeleteNat(header, id, refill) =>
      if Authorize(s.tenants, header).None? {
        DeleteNatKeepsBands(s, header.value, id, refill);
      }
    case FlushNat(header, refills) =>
      if Authorize(s.tenants, header).None? {
        FlushNatKeepsBands(s, header.value, refills);
      }
    case _ => RuleEventsKeepNat(s, e);
  }

  /** In every run of such events both NAT bands are the in-order rendering of the live NAT entries. */
  lemma {:induction false} NatBandsStayExact(states: seq<State>, events: seq<Event>, i: nat)
    requires IsRun(states, events) && i < |states|
    requires forall j :: 0 <= j < i ==> BringsBackAll(states[j], events[j])
    ensures NM.BandsExact(states[i].nats) && NM.AllFaithful(states[i].nats)
  {
    if i > 0 {
      NatBandsStayExact(states, events, i - 1);
      BandsRunStep(states, events, i - 1);
    }
  }

  lemma BandsRunStep(states: seq<State>, events: seq<Event>, i: nat)
    requires IsRun(states, events) && i < |events| && BringsBackAll(states[i], events[i])
    requires NM.BandsExact(states[i].nats) && NM.AllFaithful(states[i].nats)
    ensures NM.BandsExact(states[i + 1].nats) && NM.AllFaithful(states[i + 1].nats)
  {
    RunKeepsInv(states, events, i);
    StepKeepsBands(states[i], events[i]);
  }

  /** One deletion of a NAT entry keeps the bands exact exactly when it brings back what remains. */
  lemma DeleteNatBandsExactly(s: State, header: Option<string>, id: string, refill: NM.Refill)
    requires NM.Ordered(s.nats) && NM.BandsExact(s.nats)
    ensures NM.BandsExact(Next(s, DeleteNat(header, id, refill)).nats) <==>
      (Authorize(s.tenants, header).None? && id in NatOwnedBy(s, header.value) ==> NM.BringsBack(s.nats, id, refill))
  {
    if id in s.nats.db {
      NM.RemoveRendersRestExactly(s.nats, id, refill);
    }
  }

  // ---------------------------------------------------------------- isolation

  /** The rules that an event removes: of a registered tenant that anybody deletes, of a tenant that
      flushes, or one that its own tenant deletes; a removal that times out ends it there. */
  ghost predicate RemovesRule(s: State, e: Event, id: string)
    requires id in s.rules.db
  {
    var owner := s.rules.db[id].tenant;
    match e
    case DeleteTenant(tenant, removals, _) =>
      tenant in s.tenants && tenant == owner && id in RS.FlushedIds(s.rules, tenant, removals)
    case FlushRules(header, removals) =>
      Authorize(s.tenants, header).None? && header.value == owner && id in RS.FlushedIds(s.rules, header.value, removals)
    case DeleteRule(header, x, removal) =>
      Authorize(s.tenants, header).None? && header.value == owner && x == id && !RS.Aborts(s.rules.db[id], removal)
    case _ => false
  }

  lemma FlushLoses(s: RS.Rules, tenant: string, removals: RS.Removals, id: string)
    requires RS.Ordered(s) && RS.Indexed(s) && id in s.db
    ensures var t := RS.Flush(s, tenant, removals);
      && (id in t.db <==> id !in RS.FlushedIds(s, tenant, removals))
      && (id in t.db ==> t.db[id] == s.db[id])
    ensures id in RS.FlushedIds(s, tenant, removals) ==> s.db[id].tenant == tenant
  {
    RS.FlushKeeps(s, tenant, removals);
    RS.FlushedAreOwned(s, tenant, removals);
  }

  lemma AddLosesNothing(s: RS.Rules, tenant: string, quota: int, req: RS.Request, newId: string, tc: RS.TcOutcome, id: string)
    requires newId !in s.db && id in s.db
    ensures var t := RS.Add(s, tenant, quota, req, newId, tc); id in t.db && t.db[id] == s.db[id]
  {
  }

  lemma DeleteLoses(s: RS.Rules, tenant: string, x: string, removal: RS.TcRemoval, id: string)
    requires id in s.db
    ensures var t := RS.Delete(s, tenant, x, removal);
      && (id in t.db <==> !(x == id && s.db[id].tenant == tenant && !RS.Aborts(s.db[id], removal)))
      && (id in t.db ==> t.db[id] == s.db[id])
  {
  }

  /** The rule is gone exactly when the event removes it, and otherwise as it was. */
  ghost predicate RuleGoesExactly(s: State, e: Event, id: string)
    requires id in s.rules.db
  {
    var t := Next(s, e).rules;
    && (id in t.db <==> !RemovesRule(s, e, id))
    && (id in t.db ==> t.db[id] == s.rules.db[id])
  }

  lemma DeleteTenantRemoves(s: State, tenant: string, removals: RS.Removals, refills: Refills, id: string)
    requires RS.Ordered(s.rules) && RS.Indexed(s.rules) && id in s.rules.db
    ensures RuleGoesExactly(s, DeleteTenant(tenant, removals, refills), id)
  {
    DeleteTenantRules(s, tenant, removals, refills);
    FlushLoses(s.rules, tenant, removals, id);
  }

  lemma FlushRulesNext(s: State, header: Option<string>, removals: RS.Removals)
    ensures Next(s, FlushRules(header, removals)).rules
         == if Authorize(s.tenants, header).None? then RS.Flush(s.rules, header.value, removals) else s.rules
  {
  }

  lemma FlushRulesRemoves(s: State, header: Option<string>, removals: RS.Removals, id: string)
    requires RS.Ordered(s.rules) && RS.Indexed(s.rules) && id in s.rules.db
    ensures RuleGoesExactly(s, FlushRules(header, removals), id)
  {
    FlushRulesNext(s, header, removals);
    if Authorize(s.tenants, header).None? {
      FlushLoses(s.rules, header.value, removals, id);
      var flushed := id in RS.FlushedIds(s.rules, header.value, removals);
      assert RemovesRule(s, FlushRules(header, removals), id) == flushed;
    } else {
      assert !RemovesRule(s, FlushRules(header, removals), id);
    }
  }

  lemma AddRuleRemoves(s: State, header: Option<string>, req: RS.Request, newId: string, tc: RS.TcOutcome, id: string)
    requires id in s.rules.db && newId !in s.rules.db
    ensures RuleGoesExactly(s, AddRule(header, req, newId, tc), id)
  {
    if Authorize(s.tenants, header).None? {
      AddLosesNothing(s.rules, header.value, s.tenants[header.value].maxRules, req, newId, tc, id);
    }
  }

  lemma DeleteRuleRemoves(s: State, header: Option<string>, x: string, removal: RS.TcRemoval, id: string)
    requires id in s.rules.db
    ensures RuleGoesExactly(s, DeleteRule(header, x, removal), id)
  {
    if Authorize(s.tenants, header).None? {
      DeleteLoses(s.rules, header.value, x, removal, id);
    }
  }

  /** Whatever happens, a rule goes exactly when its own tenant removes it or somebody deletes that
      tenant, and otherwise stays as it was. */
  lemma RulesGoExactly(s: State, e: Event, id: string)
    requires RS.Ordered(s.rules) && RS.Indexed(s.rules) && Enabled(s, e) && id in s.rules.db
    ensures RuleGoesExactly(s, e, id)
  {
    match e
    case DeleteTenant(tenant, removals, refills) => DeleteTenantRemoves(s, tenant, removals, refills, id);
    case AddRule(header, req, newId, tc) => AddRuleRemoves(s, header, req, newId, tc, id);
    case DeleteRule(header, x, removal) => DeleteRuleRemoves(s, header, x, removal, id);
    case FlushRules(header, removals) => FlushRulesRemoves(s, header, removals, id);
    case _ => OtherEventsKeepRules(s, e);
  }

  /** The condition under which a request takes an entry over: it reads the same. */
  predicate TakesOver(s: State, e: Event, id: string) {
    && e.AddNat? && Authorize(s.tenants, e.header).None?
    && |NatOwnedBy(s, e.header.value)| < s.tenants[e.header.value].maxNat
    && (e.spec.Snat? ==> NM.ValidMode(e.mode))
    && id in s.nats.db && NM.NatText(s.nats.db[id].spec) == NM.NatText(e.spec)
  }

  /** The NAT entries that an event removes, and for whom. */
  ghost predicate RemovesNat(s: State, e: Event, id: string)
    requires id in s.nats.db
  {
    var owner := s.nats.db[id].tenant;
    match e
    case DeleteTenant(tenant, removals, _) =>
      owner == Some(tenant) && tenant in s.tenants && RS.GivenUpAt(s.rules, tenant, removals).None?
    case FlushNat(header, _) => owner == header && Authorize(s.tenants, header).None?
    case DeleteNat(header, x, _) => owner == header && Authorize(s.tenants, header).None? && x == id
    case _ => false
  }

  /** The entry is gone exactly when the event removes it, and else is the same rule, of the same
      tenant unless the event takes it over. */
  ghost predicate NatGoesExactly(s: State, e: Event, id: string)
    requires id in s.nats.db
  {
    var t := Next(s, e).nats;
    && (id in t.db <==> !RemovesNat(s, e, id))
    && (id in t.db ==>
          (t.db[id].spec == s.nats.db[id].spec
           && t.db[id].tenant == if TakesOver(s, e, id) then e.header else s.nats.db[id].tenant))
  }

  lemma AddKeepsEntry(n: NM.Nat, e: Event, id: string)
    requires e.AddNat? && id in n.db && e.id != id
    ensures var t := NM.Add(n, e.spec, e.mode, e.id, e.exhausted, e.ok); id in t.db && t.db[id] == n.db[id]
  {
  }

  lemma AnsweredWithAlike(n: NM.Nat, e: Event, id: string)
    requires e.AddNat? && NM.Indexed(n) && id in n.db && e.id != id
    ensures NM.AddReply(n, e.spec, e.mode, e.id, e.exhausted, e.ok) == NM.Accepted(id)
       <==> (e.spec.Snat? ==> NM.ValidMode(e.mode)) && NM.NatText(n.db[id].spec) == NM.NatText(e.spec)
  {
  }

  lemma AfterAddNatEntry(n: NM.Nat, tenant: string, e: Event, id: string)
    requires e.AddNat? && NM.Indexed(n) && id in n.db && e.id != id
    requires NM.AddReply(n, e.spec, e.mode, e.id, e.exhausted, e.ok).Accepted?
    ensures var t := AfterAddNat(n, tenant, e);
      && id in t.db && t.db[id].spec == n.db[id].spec
      && t.db[id].tenant == if NM.AddReply(n, e.spec, e.mode, e.id, e.exhausted, e.ok) == NM.Accepted(id)
                            then Some(tenant) else n.db[id].tenant
  {
    AddKeepsEntry(n, e, id);
  }

  lemma AddNatTakesOver(s: State, e: Event, id: string)
    requires e.AddNat? && NM.Indexed(s.nats) && id in s.nats.db && e.id != id
    ensures NatGoesExactly(s, e, id)
  {
    AnsweredWithAlike(s.nats, e, id);
    AddNatNext(s, e);
    assert !RemovesNat(s, e, id);
    if Authorize(s.tenants, e.header).None? && NM.AddReply(s.nats, e.spec, e.mode, e.id, e.exhausted, e.ok).Accepted? {
      AfterAddNatEntry(s.nats, e.header.value, e, id);
    }
  }

  lemma AddNatNext(s: State, e: Event)
    requires e.AddNat?
    ensures Next(s, e).nats ==
      if Authorize(s.tenants, e.header).None? && |NatOwnedBy(s, e.header.value)| < s.tenants[e.header.value].maxNat
         && NM.AddReply(s.nats, e.spec, e.mode, e.id, e.exhausted, e.ok).Accepted?
      then AfterAddNat(s.nats, e.header.value, e) else s.nats
  {
  }

  lemma FlushNatGoes(s: State, tenant: string, ok: Refills, id: string)
    requires NM.Ordered(s.nats) && NM.Indexed(s.nats) && s.tracked == s.nats.db.Keys && id in s.nats.db
    ensures var t := DoFlushNat(s, tenant, ok).nats;
      && (id in t.db <==> s.nats.db[id].tenant != Some(tenant))
      && (id in t.db ==> t.db[id] == s.nats.db[id])
  {
    FlushNatRemoves(s, tenant, ok);
  }

  lemma DeleteNatGoes(s: State, tenant: string, x: string, ok: NM.Refill, id: string)
    requires s.tracked == s.nats.db.Keys && id in s.nats.db
    ensures var t := DoDeleteNat(s, tenant, x, ok).nats;
      && (id in t.db <==> !(x == id && s.nats.db[id].tenant == Some(tenant)))
      && (id in t.db ==> t.db[id] == s.nats.db[id])
  {
  }

  lemma DeleteTenantTakesNat(s: State, tenant: string, removals: RS.Removals, refills: Refills, id: string)
    requires NM.Ordered(s.nats) && NM.Indexed(s.nats) && s.tracked == s.nats.db.Keys && id in s.nats.db
    ensures NatGoesExactly(s, DeleteTenant(tenant, removals, refills), id)
  {
    if tenant in s.tenants {
      FlushNatGoes(s.(rules := RS.Flush(s.rules, tenant, removals)), tenant, refills, id);
    }
  }

  lemma FlushNatNext(s: State, header: Option<string>, refills: Refills)
    ensures Next(s, FlushNat(header, refills))
         == if Authorize(s.tenants, header).None? then DoFlushNat(s, header.value, refills) else s
  {
  }

  lemma FlushTakesNat(s: State, header: Option<string>, refills: Refills, id: string)
    requires NM.Ordered(s.nats) && NM.Indexed(s.nats) && s.tracked == s.nats.db.Keys && id in s.nats.db
    ensures NatGoesExactly(s, FlushNat(header, refills), id)
  {
    FlushNatNext(s, header, refills);
    if Authorize(s.tenants, header).None? {
      FlushNatGoes(s, header.value, refills, id);
      assert RemovesNat(s, FlushNat(header, refills), id) == (s.nats.db[id].tenant == Some(header.value));
    } else {
      assert !RemovesNat(s, FlushNat(header, refills), id);
    }
    assert !TakesOver(s, FlushNat(header, refills), id);
  }

  lemma DeleteTakesNat(s: State, header: Option<string>, x: string, refill: NM.Refill, id: string)
    requires s.tracked == s.nats.db.Keys && id in s.nats.db
    ensures NatGoesExactly(s, DeleteNat(header, x, refill), id)
  {
    if Authorize(s.tenants, header).None? {
      DeleteNatGoes(s, header.value, x, refill, id);
    }
  }

  /** A NAT entry goes exactly when its tenant deletes or flushes it or anybody deletes that tenant, and
      changes hands exactly when an accepted request reads the same. */
  lemma NatChangesHandsExactly(s: State, e: Event, id: string)
    requires Stores(s) && s.tracked == s.nats.db.Keys && Enabled(s, e) && id in s.nats.db
    ensures NatGoesExactly(s, e, id)
  {
    match e
    case AddNat(_, _, _, _, _, _) => AddNatTakesOver(s, e, id);
    case DeleteTenant(tenant, removals, refills) => DeleteTenantTakesNat(s, tenant, removals, refills, id);
    case FlushNat(header, refills) => FlushTakesNat(s, header, refills, id);
    case DeleteNat(header, x, refill) => DeleteTakesNat(s, header, x, refill, id);
    case _ => RuleEventsKeepNat(s, e);
  }

  lemma RuleEventsKeepNat(s: State, e: Event)
    requires e.Register? || e.AddRule? || e.DeleteRule? || e.FlushRules?
    ensures Next(s, e).nats == s.nats
  {
  }

  // ---------------------------------------------------------------- where live items come from

  /** The event makes this NAT entry: a request for it by a registered tenant whose command succeeds. */
  ghost predicate MakesNat(s: State, e: Event, id: string, spec: NM.NatSpec) {
    && e.AddNat? && e.id == id && e.ok && e.spec == spec
    && e.header.Some? && e.header.value in s.tenants
    && (spec.Snat? && e.mode == "masquerade" ==> !e.exhausted)
  }

  lemma FlushMakesNoNat(s: State, tenant: string, ok: Refills)
    requires NM.Ordered(s.nats) && NM.Indexed(s.nats) && s.tracked == s.nats.db.Keys
    ensures DoFlushNat(s, tenant, ok).nats.db.Keys <= s.nats.db.Keys
  {
    FlushNatRemoves(s, tenant, ok);
  }

  lemma AddMakesNat(s: State, e: Event, id: string)
    requires e.AddNat? && id in Next(s, e).nats.db && id !in s.nats.db
    ensures MakesNat(s, e, id, Next(s, e).nats.db[id].spec)
  {
    AddNatNext(s, e);
    NM.AddMeans(s.nats, e.spec, e.mode, e.id, e.exhausted, e.ok);
  }

  lemma DeleteTenantMakesNoNat(s: State, tenant: string, removals: RS.Removals, refills: Refills)
    requires NM.Ordered(s.nats) && NM.Indexed(s.nats) && s.tracked == s.nats.db.Keys
    ensures Next(s, DeleteTenant(tenant, removals, refills)).nats.db.Keys <= s.nats.db.Keys
  {
    if tenant in s.tenants {
      FlushMakesNoNat(s.(rules := RS.Flush(s.rules, tenant, removals)), tenant, refills);
    }
  }

  lemma FlushNatMakesNoNat(s: State, header: Option<string>, refills: Refills)
    requires NM.Ordered(s.nats) && NM.Indexed(s.nats) && s.tracked == s.nats.db.Keys
    ensures Next(s, FlushNat(header, refills)).nats.db.Keys <= s.nats.db.Keys
  {
    FlushNatNext(s, header, refills);
    if Authorize(s.tenants, header).None? {
      FlushMakesNoNat(s, header.value, refills);
    }
  }

  lemma DeleteNatMakesNoNat(s: State, header: Option<string>, id: string, refill: NM.Refill)
    ensures Next(s, DeleteNat(header, id, refill)).nats.db.Keys <= s.nats.db.Keys
  {
  }

  /** Only a request for a NAT rule makes an entry. */
  lemma NoNewNat(s: State, e: Event)
    requires NM.Ordered(s.nats) && NM.Indexed(s.nats) && s.tracked == s.nats.db.Keys && !e.AddNat?
    ensures Next(s, e).nats.db.Keys <= s.nats.db.Keys
  {
    match e
    case DeleteTenant(tenant, removals, refills) => DeleteTenantMakesNoNat(s, tenant, removals, refills);
    case FlushNat(header, refills) => FlushNatMakesNoNat(s, header, refills);
    case DeleteNat(header, id, refill) => DeleteNatMakesNoNat(s, header, id, refill);
    case _ => RuleEventsKeepNat(s, e);
  }

  lemma NewNatIsOwn(s: State, e: Event, id: string)
    requires NM.Ordered(s.nats) && NM.Indexed(s.nats) && s.tracked == s.nats.db.Keys
    requires id in Next(s, e).nats.db && id !in s.nats.db
    ensures MakesNat(s, e, id, Next(s, e).nats.db[id].spec)
  {
    if e.AddNat? {
      AddMakesNat(s, e, id);
    } else {
      NoNewNat(s, e);
    }
  }

  lemma NatComesFrom(s: State, e: Event, id: string)
    requires Enabled(s, e) && Stores(s) && s.tracked == s.nats.db.Keys && id in Next(s, e).nats.db
    ensures var spec := Next(s, e).nats.db[id].spec;
      (id in s.nats.db && s.nats.db[id].spec == spec) || MakesNat(s, e, id, spec)
  {
    if id in s.nats.db {
      NatChangesHandsExactly(s, e, id);
    } else {
      NewNatIsOwn(s, e, id);
    }
  }

  lemma StepNatOrigin(states: seq<State>, events: seq<Event>, i: nat, id: string)
    requires IsRun(states, events) && i < |events| && id in states[i + 1].nats.db
    ensures var spec := states[i + 1].nats.db[id].spec;
      (id in states[i].nats.db && states[i].nats.db[id].spec == spec) || MakesNat(states[i], events[i], id, spec)
  {
    RunKeepsInv(states, events, i);
    NatComesFrom(states[i], events[i], id);
  }

  /** In every run each live NAT entry was made by an earlier request for it whose command succeeded. */
  lemma {:induction false} LiveNatWasInstalled(states: seq<State>, events: seq<Event>, i: nat, id: string) returns (k: nat)
    requires IsRun(states, events) && i < |states| && id in states[i].nats.db
    ensures k < i && MakesNat(states[k], events[k], id, states[i].nats.db[id].spec)
    decreases i
  {
    assert i > 0;
    StepNatOrigin(states, events, i - 1, id);
    if MakesNat(states[i - 1], events[i - 1], id, states[i].nats.db[id].spec) {
      k := i - 1;
    } else {
      k := LiveNatWasInstalled(states, events, i - 1, id);
    }
  }

  /** The event makes this rule: a request of its tenant for what it says, both of whose commands go
      through. */
  ghost predicate MakesRule(s: State, e: Event, r: RS.Rule) {
    && e.AddRule? && e.id == r.id && e.tc.Installed? && e.header == Some(r.tenant) && r.tenant in s.tenants
    && e.req.fields == r.fields && e.req.protocol == r.protocol && e.req.action == r.action && e.req.priority == r.priority
  }

  lemma NewRuleIsOwn(s: State, e: Event, id: string)
    requires Enabled(s, e) && Stores(s) && id in Next(s, e).rules.db && id !in s.rules.db
    ensures MakesRule(s, e, Next(s, e).rules.db[id])
  {
    match e
    case AddRule(header, req, newId, tc) =>
      if Authorize(s.tenants, header).None? {
        RS.AddMeans(s.rules, header.value, s.tenants[header.value].maxRules, req, newId, tc);
      }
    case DeleteTenant(tenant, removals, refills) =>
      DeleteTenantRules(s, tenant, removals, refills);
      RS.FlushKeeps(s.rules, tenant, removals);
    case FlushRules(header, removals) =>
      if Authorize(s.tenants, header).None? {
        RS.FlushKeeps(s.rules, header.value, removals);
      }
    case DeleteRule(header, x, removal) =>
      if Authorize(s.tenants, header).None? {
        RS.DeleteMeans(s.rules, header.value, x, removal);
      }
    case _ => OtherEventsKeepRules(s, e);
  }

  lemma RuleComesFrom(s: State, e: Event, id: string)
    requires Enabled(s, e) && Stores(s) && id in Next(s, e).rules.db
    ensures (id in s.rules.db && Next(s, e).rules.db[id] == s.rules.db[id]) || MakesRule(s, e, Next(s, e).rules.db[id])
  {
    if id in s.rules.db {
      RulesGoExactly(s, e, id);
    } else {
      NewRuleIsOwn(s, e, id);
    }
  }

  lemma StepOrigin(states: seq<State>, events: seq<Event>, i: nat, id: string)
    requires IsRun(states, events) && i < |events| && id in states[i + 1].rules.db
    ensures || (id in states[i].rules.db && states[i + 1].rules.db[id] == states[i].rules.db[id])
            || MakesRule(states[i], events[i], states[i + 1].rules.db[id])
  {
    RunKeepsInv(states, events, i);
    RuleComesFrom(states[i], events[i], id);
  }

  /** In every run each live rule was made by an earlier request of its tenant for exactly what it says. */
  lemma {:induction false} LiveRuleWasInstalled(states: seq<State>, events: seq<Event>, i: nat, id: string) returns (k: nat)
    requires IsRun(states, events) && i < |states| && id in states[i].rules.db
    ensures k < i && MakesRule(states[k], events[k], states[i].rules.db[id])
    decreases i
  {
    assert i > 0;
    StepOrigin(states, events, i - 1, id);
    if MakesRule(states[i - 1], events[i - 1], states[i].rules.db[id]) {
      k := i - 1;
    } else {
      k := LiveRuleWasInstalled(states, events, i - 1, id);
    }
  }

  /** A tenant is registered after an event exactly when the event registers it, or it was and the event
      does not delete it, going through to the end; and its quotas are those it was registered with. */
  lemma TenantsChangeExactly(s: State, e: Event, tenant: string)
    ensures tenant in Next(s, e).tenants <==>
      || (e.Register? && e.tenant == tenant)
      || (tenant in s.tenants
          && !(e.DeleteTenant? && e.tenant == tenant && RS.GivenUpAt(s.rules, tenant, e.removals).None?))
    ensures tenant in s.tenants && tenant in Next(s, e).tenants ==> Next(s, e).tenants[tenant] == s.tenants[tenant]
    ensures e.Register? && tenant == e.tenant && tenant !in s.tenants ==> Next(s, e).tenants[tenant] == e.quota
  {
  }

  /** The key, which names a live rule in `s`, still names it in `t` if that still has the rule. */
  ghost predicate KeyKept(s: RS.Rules, t: RS.Rules, key: string)
    requires key in s.byKey
  {
    s.byKey[key] in t.db ==> key in t.byKey && t.byKey[key] == s.byKey[key]
  }

  lemma AddKeepsKey(s: RS.Rules, tenant: string, quota: int, req: RS.Request, id: string, tc: RS.TcOutcome, key: string)
    requires key in s.byKey && s.byKey[key] in s.db
    ensures KeyKept(s, RS.Add(s, tenant, quota, req, id, tc), key)
  {
    RS.AddMeans(s, tenant, quota, req, id, tc);
  }

  lemma DeleteKeepsKey(s: RS.Rules, tenant: string, id: string, removal: RS.TcRemoval, key: string)
    requires key in s.byKey && s.byKey[key] in s.db
    ensures KeyKept(s, RS.Delete(s, tenant, id, removal), key)
  {
    RS.DeleteMeans(s, tenant, id, removal);
  }

  lemma FlushKeepsKey(s: RS.Rules, tenant: string, removals: RS.Removals, key: string)
    requires RS.Ordered(s) && RS.Indexed(s) && key in s.byKey && s.byKey[key] in s.db
    ensures KeyKept(s, RS.Flush(s, tenant, removals), key)
  {
    RS.FlushMeans(s, tenant, removals);
    RS.FlushKeeps(s, tenant, removals);
    RS.FlushEndsExactly(s, tenant, removals);
  }

  lemma AddRuleNext(s: State, header: Option<string>, req: RS.Request, id: string, tc: RS.TcOutcome)
    ensures Next(s, AddRule(header, req, id, tc)).rules
         == if Authorize(s.tenants, header).None?
            then RS.Add(s.rules, header.value, s.tenants[header.value].maxRules, req, id, tc) else s.rules
  {
  }

  lemma DeleteRuleNext(s: State, header: Option<string>, id: string, removal: RS.TcRemoval)
    ensures Next(s, DeleteRule(header, id, removal)).rules
         == if Authorize(s.tenants, header).None? then RS.Delete(s.rules, header.value, id, removal) else s.rules
  {
  }

  lemma AddRuleKeepsKey(s: State, header: Option<string>, req: RS.Request, id: string, tc: RS.TcOutcome, key: string)
    requires key in s.rules.byKey && s.rules.byKey[key] in s.rules.db
    ensures KeyKept(s.rules, Next(s, AddRule(header, req, id, tc)).rules, key)
  {
    AddRuleNext(s, header, req, id, tc);
    if Authorize(s.tenants, header).None? {
      AddKeepsKey(s.rules, header.value, s.tenants[header.value].maxRules, req, id, tc, key);
    }
  }

  lemma DeleteRuleKeepsKey(s: State, header: Option<string>, id: string, removal: RS.TcRemoval, key: string)
    requires key in s.rules.byKey && s.rules.byKey[key] in s.rules.db
    ensures KeyKept(s.rules, Next(s, DeleteRule(header, id, removal)).rules, key)
  {
    DeleteRuleNext(s, header, id, removal);
    if Authorize(s.tenants, header).None? {
      DeleteKeepsKey(s.rules, header.value, id, removal, key);
    }
  }

  /** An idempotency key that names a live rule goes on naming it for as long as the rule lives. */
  lemma KeyStaysWithRule(s: State, e: Event, key: string)
    requires RS.Ordered(s.rules) && RS.Indexed(s.rules) && key in s.rules.byKey && s.rules.byKey[key] in s.rules.db
    ensures KeyKept(s.rules, Next(s, e).rules, key)
  {
    match e
    case AddRule(header, req, id, tc) => AddRuleKeepsKey(s, header, req, id, tc, key);
    case DeleteRule(header, id, removal) => DeleteRuleKeepsKey(s, header, id, removal, key);
    case DeleteTenant(tenant, removals, refills) =>
      DeleteTenantRules(s, tenant, removals, refills);
      FlushKeepsKey(s.rules, tenant, removals, key);
    case FlushRules(header, removals) =>
      FlushRulesNext(s, header, removals);
      if Authorize(s.tenants, header).None? {
        FlushKeepsKey(s.rules, header.value, removals, key);
      }
    case _ => OtherEventsKeepRules(s, e);
  }
}
