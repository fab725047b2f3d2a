/** The endpoints as methods on the objects they update. */
module FirewallEndpoints {
  import opened Prelude
  import opened FirewallService
  import RS = RuleStore
  import RuleTable
  import NM = NatManager

  class Service {
    const table: RuleTable.Table
    const manager: NM.Manager
    var tenants: map<string, Quota>
    var tracked: set<string>

    ghost function View(): State
      reads this, table, manager
    {
      State(tenants, table.View(), manager.View(), tracked)
    }

    constructor ()
      ensures fresh(table) && fresh(manager) && View() == START
    {
      table := new RuleTable.Table();
      manager := new NM.Manager();
      tenants := map[];
      tracked := {};
    }

    /** False when the tenant exists. */
    method RegisterTenant(tenant: string, quota: Quota) returns (registered: bool)
      modifies this
      ensures View() == Next(old(View()), Register(tenant, quota))
      ensures registered == (tenant !in old(tenants))
      ensures tenants == if registered then old(tenants)[tenant := quota] else old(tenants)
    {
      if tenant in tenants {
        return false;
      }
      tenants := tenants[tenant := quota];
      return true;
    }

    method AddRuleFor(header: Option<string>, req: RS.Request, id: string, tc: RS.TcOutcome)
      returns (denied: Option<Denied>, reply: RS.AddReply)
      modifies table
      ensures View() == Next(old(View()), AddRule(header, req, id, tc))
      ensures denied == Authorize(tenants, header)
      ensures denied.None? ==>
        reply == RS.AddAnswer(old(table.View()), header.value, tenants[header.value].maxRules, req, id, tc)
    {
      denied := Authorize(tenants, header);
      reply := RS.TcFailed;
      if denied.None? {
        reply := table.AddRule(header.value, tenants[header.value].maxRules, req, id, tc);
      }
    }

    method DeleteRuleFor(header: Option<string>, id: string, tc: RS.TcRemoval) returns (denied: Option<Denied>, reply: RS.DeleteReply)
      modifies table
      ensures View() == Next(old(View()), DeleteRule(header, id, tc))
      ensures denied == Authorize(tenants, header)
      ensures denied.None? ==> reply == RS.DeleteAnswer(old(table.View()), header.value, id, tc)
    {
      denied := Authorize(tenants, header);
      reply := RS.NotFound;
      if denied.None? {
        reply := table.DeleteRule(header.value, id, tc);
      }
    }

    /** No count when a removal timed out. */
    method FlushRulesFor(header: Option<string>, tc: RS.Removals) returns (denied: Option<Denied>, count: Option<nat>)
      requires RS.Ordered(table.View())
      modifies table
      ensures View() == Next(old(View()), FlushRules(header, tc))
      ensures denied == Authorize(tenants, header)
      ensures denied.None? ==> (count.None? <==> RS.GivenUpAt(old(table.View()), header.value, tc).Some?)
      ensures denied.None? && count.Some? ==> count.value == |RS.OwnedBy(old(table.View()), header.value)|
    {
      denied := Authorize(tenants, header);
      count := None;
      if denied.None? {
        count := table.FlushTenant(header.value, tc);
      }
    }

    method CallManager(spec: NM.NatSpec, mode: string, id: string, exhausted: bool, ok: bool)
      returns (reply: NM.NatReply)
      modifies manager
      ensures manager.View() == NM.Add(old(manager.View()), spec, mode, id, exhausted, ok)
      ensures reply == NM.AddReply(old(manager.View()), spec, mode, id, exhausted, ok)
    {
      match spec {
        case Snat(privateIp, publicIp) =>
          reply := manager.AddSnat(privateIp, publicIp, mode, id, exhausted, ok);
        case Dnat(publicIp, publicPort, privateIp, privatePort, protocol) =>
          reply := manager.AddDnat(publicIp, publicPort, privateIp, privatePort, protocol, id, ok);
        case PortForward(publicIp, publicPort, privateIp, privatePort, protocol) =>
          reply := manager.AddPortForward(publicIp, publicPort, privateIp, privatePort, protocol, id, ok);
      }
    }

    /** Writes the tenant into the entry object the manager shares, and keeps its id. */
    method ClaimEntry(id: string, tenant: string)
      requires id in manager.db
      modifies this`tracked, manager
      ensures manager.View() == Claimed(old(manager.View()), id, tenant)
      ensures tracked == old(tracked) + {id}
    {
      manager.SetTenant(id, tenant);
      tracked := tracked + {id};
    }

    /** What the three NAT endpoints do around the manager's three add operations. */
    method AddNatFor(header: Option<string>, spec: NM.NatSpec, mode: string, id: string, exhausted: bool, ok: bool)
      returns (denied: Option<Denied>, overQuota: bool, reply: NM.NatReply)
      modifies this, manager
      ensures View() == Next(old(View()), AddNat(header, spec, mode, id, exhausted, ok))
      ensures denied == Authorize(old(tenants), header)
      ensures denied.None? ==> overQuota == (|NatOwnedBy(old(View()), header.value)| >= old(tenants)[header.value].maxNat)
      ensures denied.None? && !overQuota ==> reply == NM.AddReply(old(manager.View()), spec, mode, id, exhausted, ok)
    {
      denied := Authorize(tenants, header);
      overQuota := false;
      reply := NM.CommandFailed;
      if denied.Some? {
        return;
      }
      var count := CountNat(header.value);
      if count >= tenants[header.value].maxNat {
        overQuota := true;
        return;
      }
      ghost var e := AddNat(header, spec, mode, id, exhausted, ok);
      reply := CallManager(spec, mode, id, exhausted, ok);
      if reply.Accepted? {
        AcceptedIsLive(old(manager.View()), e);
        ClaimEntry(reply.id, header.value);
      }
    }

    method CountNat(tenant: string) returns (n: nat)
      ensures n == |NatOwnedBy(View(), tenant)|
    {
      ghost var owned := NatOwnedBy(View(), tenant);
      var ids := Elements(tracked);
      n := 0;
      for i := 0 to |ids|
        invariant n == |OwnedNatIds(ids[..i], owned)|
      {
        assert ids[..i + 1][..i] == ids[..i];
        if ids[i] in manager.db && manager.db[ids[i]].tenant == Some(tenant) {
          n := n + 1;
        }
      }
      assert ids[..|ids|] == ids;
      OwnedNatIdsMembers(ids, owned);
      OwnedNatIdsDistinct(ids, owned);
      DistinctSize(OwnedNatIds(ids, owned));
      assert Members(ids) * owned == owned;
    }

    method DeleteNatFor(header: Option<string>, id: string, refill: NM.Refill) returns (denied: Option<Denied>, reply: RS.DeleteReply)
      requires tracked == manager.db.Keys
      modifies this, manager
      ensures View() == Next(old(View()), DeleteNat(header, id, refill))
      ensures denied == Authorize(old(tenants), header)
      ensures denied.None? ==> reply == if id !in old(tracked) then RS.NotFound
                                        else if id !in NatOwnedBy(old(View()), header.value) then RS.NotOwner
                                        else RS.RuleDeleted
    {
      denied := Authorize(tenants, header);
      reply := RS.NotFound;
      if denied.Some? || id !in tracked {
        return;
      }
      if manager.db[id].tenant != Some(header.value) {
        reply := RS.NotOwner;
        return;
      }
      var _ := manager.RemoveNat(id, refill);
      tracked := tracked - {id};
      reply := RS.RuleDeleted;
    }

    /** Removes the tenant's NAT entries one after another. */
    method RemoveNatOf(tenant: string, ok: Refills)
      modifies this, manager
      ensures View() == DoFlushNat(old(View()), tenant, ok)
    {
      var owned := set id | id in tracked && id in manager.db && manager.db[id].tenant == Some(tenant);
      var ids := OwnedNatIds(manager.order, owned);
      ghost var before := manager.View();
      assert RemoveAll(before, ids[..0], ok) == before;
      for i := 0 to |ids|
        invariant manager.View() == RemoveAll(before, ids[..i], ok)
        invariant tracked == old(tracked) && tenants == old(tenants)
      {
        assert ids[..i + 1][..i] == ids[..i];
        var _ := manager.RemoveNat(ids[i], ok(ids[i]));
      }
      assert ids[..|ids|] == ids;
      tracked := tracked - owned;
    }

    method FlushNatFor(header: Option<string>, ok: Refills) returns (denied: Option<Denied>)
      modifies this, manager
      ensures View() == Next(old(View()), FlushNat(header, ok))
      ensures denied == Authorize(old(tenants), header)
    {
      denied := Authorize(tenants, header);
      if denied.None? {
        RemoveNatOf(header.value, ok);
      }
    }

    /** False when there is no such tenant. When the removal of one of its rules times out, the tenant
        stays, with its remaining rules and all its NAT entries. */
    method RemoveTenant(tenant: string, tc: RS.Removals, ok: Refills) returns (found: bool)
      requires RS.Ordered(table.View())
      modifies this, table, manager
      ensures View() == Next(old(View()), DeleteTenant(tenant, tc, ok))
      ensures found == (tenant in old(tenants))
      ensures tenants == if found && RS.GivenUpAt(old(table.View()), tenant, tc).None? then old(tenants) - {tenant} else old(tenants)
    {
      if tenant !in tenants {
        return false;
      }
      var count := table.FlushTenant(tenant, tc);
      if count.None? {
        return true;
      }
      RemoveNatOf(tenant, ok);
      tenants := tenants - {tenant};
      return true;
    }
  }

  lemma {:induction false} OwnedNatIdsDistinct(order: seq<string>, owned: set<string>)
    requires Distinct(order)
    ensures Distinct(OwnedNatIds(order, owned))
  {
    if order != [] {
      var front, last := order[..|order| - 1], order[|order| - 1];
      OwnedNatIdsDistinct(front, owned);
      OwnedNatIdsMembers(front, owned);
      assert last !in Members(front);
      assert last !in Members(OwnedNatIds(front, owned));
    }
  }
}
