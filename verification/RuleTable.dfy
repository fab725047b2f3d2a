/** The rule store as the object the endpoints update in place. */
module RuleTable {
  import opened Prelude
  import opened TcFilters
  import opened RuleSignatures
  import opened RuleStore

  class Table {
    var db: map<string, Rule>
    var order: seq<string>
    var bySignature: map<string, string>
    var byKey: map<string, string>
    var internet: seq<Filter>
    var client: seq<Filter>

    ghost function View(): Rules
      reads this
    {
      Rules(db, order, bySignature, byKey, internet, client)
    }

    constructor ()
      ensures View() == EMPTY
    {
      db, order, bySignature, byKey, internet, client := map[], [], map[], map[], [], [];
    }

    method Find(tenant: string, req: Request) returns (r: Option<Rule>)
      ensures r == FindExisting(View(), tenant, req)
    {
      if GivenText(req.idempotencyKey) && req.idempotencyKey.value in byKey {
        var id := byKey[req.idempotencyKey.value];
        if id in db {
          return Some(db[id]);
        }
      }
      var sig := RequestSignature(tenant, req);
      if sig in bySignature {
        var id := bySignature[sig];
        if id in db {
          return Some(db[id]);
        }
      }
      return None;
    }

    method CountOwned(tenant: string) returns (n: nat)
      ensures n == |OwnedBy(View(), tenant)|
    {
      var ids := Elements(db.Keys);
      n := 0;
      for i := 0 to |ids|
        invariant n == |OwnedIds(ids[..i], db, tenant)|
      {
        assert ids[..i + 1][..i] == ids[..i];
        if db[ids[i]].tenant == tenant {
          n := n + 1;
        }
      }
      assert ids[..|ids|] == ids;
      OwnedIdsMembers(ids, db, tenant);
      DistinctSize(OwnedIds(ids, db, tenant));
      assert Members(OwnedIds(ids, db, tenant)) == OwnedBy(View(), tenant);
    }

    /** Installs the rule's two filters; false when a command is refused or times out, which leaves
        what went in before it in place. */
    method Install(r: Rule, tc: TcOutcome) returns (installed: bool)
      requires tc.Installed? || tc.Abandoned? ==> r.handleFwd == tc.fwd && r.handleRev == tc.rev
      requires tc.SecondRefused? ==> r.handleFwd == tc.fwd
      modifies this`internet, this`client
      ensures installed == tc.Installed?
      ensures internet == if tc.FirstRefused? then old(internet) else old(internet) + [ForwardFilter(r)]
      ensures client == if tc.Installed? || tc.Abandoned? then old(client) + [ReverseFilter(r)] else old(client)
    {
      var action := if r.action == Allow then Redirect else DropPacket;
      var cmd := BuildFlowerCmd(r.fields, ProtocolText(r.protocol));
      if tc.FirstRefused? {
        return false;
      }
      internet := internet + [Filter(r.handleFwd, r.priority, cmd, action)];
      cmd := BuildFlowerCmd(Fields(r.fields.dst, r.fields.src, r.fields.dstPort, r.fields.srcPort), ProtocolText(r.protocol));
      if tc.SecondRefused? {
        return false;
      }
      client := client + [Filter(r.handleRev, r.priority, cmd, action)];
      return tc.Installed?;
    }

    method AddRule(tenant: string, quota: int, req: Request, id: string, tc: TcOutcome) returns (reply: AddReply)
      modifies this
      ensures View() == Add(old(View()), tenant, quota, req, id, tc)
      ensures reply == AddAnswer(old(View()), tenant, quota, req, id, tc)
      ensures reply.Created? ==> IsNew(old(View()), tenant, req) && |OwnedBy(old(View()), tenant)| < quota && tc.Installed?
      ensures reply.Created? ==>
                && reply.rule == Rule(id, tenant, req.fields, req.protocol, req.action, req.priority,
                                      tc.fwd, tc.rev, tc.fwdKnown, tc.revKnown)
                && db == old(db)[id := reply.rule] && order == old(order) + [id]
      ensures !reply.Created? ==> unchanged(this`db, this`order, this`bySignature, this`byKey)
    {
      AddMeans(View(), tenant, quota, req, id, tc);
      var existing := Find(tenant, req);
      if existing.Some? {
        return Existing(existing.value);
      }
      var count := CountOwned(tenant);
      if count >= quota {
        return QuotaExceeded;
      }
      var rule := NewRule(tenant, req, id, tc);
      var installed := Install(rule, tc);
      if !installed {
        return TcFailed;
      }
      db := db[id := rule];
      order := order + [id];
      bySignature := bySignature[RequestSignature(tenant, req) := id];
      if GivenText(req.idempotencyKey) {
        byKey := byKey[req.idempotencyKey.value := id];
      }
      return Created(rule);
    }

    /** Gives one deletion command on a port. */
    method RemoveFilter(onInternet: bool, handle: nat, priority: int, outcome: Command)
      modifies this`internet, this`client
      ensures internet == if onInternet && Applied(outcome) then Deleted(old(internet), handle, priority) else old(internet)
      ensures client == if !onInternet && Applied(outcome) then Deleted(old(client), handle, priority) else old(client)
    {
      if outcome.Succeeds? || (outcome.TimesOut? && outcome.applied) {
        if onInternet {
          internet := Deleted(internet, handle, priority);
        } else {
          client := Deleted(client, handle, priority);
        }
      }
    }

    /** Gives the deletion commands of one rule: none for a filter whose handle is not known, and
        none for the reverse filter after the first command failed. True when one timed out. */
    method RemoveFilters(rule: Rule, tc: TcRemoval) returns (givenUp: bool)
      modifies this`internet, this`client
      ensures givenUp == Aborts(rule, tc)
      ensures View() == GivenUp(old(View()), rule, tc)
      ensures var second := rule.revKnown && (rule.fwdKnown ==> tc.fwd == Succeeds);
        && (givenUp <==> (rule.fwdKnown && tc.fwd.TimesOut?) || (second && tc.rev.TimesOut?))
        && internet == (if rule.fwdKnown && (tc.fwd == Succeeds || tc.fwd == TimesOut(true))
                        then Deleted(old(internet), rule.handleFwd, rule.priority) else old(internet))
        && client == (if second && (tc.rev == Succeeds || tc.rev == TimesOut(true))
                      then Deleted(old(client), rule.handleRev, rule.priority) else old(client))
    {
      if rule.fwdKnown {
        RemoveFilter(true, rule.handleFwd, rule.priority, tc.fwd);
        if !tc.fwd.Succeeds? {
          return tc.fwd.TimesOut?;
        }
      }
      if rule.revKnown {
        RemoveFilter(false, rule.handleRev, rule.priority, tc.rev);
        return tc.rev.TimesOut?;
      }
      return false;
    }

    method Forget(id: string)
      modifies this`db, this`order
      ensures db == old(db) - {id} && order == KeepIds(old(order), {id})
    {
      order := KeepIds(order, {id});
      db := db - {id};
    }

    method CleanIndexes(ids: seq<string>)
      modifies this`bySignature, this`byKey
      ensures View() == Unindex(old(View()), Members(ids))
    {
      bySignature := map sig | sig in bySignature && bySignature[sig] !in ids :: bySignature[sig];
      byKey := map key | key in byKey && byKey[key] !in ids :: byKey[key];
    }

    method DeleteRule(tenant: string, id: string, tc: TcRemoval) returns (reply: DeleteReply)
      modifies this
      ensures View() == Delete(old(View()), tenant, id, tc)
      ensures reply == DeleteAnswer(old(View()), tenant, id, tc)
      ensures reply == NotFound <==> id !in old(db)
      ensures reply == NotOwner <==> id in old(db) && old(db)[id].tenant != tenant
      ensures db == if reply == RuleDeleted then old(db) - {id} else old(db)
      ensures LosesEntries(old(View()), View(), if reply == RuleDeleted then {id} else {})
    {
      DeleteMeans(View(), tenant, id, tc);
      if id !in db {
        return NotFound;
      }
      if db[id].tenant != tenant {
        return NotOwner;
      }
      var givenUp := RemoveFilters(db[id], tc);
      if givenUp {
        return TimedOut;
      }
      Forget(id);
      CleanIndexes([id]);
      assert Members([id]) == {id};
      return RuleDeleted;
    }

    /** Removes the rules one after another, until a removal times out. */
    method RemoveRules(ids: seq<string>, tc: Removals) returns (givenUp: bool)
      requires Distinct(ids) && forall i :: 0 <= i < |ids| ==> ids[i] in db
      modifies this`db, this`order, this`internet, this`client
      ensures givenUp == (StopsAt(old(db), ids, tc) < |ids|)
      ensures View() == Remains(old(View()), ids, tc)
    {
      ghost var s := View();
      assert DropAll(s, ids[..0], tc) == s;
      for i := 0 to |ids|
        invariant i <= StopsAt(s.db, ids, tc)
        invariant View() == DropAll(s, ids[..i], tc)
      {
        DropAllStep(s, ids, i, tc);
        StillThere(s, ids, i, tc);
        givenUp := RemoveFilters(db[ids[i]], tc(ids[i]));
        if givenUp {
          return true;
        }
        Forget(ids[i]);
      }
      assert ids[..|ids|] == ids;
      return false;
    }

    /** The flush of a tenant's rules, used by its own endpoint and by the deletion of a tenant. None
        when a removal timed out, which leaves the other rules in place and the indexes as they were. */
    method FlushTenant(tenant: string, tc: Removals) returns (count: Option<nat>)
      requires Ordered(View())
      modifies this
      ensures View() == Flush(old(View()), tenant, tc)
      ensures count.None? <==> GivenUpAt(old(View()), tenant, tc).Some?
      ensures count.Some? ==> count.value == |OwnedBy(old(View()), tenant)|
      ensures LosesEntries(old(View()), View(), if count.Some? then OwnedBy(old(View()), tenant) else {})
    {
      FlushMeans(View(), tenant, tc);
      ghost var s := View();
      OwnedIdsAreOwned(s, tenant);
      var ids := OwnedIds(order, db, tenant);
      FlushIsRemains(s, tenant, tc);
      var givenUp := RemoveRules(ids, tc);
      if givenUp {
        return None;
      }
      CleanIndexes(ids);
      DistinctSize(ids);
      return Some(|ids|);
    }
  }

  /** The next rule of a flush is still as it was, and the flush stops here exactly when its removal
      is given up. */
  lemma StillThere(s: Rules, ids: seq<string>, i: nat, tc: Removals)
    requires i < |ids| && Distinct(ids) && ids[i] in s.db && i <= StopsAt(s.db, ids, tc)
    ensures var t := DropAll(s, ids[..i], tc); ids[i] in t.db && t.db[ids[i]] == s.db[ids[i]]
    ensures StopsAt(s.db, ids, tc) == i <==> Aborts(s.db[ids[i]], tc(ids[i]))
  {
    DropAllStep(s, ids, i, tc);
  }
}
