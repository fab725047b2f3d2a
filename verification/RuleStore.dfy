/** The tenant-scoped rule store of tc-firewall: rules, the two idempotency indexes, and the filters
    the rules install on the two ports. */
module RuleStore {
  import opened Prelude
  import opened PriorityMatch
  import opened TcFilters
  import opened RuleSignatures

  datatype Request = Request(
    fields: Fields, protocol: Protocol, action: Action, priority: int, idempotencyKey: Option<string>)

  /** `handleFwd` and `handleRev` are the handles the kernel gave the two filters. The store knows a
      handle unless asking for it failed; deletion skips a filter whose handle is not known. */
  datatype Rule = Rule(
    id: string, tenant: string, fields: Fields, protocol: Protocol, action: Action, priority: int,
    handleFwd: nat, handleRev: nat, fwdKnown: bool, revKnown: bool)

  /** What the `tc` commands of one rule did: both installed, under fresh handles; the first refused or
      timed out; the second refused or timed out after the first went in; or a query timed out after
      both went in, and the request is abandoned. */
  datatype TcOutcome =
    | Installed(fwd: nat, rev: nat, fwdKnown: bool, revKnown: bool)
    | FirstRefused
    | SecondRefused(fwd: nat)
    | Abandoned(fwd: nat, rev: nat)

  /** A deletion command; one that times out may have been applied. */
  datatype Command = Succeeds | Refused | TimesOut(applied: bool)

  /** What the two deletion commands of one rule do when they are given. */
  datatype TcRemoval = TcRemoval(fwd: Command, rev: Command)

  /** The outcome for each rule of a flush, by id. */
  type Removals = string -> TcRemoval

  datatype AddReply = Existing(rule: Rule) | Created(rule: Rule) | QuotaExceeded | TcFailed

  datatype DeleteReply = NotFound | NotOwner | RuleDeleted | TimedOut

  /** `order` is the insertion order of the dictionary of rules. */
  datatype Rules = Rules(
    db: map<string, Rule>,
    order: seq<string>,
    bySignature: map<string, string>,
    byKey: map<string, string>,
    internet: seq<Filter>,
    client: seq<Filter>)

  const EMPTY := Rules(map[], [], map[], map[], [], [])

  function RequestSubject(tenant: string, req: Request): Subject {
    Subject(tenant, req.fields, req.protocol, req.action, req.priority)
  }

  function RuleSubject(r: Rule): Subject {
    Subject(r.tenant, r.fields, r.protocol, r.action, r.priority)
  }

  function RequestSignature(tenant: string, req: Request): string {
    SignatureOf(RequestSubject(tenant, req))
  }

  function RuleSignature(r: Rule): string {
    SignatureOf(RuleSubject(r))
  }

  /** The protocol as it is handed to `tc`. */
  function ProtocolText(p: Protocol): string {
    match p
    case Tcp => "tcp"
    case Udp => "udp"
    case Icmp => "icmp"
    case Any => "ip"
  }

  // ---------------------------------------------------------------- filters of a rule

  function ActionOf(r: Rule): FilterAction {
    if r.action == Allow then Redirect else DropPacket
  }

  function ForwardFilter(r: Rule): Filter {
    Filter(r.handleFwd, r.priority, FlowerKeys(r.fields, ProtocolText(r.protocol)), ActionOf(r))
  }

  function ReverseFilter(r: Rule): Filter {
    Filter(r.handleRev, r.priority, FlowerKeys(Swapped(r.fields), ProtocolText(r.protocol)), ActionOf(r))
  }

  // ---------------------------------------------------------------- operations

  predicate KeyFinds(s: Rules, req: Request) {
    && GivenText(req.idempotencyKey)
    && req.idempotencyKey.value in s.byKey && s.byKey[req.idempotencyKey.value] in s.db
  }

  predicate SignatureFinds(s: Rules, sig: string) {
    sig in s.bySignature && s.bySignature[sig] in s.db
  }

  /** The rule an equivalent request is answered with: by idempotency key first, then by signature. */
  function FindExisting(s: Rules, tenant: string, req: Request): Option<Rule> {
    if KeyFinds(s, req) then Some(s.db[s.byKey[req.idempotencyKey.value]])
    else if SignatureFinds(s, RequestSignature(tenant, req)) then Some(s.db[s.bySignature[RequestSignature(tenant, req)]])
    else None
  }

  function OwnedBy(s: Rules, tenant: string): set<string> {
    set id | id in s.db && s.db[id].tenant == tenant
  }

  function NewRule(tenant: string, req: Request, id: string, tc: TcOutcome): Rule {
    Rule(id, tenant, req.fields, req.protocol, req.action, req.priority,
         if tc.FirstRefused? then 0 else tc.fwd, if tc.Installed? || tc.Abandoned? then tc.rev else 0,
         tc.Installed? && tc.fwdKnown, tc.Installed? && tc.revKnown)
  }

  function Insert(s: Rules, r: Rule, req: Request): Rules {
    Rules(s.db[r.id := r],
          s.order + [r.id],
          s.bySignature[RuleSignature(r) := r.id],
          if GivenText(req.idempotencyKey) then s.byKey[req.idempotencyKey.value := r.id] else s.byKey,
          s.internet + [ForwardFilter(r)],
          s.client + [ReverseFilter(r)])
  }

  function Add(s: Rules, tenant: string, quota: int, req: Request, id: string, tc: TcOutcome): Rules {
    if FindExisting(s, tenant, req).Some? || |OwnedBy(s, tenant)| >= quota then s
    else match tc
         case Installed(_, _, _, _) => Insert(s, NewRule(tenant, req, id, tc), req)
         case FirstRefused => s
         case SecondRefused(_) => s.(internet := s.internet + [ForwardFilter(NewRule(tenant, req, id, tc))])
         case Abandoned(_, _) => s.(internet := s.internet + [ForwardFilter(NewRule(tenant, req, id, tc))],
                                    client := s.client + [ReverseFilter(NewRule(tenant, req, id, tc))])
  }

  function AddAnswer(s: Rules, tenant: string, quota: int, req: Request, id: string, tc: TcOutcome): AddReply {
    if FindExisting(s, tenant, req).Some? then Existing(FindExisting(s, tenant, req).value)
    else if |OwnedBy(s, tenant)| >= quota then QuotaExceeded
    else if tc.Installed? then Created(NewRule(tenant, req, id, tc))
    else TcFailed
  }

  function KeepIds(order: seq<string>, gone: set<string>): seq<string> {
    if order == [] then []
    else
      var last := order[|order| - 1];
      var front := KeepIds(order[..|order| - 1], gone);
      if last in gone then front else front + [last]
  }

  predicate Applied(c: Command) {
    c.Succeeds? || (c.TimesOut? && c.applied)
  }

  predicate ForwardGone(r: Rule, tc: TcRemoval) {
    r.fwdKnown && Applied(tc.fwd)
  }

  /** The second command is not given when the first one failed. */
  predicate ReverseTried(r: Rule, tc: TcRemoval) {
    r.revKnown && (r.fwdKnown ==> tc.fwd.Succeeds?)
  }

  predicate ReverseGone(r: Rule, tc: TcRemoval) {
    ReverseTried(r, tc) && Applied(tc.rev)
  }

  /** A command times out, which abandons the whole request; a refused one is only logged. */
  predicate Aborts(r: Rule, tc: TcRemoval) {
    (r.fwdKnown && tc.fwd.TimesOut?) || (ReverseTried(r, tc) && tc.rev.TimesOut?)
  }

  predicate BothGone(r: Rule, tc: TcRemoval) {
    ForwardGone(r, tc) && ReverseGone(r, tc)
  }

  predicate NeitherGone(r: Rule, tc: TcRemoval) {
    !ForwardGone(r, tc) && !ReverseGone(r, tc)
  }

  /** Takes a rule's filters off the ports, where they go. */
  function Cleared(s: Rules, r: Rule, fwdGone: bool, revGone: bool): Rules {
    s.(internet := if fwdGone then Deleted(s.internet, r.handleFwd, r.priority) else s.internet,
       client := if revGone then Deleted(s.client, r.handleRev, r.priority) else s.client)
  }

  /** A removal given up midway: the rule stays. */
  function GivenUp(s: Rules, r: Rule, tc: TcRemoval): Rules {
    Cleared(s, r, ForwardGone(r, tc), ReverseGone(r, tc))
  }

  /** Takes one rule out of the dictionary, whatever happens to its filters on the ports. */
  function Drop(s: Rules, id: string, tc: TcRemoval): Rules
    requires id in s.db
  {
    DropRule(s, id, ForwardGone(s.db[id], tc), ReverseGone(s.db[id], tc))
  }

  function DropRule(s: Rules, id: string, fwdGone: bool, revGone: bool): Rules
    requires id in s.db
  {
    Cleared(s, s.db[id], fwdGone, revGone).(db := s.db - {id}, order := KeepIds(s.order, {id}))
  }

  /** Takes every index entry that names one of the rules out of the indexes. */
  function Unindex(s: Rules, ids: set<string>): Rules {
    s.(bySignature := map sig | sig in s.bySignature && s.bySignature[sig] !in ids :: s.bySignature[sig],
       byKey := map key | key in s.byKey && s.byKey[key] !in ids :: s.byKey[key])
  }

  function Delete(s: Rules, tenant: string, id: string, tc: TcRemoval): Rules {
    match DeleteAnswer(s, tenant, id, tc)
    case RuleDeleted => Unindex(Drop(s, id, tc), {id})
    case TimedOut => GivenUp(s, s.db[id], tc)
    case _ => s
  }

  function DeleteAnswer(s: Rules, tenant: string, id: string, tc: TcRemoval): (r: DeleteReply)
    ensures r.RuleDeleted? || r.TimedOut? ==> id in s.db && s.db[id].tenant == tenant
  {
    if id !in s.db then NotFound
    else if s.db[id].tenant != tenant then NotOwner
    else if Aborts(s.db[id], tc) then TimedOut
    else RuleDeleted
  }

  function DropAll(s: Rules, ids: seq<string>, tc: Removals): (r: Rules)
    ensures r.db == s.db - Members(ids)
    ensures r.bySignature == s.bySignature && r.byKey == s.byKey
  {
    if ids == [] then
      assert s.db - Members(ids) == s.db;
      s
    else
      var front, last := ids[..|ids| - 1], ids[|ids| - 1];
      assert ids == front + [last];
      assert Members(ids) == Members(front) + {last};
      var t := DropAll(s, front, tc);
      assert last !in t.db ==> t.db == t.db - {last};
      if last in t.db then Drop(t, last, tc(last)) else t
  }

  lemma DropAllStep(s: Rules, ids: seq<string>, i: nat, tc: Removals)
    requires i < |ids| && Distinct(ids) && ids[i] in s.db
    ensures ids[i] in DropAll(s, ids[..i], tc).db
    ensures DropAll(s, ids[..i + 1], tc) == Drop(DropAll(s, ids[..i], tc), ids[i], tc(ids[i]))
  {
    assert ids[..i + 1][..i] == ids[..i];
    assert ids[i] !in ids[..i];
  }

  /** The ids of a tenant's rules, in insertion order. */
  function OwnedIds(order: seq<string>, db: map<string, Rule>, tenant: string): seq<string> {
    if order == [] then []
    else
      var last := order[|order| - 1];
      var front := OwnedIds(order[..|order| - 1], db, tenant);
      if last in db && db[last].tenant == tenant then front + [last] else front
  }

  lemma {:induction false} OwnedIdsMembers(order: seq<string>, db: map<string, Rule>, tenant: string)
    requires Distinct(order)
    ensures Distinct(OwnedIds(order, db, tenant))
    ensures forall id :: id in OwnedIds(order, db, tenant) <==> id in order && id in db && db[id].tenant == tenant
  {
    if order != [] {
      OwnedIdsMembers(order[..|order| - 1], db, tenant);
      assert order == order[..|order| - 1] + [order[|order| - 1]];
      assert order[|order| - 1] !in order[..|order| - 1];
    }
  }

  lemma OwnedIdsAreOwned(s: Rules, tenant: string)
    requires Ordered(s)
    ensures Distinct(OwnedIds(s.order, s.db, tenant))
    ensures Members(OwnedIds(s.order, s.db, tenant)) == OwnedBy(s, tenant)
    ensures forall i :: 0 <= i < |OwnedIds(s.order, s.db, tenant)| ==> OwnedIds(s.order, s.db, tenant)[i] in s.db
  {
    OwnedIdsMembers(s.order, s.db, tenant);
    assert forall id :: id in s.db ==> id in Members(s.order);
  }

  /** How many of the rules are removed before a removal is given up; all of them if none is. */
  function StopsAt(db: map<string, Rule>, ids: seq<string>, tc: Removals): (n: nat)
    ensures n <= |ids|
    ensures n < |ids| ==> ids[n] in db && Aborts(db[ids[n]], tc(ids[n]))
    ensures forall i :: 0 <= i < n && ids[i] in db ==> !Aborts(db[ids[i]], tc(ids[i]))
  {
    if ids == [] then 0
    else
      var front, last := ids[..|ids| - 1], ids[|ids| - 1];
      var n := StopsAt(db, front, tc);
      if n < |front| then n
      else if last in db && Aborts(db[last], tc(last)) then |front|
      else |ids|
  }

  /** The rules of the tenant that a flush really removes. */
  function FlushedIds(s: Rules, tenant: string, tc: Removals): seq<string> {
    var ids := OwnedIds(s.order, s.db, tenant);
    ids[..StopsAt(s.db, ids, tc)]
  }

  /** The rule at which a flush is given up, if any. */
  function GivenUpAt(s: Rules, tenant: string, tc: Removals): (r: Option<string>)
    ensures r.Some? ==> r.value in s.db && Aborts(s.db[r.value], tc(r.value))
  {
    var ids := OwnedIds(s.order, s.db, tenant);
    var n := StopsAt(s.db, ids, tc);
    if n < |ids| then Some(ids[n]) else None
  }

  /** Removes the rules of a tenant one after another. When a removal is given up, the rules before
      it are gone but the indexes still name them. */
  function Flush(s: Rules, tenant: string, tc: Removals): Rules {
    var flushed := FlushedIds(s, tenant, tc);
    var t := DropAll(s, flushed, tc);
    match GivenUpAt(s, tenant, tc)
    case Some(id) => GivenUp(t, s.db[id], tc(id))
    case None => Unindex(t, Members(flushed))
  }

  /** The store once rules were removed until a removal was given up; the indexes are not cleaned. */
  function Remains(s: Rules, ids: seq<string>, tc: Removals): Rules {
    var n := StopsAt(s.db, ids, tc);
    var t := DropAll(s, ids[..n], tc);
    if n < |ids| then GivenUp(t, s.db[ids[n]], tc(ids[n])) else t
  }

  lemma FlushIsRemains(s: Rules, tenant: string, tc: Removals)
    ensures var ids := OwnedIds(s.order, s.db, tenant);
      && (GivenUpAt(s, tenant, tc).Some? <==> StopsAt(s.db, ids, tc) < |ids|)
      && Flush(s, tenant, tc)
         == if StopsAt(s.db, ids, tc) < |ids| then Remains(s, ids, tc) else Unindex(Remains(s, ids, tc), Members(ids))
  {
    var ids := OwnedIds(s.order, s.db, tenant);
    assert ids[..|ids|] == ids;
  }

  // ---------------------------------------------------------------- the invariant

  ghost predicate Ordered(s: Rules) {
    Distinct(s.order) && Members(s.order) == s.db.Keys && forall id :: id in s.db ==> s.db[id].id == id
  }

  /** Every live rule is found by its signature, and an index entry that names a live rule is its
      signature. Entries that name no live rule are stale; lookups pass over them. */
  ghost predicate Indexed(s: Rules) {
    && (forall id :: id in s.db ==>
          RuleSignature(s.db[id]) in s.bySignature && s.bySignature[RuleSignature(s.db[id])] == id)
    && (forall sig :: sig in s.bySignature && s.bySignature[sig] in s.db ==>
          RuleSignature(s.db[s.bySignature[sig]]) == sig)
  }

  /** No index entry is stale. */
  ghost predicate Tidy(s: Rules) {
    && (forall sig :: sig in s.bySignature ==> s.bySignature[sig] in s.db)
    && (forall key :: key in s.byKey ==> s.byKey[key] in s.db)
  }

  /** The identifier was never given to a rule: no rule and no index entry has it. */
  ghost predicate Unused(s: Rules, id: string) {
    && id !in s.db
    && (forall sig :: sig in s.bySignature ==> s.bySignature[sig] != id)
    && (forall key :: key in s.byKey ==> s.byKey[key] != id)
  }

  function Rendered(order: seq<string>, db: map<string, Rule>, filter: Rule -> Filter): seq<Filter>
    requires forall i :: 0 <= i < |order| ==> order[i] in db
  {
    seq(|order|, i requires 0 <= i < |order| => filter(db[order[i]]))
  }

  /** Each port holds the filters of the live rules, in insertion order. */
  ghost predicate InstalledExactly(s: Rules)
    requires Ordered(s)
  {
    assert forall i :: 0 <= i < |s.order| ==> s.order[i] in Members(s.order);
    && s.internet == Rendered(s.order, s.db, ForwardFilter)
    && s.client == Rendered(s.order, s.db, ReverseFilter)
    && (forall a, b :: a in s.db && b in s.db && a != b && s.db[a].priority == s.db[b].priority ==>
          s.db[a].handleFwd != s.db[b].handleFwd && s.db[a].handleRev != s.db[b].handleRev)
  }

  lemma InsertKeepsIndexed(s: Rules, r: Rule, req: Request)
    requires Ordered(s) && Indexed(s) && Unused(s, r.id) && !SignatureFinds(s, RuleSignature(r))
    ensures Ordered(Insert(s, r, req)) && Indexed(Insert(s, r, req))
  {
    InsertKeepsOrdered(s, r, req);
  }

  lemma InsertKeepsTidy(s: Rules, r: Rule, req: Request)
    requires Tidy(s)
    ensures Tidy(Insert(s, r, req))
  {
  }

  lemma InsertKeepsOrdered(s: Rules, r: Rule, req: Request)
    requires Ordered(s) && r.id !in s.db
    ensures Ordered(Insert(s, r, req))
  {
    var s' := Insert(s, r, req);
    assert forall i :: 0 <= i < |s.order| ==> s.order[i] in Members(s.order);
    assert Members(s'.order) == Members(s.order) + {r.id};
  }

  lemma InsertKeepsInstalled(s: Rules, r: Rule, req: Request)
    requires Ordered(s) && InstalledExactly(s) && r.id !in s.db && Ordered(Insert(s, r, req))
    requires HandleFree(s.internet, r.handleFwd, r.priority) && HandleFree(s.client, r.handleRev, r.priority)
    ensures InstalledExactly(Insert(s, r, req))
  {
    forall a | a in s.db && s.db[a].priority == r.priority
      ensures s.db[a].handleFwd != r.handleFwd && s.db[a].handleRev != r.handleRev
    {
      InstalledAt(s, a);
    }
    assert forall i :: 0 <= i < |s.order| ==> s.order[i] in Members(s.order);
    RenderedOneMore(s.order, s.db, ForwardFilter, r);
    RenderedOneMore(s.order, s.db, ReverseFilter, r);
  }

  lemma RenderedOneMore(order: seq<string>, db: map<string, Rule>, filter: Rule -> Filter, r: Rule)
    requires r.id !in db && forall i :: 0 <= i < |order| ==> order[i] in db
    ensures Rendered(order + [r.id], db[r.id := r], filter) == Rendered(order, db, filter) + [filter(r)]
  {
  }

  /** A live rule's filters stand somewhere on the ports. */
  lemma InstalledAt(s: Rules, id: string)
    requires Ordered(s) && InstalledExactly(s) && id in s.db
    ensures ForwardFilter(s.db[id]) in s.internet && ReverseFilter(s.db[id]) in s.client
  {
    assert id in Members(s.order);
    var i :| 0 <= i < |s.order| && s.order[i] == id;
    assert s.internet[i] == ForwardFilter(s.db[id]) && s.client[i] == ReverseFilter(s.db[id]);
  }

  lemma {:induction false} KeepIdsMembers(order: seq<string>, gone: set<string>)
    requires Distinct(order)
    ensures Distinct(KeepIds(order, gone)) && Members(KeepIds(order, gone)) == Members(order) - gone
  {
    if order != [] {
      var front, last := order[..|order| - 1], order[|order| - 1];
      KeepIdsMembers(front, gone);
      assert order == front + [last];
      assert Members(order) == Members(front) + {last};
      assert last !in Members(front);
      assert last !in Members(KeepIds(front, gone));
      if last !in gone {
        assert Members(KeepIds(front, gone) + [last]) == Members(KeepIds(front, gone)) + {last};
      }
    }
  }

  lemma DropKeepsOrdered(s: Rules, id: string, tc: TcRemoval)
    requires Ordered(s) && id in s.db
    ensures Ordered(Drop(s, id, tc))
  {
    KeepIdsMembers(s.order, {id});
  }

  lemma {:induction false} DropAllKeepsOrdered(s: Rules, ids: seq<string>, tc: Removals)
    requires Ordered(s)
    ensures Ordered(DropAll(s, ids, tc))
  {
    if ids != [] {
      var front, last := ids[..|ids| - 1], ids[|ids| - 1];
      DropAllKeepsOrdered(s, front, tc);
      if last in DropAll(s, front, tc).db {
        DropKeepsOrdered(DropAll(s, front, tc), last, tc(last));
      }
    }
  }

  // ---------------------------------------------------------------- what deletions leave on the ports

  lemma {:induction false} KeepIdsTwice(order: seq<string>, a: set<string>, b: set<string>)
    ensures KeepIds(KeepIds(order, a), b) == KeepIds(order, a + b)
  {
    if order != [] {
      KeepIdsTwice(order[..|order| - 1], a, b);
    }
  }

  lemma {:induction false} KeepIdsNone(order: seq<string>)
    ensures KeepIds(order, {}) == order
  {
    if order != [] {
      KeepIdsNone(order[..|order| - 1]);
    }
  }

  /** Deleting one rule's handle from the rendering of some rules renders the others. */
  lemma {:induction false} DeletedRenders(order: seq<string>, db: map<string, Rule>, filter: Rule -> Filter, id: string)
    requires Distinct(order) && id in db
    requires forall i :: 0 <= i < |order| ==> order[i] in db
    requires forall a :: a in db && a != id ==>
      filter(db[a]).handle != filter(db[id]).handle || filter(db[a]).priority != filter(db[id]).priority
    ensures forall i :: 0 <= i < |KeepIds(order, {id})| ==> KeepIds(order, {id})[i] in db
    ensures Deleted(Rendered(order, db, filter), filter(db[id]).handle, filter(db[id]).priority)
         == Rendered(KeepIds(order, {id}), db, filter)
  {
    if order != [] {
      var front, last := order[..|order| - 1], order[|order| - 1];
      DeletedRenders(front, db, filter, id);
      var all := Rendered(order, db, filter);
      assert all[..|all| - 1] == Rendered(front, db, filter);
    }
  }

  /** No two rules share a handle at one priority on the port that `filter` renders. */
  ghost predicate HandlesApart(db: map<string, Rule>, filter: Rule -> Filter) {
    forall a, b :: a in db && b in db && a != b ==>
      filter(db[a]).handle != filter(db[b]).handle || filter(db[a]).priority != filter(db[b]).priority
  }

  lemma KeptAreIn(order: seq<string>, gone: set<string>, db: map<string, Rule>)
    requires Distinct(order) && Members(order) == db.Keys
    ensures Distinct(KeepIds(order, gone))
    ensures forall i :: 0 <= i < |KeepIds(order, gone)| ==> KeepIds(order, gone)[i] in db
  {
    KeepIdsMembers(order, gone);
    assert forall i :: 0 <= i < |KeepIds(order, gone)| ==> KeepIds(order, gone)[i] in Members(KeepIds(order, gone));
  }

  /** What a port shows when the filters of `gone` were deleted from the rendering of all rules. */
  function Leftover(order: seq<string>, db: map<string, Rule>, filter: Rule -> Filter, gone: set<string>): seq<Filter>
    requires Distinct(order) && Members(order) == db.Keys
  {
    KeptAreIn(order, gone, db);
    Rendered(KeepIds(order, gone), db, filter)
  }

  lemma LeftoverStep(order: seq<string>, db: map<string, Rule>, filter: Rule -> Filter, gone: set<string>, id: string)
    requires Distinct(order) && Members(order) == db.Keys && id in db && HandlesApart(db, filter)
    ensures Deleted(Leftover(order, db, filter, gone), filter(db[id]).handle, filter(db[id]).priority)
         == Leftover(order, db, filter, gone + {id})
  {
    KeptAreIn(order, gone, db);
    KeepIdsTwice(order, gone, {id});
    DeletedRenders(KeepIds(order, gone), db, filter, id);
  }

  function ForwardGoneOf(s: Rules, ids: seq<string>, tc: Removals): set<string> {
    set id | id in ids && id in s.db && ForwardGone(s.db[id], tc(id))
  }

  function ReverseGoneOf(s: Rules, ids: seq<string>, tc: Removals): set<string> {
    set id | id in ids && id in s.db && ReverseGone(s.db[id], tc(id))
  }

  lemma GoneStep(s: Rules, ids: seq<string>, tc: Removals)
    requires |ids| > 0 && ids[|ids| - 1] in s.db
    ensures var front, last := ids[..|ids| - 1], ids[|ids| - 1];
      && ForwardGoneOf(s, ids, tc) == ForwardGoneOf(s, front, tc) + (if ForwardGone(s.db[last], tc(last)) then {last} else {})
      && ReverseGoneOf(s, ids, tc) == ReverseGoneOf(s, front, tc) + (if ReverseGone(s.db[last], tc(last)) then {last} else {})
      && Members(ids) == Members(front) + {last}
  {
    assert ids == ids[..|ids| - 1] + [ids[|ids| - 1]];
  }

  lemma LeavesStep(
    order: seq<string>, db: map<string, Rule>, filter: Rule -> Filter,
    gone: set<string>, id: string, goes: bool, before: seq<Filter>, after: seq<Filter>)
    requires Distinct(order) && Members(order) == db.Keys && id in db && HandlesApart(db, filter)
    requires before == Leftover(order, db, filter, gone)
    requires after == if goes then Deleted(before, filter(db[id]).handle, filter(db[id]).priority) else before
    ensures after == Leftover(order, db, filter, gone + if goes then {id} else {})
  {
    if goes {
      LeftoverStep(order, db, filter, gone, id);
    } else {
      assert gone + {} == gone;
    }
  }

  lemma DropLast(s: Rules, ids: seq<string>, tc: Removals)
    requires |ids| > 0 && Distinct(ids) && ids[|ids| - 1] in s.db
    ensures var last := ids[|ids| - 1];
      var r, before, after := s.db[last], DropAll(s, ids[..|ids| - 1], tc), DropAll(s, ids, tc);
      && after.internet == (if ForwardGone(r, tc(last))
                            then Deleted(before.internet, ForwardFilter(r).handle, ForwardFilter(r).priority) else before.internet)
      && after.client == (if ReverseGone(r, tc(last))
                          then Deleted(before.client, ReverseFilter(r).handle, ReverseFilter(r).priority) else before.client)
      && after.order == KeepIds(before.order, {last})
  {
    assert ids[|ids| - 1] !in ids[..|ids| - 1];
  }

  /** After dropping rules each port holds the filters of all rules but those really deleted there. */
  lemma {:induction false} DropAllLeavesInternet(s: Rules, ids: seq<string>, tc: Removals)
    requires Distinct(s.order) && Members(s.order) == s.db.Keys && HandlesApart(s.db, ForwardFilter)
    requires s.internet == Leftover(s.order, s.db, ForwardFilter, {})
    requires Distinct(ids) && forall i :: 0 <= i < |ids| ==> ids[i] in s.db
    ensures DropAll(s, ids, tc).internet == Leftover(s.order, s.db, ForwardFilter, ForwardGoneOf(s, ids, tc))
  {
    if ids == [] {
      assert ForwardGoneOf(s, ids, tc) == {};
    } else {
      var front, last := ids[..|ids| - 1], ids[|ids| - 1];
      DropAllLeavesInternet(s, front, tc);
      GoneStep(s, ids, tc);
      DropLast(s, ids, tc);
      LeavesStep(s.order, s.db, ForwardFilter, ForwardGoneOf(s, front, tc), last, ForwardGone(s.db[last], tc(last)),
                 DropAll(s, front, tc).internet, DropAll(s, ids, tc).internet);
    }
  }

  lemma {:induction false} DropAllLeavesClient(s: Rules, ids: seq<string>, tc: Removals)
    requires Distinct(s.order) && Members(s.order) == s.db.Keys && HandlesApart(s.db, ReverseFilter)
    requires s.client == Leftover(s.order, s.db, ReverseFilter, {})
    requires Distinct(ids) && forall i :: 0 <= i < |ids| ==> ids[i] in s.db
    ensures DropAll(s, ids, tc).client == Leftover(s.order, s.db, ReverseFilter, ReverseGoneOf(s, ids, tc))
  {
    if ids == [] {
      assert ReverseGoneOf(s, ids, tc) == {};
    } else {
      var front, last := ids[..|ids| - 1], ids[|ids| - 1];
      DropAllLeavesClient(s, front, tc);
      GoneStep(s, ids, tc);
      DropLast(s, ids, tc);
      LeavesStep(s.order, s.db, ReverseFilter, ReverseGoneOf(s, front, tc), last, ReverseGone(s.db[last], tc(last)),
                 DropAll(s, front, tc).client, DropAll(s, ids, tc).client);
    }
  }

  lemma {:induction false} DropAllLeavesOrder(s: Rules, ids: seq<string>, tc: Removals)
    requires Distinct(ids) && forall i :: 0 <= i < |ids| ==> ids[i] in s.db
    ensures DropAll(s, ids, tc).order == KeepIds(s.order, Members(ids))
  {
    if ids == [] {
      assert Members(ids) == {};
      KeepIdsNone(s.order);
    } else {
      var front, last := ids[..|ids| - 1], ids[|ids| - 1];
      DropAllLeavesOrder(s, front, tc);
      GoneStep(s, ids, tc);
      DropLast(s, ids, tc);
      KeepIdsTwice(s.order, Members(front), {last});
    }
  }

  lemma InstalledParts(s: Rules)
    requires Ordered(s) && InstalledExactly(s)
    ensures HandlesApart(s.db, ForwardFilter) && HandlesApart(s.db, ReverseFilter)
    ensures s.internet == Leftover(s.order, s.db, ForwardFilter, {})
    ensures s.client == Leftover(s.order, s.db, ReverseFilter, {})
  {
    KeepIdsNone(s.order);
  }

  lemma RendersOnce(x: seq<string>, y: seq<string>, db: map<string, Rule>, filter: Rule -> Filter)
    requires HandlesApart(db, filter)
    requires forall i :: 0 <= i < |x| ==> x[i] in db
    requires forall i :: 0 <= i < |y| ==> y[i] in db
    requires Rendered(x, db, filter) == Rendered(y, db, filter)
    ensures x == y
  {
    assert |x| == |Rendered(x, db, filter)| == |y|;
    forall i | 0 <= i < |x|
      ensures x[i] == y[i]
    {
      assert filter(db[x[i]]) == Rendered(x, db, filter)[i] == Rendered(y, db, filter)[i] == filter(db[y[i]]);
    }
  }

  /** A port shows exactly the rules that are left if, and only if, it lost exactly the dropped ones. */
  lemma LeftoverExact(order: seq<string>, db: map<string, Rule>, filter: Rule -> Filter, fwd: set<string>, gone: set<string>)
    requires Distinct(order) && Members(order) == db.Keys && HandlesApart(db, filter)
    requires fwd <= db.Keys && gone <= db.Keys
    requires forall i :: 0 <= i < |KeepIds(order, gone)| ==> KeepIds(order, gone)[i] in db - gone
    ensures Leftover(order, db, filter, fwd) == Rendered(KeepIds(order, gone), db - gone, filter) <==> fwd == gone
  {
    KeptAreIn(order, fwd, db);
    KeptAreIn(order, gone, db);
    assert Rendered(KeepIds(order, gone), db - gone, filter) == Leftover(order, db, filter, gone);
    if Leftover(order, db, filter, fwd) == Leftover(order, db, filter, gone) {
      RendersOnce(KeepIds(order, fwd), KeepIds(order, gone), db, filter);
      KeepIdsMembers(order, fwd);
      KeepIdsMembers(order, gone);
      SameComplement(db.Keys, fwd, gone);
    }
  }

  lemma SameComplement(all: set<string>, a: set<string>, b: set<string>)
    requires a <= all && b <= all && all - a == all - b
    ensures a == b
  {
    assert a == all - (all - a) && b == all - (all - b);
  }

  /** What is left of a store after rules were dropped and filters deleted: `gone` left the dictionary,
      `fwd` the internet port and `rev` the client port. */
  ghost predicate LeftAfter(s: Rules, t: Rules, gone: set<string>, fwd: set<string>, rev: set<string>)
    requires Distinct(s.order) && Members(s.order) == s.db.Keys
  {
    && t.db == s.db - gone && t.order == KeepIds(s.order, gone)
    && t.internet == Leftover(s.order, s.db, ForwardFilter, fwd)
    && t.client == Leftover(s.order, s.db, ReverseFilter, rev)
  }

  /** The ports of what is left are exact if, and only if, both lost exactly the dropped rules. */
  lemma LeftInstalledExactly(s: Rules, t: Rules, gone: set<string>, fwd: set<string>, rev: set<string>)
    requires Ordered(s) && HandlesApart(s.db, ForwardFilter) && HandlesApart(s.db, ReverseFilter) && Ordered(t)
    requires gone <= s.db.Keys && fwd <= s.db.Keys && rev <= s.db.Keys && LeftAfter(s, t, gone, fwd, rev)
    ensures InstalledExactly(t) <==> fwd == gone && rev == gone
  {
    assert forall i :: 0 <= i < |t.order| ==> t.order[i] in Members(t.order);
    LeftoverExact(s.order, s.db, ForwardFilter, fwd, gone);
    LeftoverExact(s.order, s.db, ReverseFilter, rev, gone);
    assert HandlesApart(t.db, ForwardFilter) && HandlesApart(t.db, ReverseFilter);
    InstalledIs(t);
  }

  lemma DropAllLeaves(s: Rules, ids: seq<string>, tc: Removals)
    requires Ordered(s) && InstalledExactly(s) && Distinct(ids) && forall i :: 0 <= i < |ids| ==> ids[i] in s.db
    ensures LeftAfter(s, DropAll(s, ids, tc), Members(ids), ForwardGoneOf(s, ids, tc), ReverseGoneOf(s, ids, tc))
  {
    InstalledParts(s);
    DropAllLeavesOrder(s, ids, tc);
    DropAllLeavesInternet(s, ids, tc);
    DropAllLeavesClient(s, ids, tc);
  }

  /** Giving a removal up after dropping others takes at most that rule's filters off as well. */
  lemma GivenUpLeaves(s: Rules, t: Rules, gone: set<string>, fwd: set<string>, rev: set<string>, id: string, tc: TcRemoval)
    requires Ordered(s) && HandlesApart(s.db, ForwardFilter) && HandlesApart(s.db, ReverseFilter)
    requires id in s.db && LeftAfter(s, t, gone, fwd, rev)
    ensures LeftAfter(s, GivenUp(t, s.db[id], tc), gone,
                      fwd + (if ForwardGone(s.db[id], tc) then {id} else {}),
                      rev + (if ReverseGone(s.db[id], tc) then {id} else {}))
  {
    var r, u := s.db[id], GivenUp(t, s.db[id], tc);
    LeavesStep(s.order, s.db, ForwardFilter, fwd, id, ForwardGone(r, tc), t.internet, u.internet);
    LeavesStep(s.order, s.db, ReverseFilter, rev, id, ReverseGone(r, tc), t.client, u.client);
  }

  /** The filters of a store's ports are still exactly those of its rules after dropping some of them
      if, and only if, both filters of each dropped rule were deleted. */
  lemma DropAllInstalledExactly(s: Rules, ids: seq<string>, tc: Removals)
    requires Ordered(s) && InstalledExactly(s) && Distinct(ids) && forall i :: 0 <= i < |ids| ==> ids[i] in s.db
    requires Ordered(DropAll(s, ids, tc))
    ensures InstalledExactly(DropAll(s, ids, tc)) <==> forall id :: id in ids ==> BothGone(s.db[id], tc(id))
  {
    InstalledParts(s);
    DropAllLeaves(s, ids, tc);
    MembersIn(ids, s.db.Keys);
    LeftInstalledExactly(s, DropAll(s, ids, tc), Members(ids), ForwardGoneOf(s, ids, tc), ReverseGoneOf(s, ids, tc));
    GoneWhole(s, ids, tc);
  }

  lemma MembersIn(ids: seq<string>, all: set<string>)
    requires forall i :: 0 <= i < |ids| ==> ids[i] in all
    ensures Members(ids) <= all
  {
  }

  /** The same when the next removal was given up: its rule stays, so its filters must, too. */
  lemma GivenUpInstalledExactly(s: Rules, ids: seq<string>, tc: Removals, id: string)
    requires Ordered(s) && InstalledExactly(s) && Distinct(ids) && forall i :: 0 <= i < |ids| ==> ids[i] in s.db
    requires id in s.db && id !in ids && Ordered(GivenUp(DropAll(s, ids, tc), s.db[id], tc(id)))
    ensures InstalledExactly(GivenUp(DropAll(s, ids, tc), s.db[id], tc(id)))
       <==> (forall x :: x in ids ==> BothGone(s.db[x], tc(x))) && NeitherGone(s.db[id], tc(id))
  {
    InstalledParts(s);
    DropAllLeaves(s, ids, tc);
    MembersIn(ids, s.db.Keys);
    GoneWhole(s, ids, tc);
    GivenUpExactly(s, DropAll(s, ids, tc), Members(ids), ForwardGoneOf(s, ids, tc), ReverseGoneOf(s, ids, tc), id, tc(id));
  }

  lemma GivenUpExactly(s: Rules, t: Rules, gone: set<string>, fwd: set<string>, rev: set<string>, id: string, tc: TcRemoval)
    requires Ordered(s) && HandlesApart(s.db, ForwardFilter) && HandlesApart(s.db, ReverseFilter)
    requires LeftAfter(s, t, gone, fwd, rev) && fwd <= gone && rev <= gone && gone <= s.db.Keys
    requires id in s.db && id !in gone && Ordered(GivenUp(t, s.db[id], tc))
    ensures InstalledExactly(GivenUp(t, s.db[id], tc)) <==> fwd == gone && rev == gone && NeitherGone(s.db[id], tc)
  {
    GivenUpLeaves(s, t, gone, fwd, rev, id, tc);
    var fwd' := fwd + if ForwardGone(s.db[id], tc) then {id} else {};
    var rev' := rev + if ReverseGone(s.db[id], tc) then {id} else {};
    LeftInstalledExactly(s, GivenUp(t, s.db[id], tc), gone, fwd', rev');
    OneMoreGone(gone, fwd, id, ForwardGone(s.db[id], tc));
    OneMoreGone(gone, rev, id, ReverseGone(s.db[id], tc));
  }

  lemma OneMoreGone(gone: set<string>, part: set<string>, id: string, goes: bool)
    requires id !in gone && part <= gone
    ensures part + (if goes then {id} else {}) == gone <==> part == gone && !goes
  {
    if goes {
      assert id in part + {id};
    } else {
      assert part + {} == part;
    }
  }

  lemma InstalledIs(t: Rules)
    requires Ordered(t) && HandlesApart(t.db, ForwardFilter) && HandlesApart(t.db, ReverseFilter)
    requires forall i :: 0 <= i < |t.order| ==> t.order[i] in t.db
    ensures InstalledExactly(t) <==>
      t.internet == Rendered(t.order, t.db, ForwardFilter) && t.client == Rendered(t.order, t.db, ReverseFilter)
  {
    forall a, b | a in t.db && b in t.db && a != b && t.db[a].priority == t.db[b].priority
      ensures t.db[a].handleFwd != t.db[b].handleFwd && t.db[a].handleRev != t.db[b].handleRev
    {
      assert ForwardFilter(t.db[a]).priority == ForwardFilter(t.db[b]).priority;
      assert ReverseFilter(t.db[a]).priority == ReverseFilter(t.db[b]).priority;
    }
  }

  lemma GoneWhole(s: Rules, ids: seq<string>, tc: Removals)
    requires forall i :: 0 <= i < |ids| ==> ids[i] in s.db
    ensures ForwardGoneOf(s, ids, tc) == Members(ids) && ReverseGoneOf(s, ids, tc) == Members(ids)
       <==> forall id :: id in ids ==> BothGone(s.db[id], tc(id))
  {
    var fwd, rev := ForwardGoneOf(s, ids, tc), ReverseGoneOf(s, ids, tc);
    if fwd == Members(ids) && rev == Members(ids) {
      forall id | id in ids
        ensures BothGone(s.db[id], tc(id))
      {
        assert id in Members(ids);
      }
    }
  }

  lemma UnindexInstalled(t: Rules, ids: set<string>)
    requires Ordered(t)
    ensures Ordered(Unindex(t, ids)) && (InstalledExactly(Unindex(t, ids)) <==> InstalledExactly(t))
  {
  }

  lemma UnindexRestores(s: Rules, t: Rules, ids: set<string>)
    requires Indexed(s) && t.db == s.db - ids && t.bySignature == s.bySignature && t.byKey == s.byKey
    ensures Indexed(t) && Indexed(Unindex(t, ids))
    ensures Tidy(s) ==> Tidy(Unindex(t, ids))
    ensures Tidy(t) ==> ids !! s.db.Keys
  {
  }

  /** What the kernel promises for an outcome: the handles it hands out are unused at that priority. */
  ghost predicate HandlesAreFresh(s: Rules, priority: int, tc: TcOutcome) {
    match tc
    case Installed(fwd, rev, _, _) => HandleFree(s.internet, fwd, priority) && HandleFree(s.client, rev, priority)
    case FirstRefused => true
    case SecondRefused(fwd) => HandleFree(s.internet, fwd, priority)
    case Abandoned(fwd, rev) => HandleFree(s.internet, fwd, priority) && HandleFree(s.client, rev, priority)
  }

  /** The request leaves filters that no rule has: the second command failed after the first, or the
      request was abandoned after both. */
  predicate LeavesFilters(s: Rules, tenant: string, quota: int, req: Request, id: string, tc: TcOutcome) {
    AddAnswer(s, tenant, quota, req, id, tc).TcFailed? && !tc.FirstRefused?
  }

  /** An add keeps the filters exact unless it leaves filters behind. */
  lemma AddKeeps(s: Rules, tenant: string, quota: int, req: Request, id: string, tc: TcOutcome)
    requires Ordered(s) && Indexed(s) && Unused(s, id)
    ensures var s' := Add(s, tenant, quota, req, id, tc); Ordered(s') && Indexed(s') && (Tidy(s) ==> Tidy(s'))
    ensures InstalledExactly(s) && HandlesAreFresh(s, req.priority, tc) ==>
      (InstalledExactly(Add(s, tenant, quota, req, id, tc)) <==> !LeavesFilters(s, tenant, quota, req, id, tc))
  {
    if AddAnswer(s, tenant, quota, req, id, tc).Created? {
      var r := NewRule(tenant, req, id, tc);
      InsertKeepsIndexed(s, r, req);
      if Tidy(s) {
        InsertKeepsTidy(s, r, req);
      }
      if InstalledExactly(s) && HandlesAreFresh(s, req.priority, tc) {
        InsertKeepsInstalled(s, r, req);
      }
    }
  }

  /** A rule that goes takes both its filters along, and one that stays keeps both. */
  predicate DeletesWhole(s: Rules, tenant: string, id: string, tc: TcRemoval) {
    match DeleteAnswer(s, tenant, id, tc)
    case RuleDeleted => BothGone(s.db[id], tc)
    case TimedOut => NeitherGone(s.db[id], tc)
    case _ => true
  }

  /** A delete keeps the filters exact exactly when it takes away both or, given up, none. */
  lemma DeleteKeeps(s: Rules, tenant: string, id: string, tc: TcRemoval)
    requires Ordered(s) && Indexed(s)
    ensures var s' := Delete(s, tenant, id, tc); Ordered(s') && Indexed(s') && (Tidy(s) ==> Tidy(s'))
    ensures InstalledExactly(s) ==> (InstalledExactly(Delete(s, tenant, id, tc)) <==> DeletesWhole(s, tenant, id, tc))
  {
    match DeleteAnswer(s, tenant, id, tc)
    case RuleDeleted => RemovedKeeps(s, id, tc);
    case TimedOut => GivenUpKeeps(s, id, tc);
    case _ =>
  }

  lemma RemovedKeeps(s: Rules, id: string, tc: TcRemoval)
    requires Ordered(s) && Indexed(s) && id in s.db
    ensures var s' := Unindex(Drop(s, id, tc), {id}); Ordered(s') && Indexed(s') && (Tidy(s) ==> Tidy(s'))
    ensures InstalledExactly(s) ==> (InstalledExactly(Unindex(Drop(s, id, tc), {id})) <==> BothGone(s.db[id], tc))
  {
    DropKeepsOrdered(s, id, tc);
    UnindexRestores(s, Drop(s, id, tc), {id});
    if InstalledExactly(s) {
      DropOneIsDropAll(s, id, tc);
      DropAllInstalledExactly(s, [id], _ => tc);
      UnindexInstalled(Drop(s, id, tc), {id});
    }
  }

  lemma GivenUpKeeps(s: Rules, id: string, tc: TcRemoval)
    requires Ordered(s) && Indexed(s) && id in s.db
    ensures var s' := GivenUp(s, s.db[id], tc); Ordered(s') && Indexed(s') && (Tidy(s) ==> Tidy(s'))
    ensures InstalledExactly(s) ==> (InstalledExactly(GivenUp(s, s.db[id], tc)) <==> NeitherGone(s.db[id], tc))
  {
    if InstalledExactly(s) {
      GivenUpInstalledExactly(s, [], _ => tc, id);
    }
  }

  lemma DropOneIsDropAll(s: Rules, id: string, tc: TcRemoval)
    requires id in s.db
    ensures DropAll(s, [id], _ => tc) == Drop(s, id, tc)
  {
    assert [id][..0] == [];
  }

  lemma PrefixOf(ids: seq<string>, n: nat)
    requires Distinct(ids) && n <= |ids|
    ensures Distinct(ids[..n]) && Members(ids[..n]) <= Members(ids)
    ensures n < |ids| ==> ids[n] !in ids[..n]
  {
  }

  lemma FlushedAreOwned(s: Rules, tenant: string, tc: Removals)
    requires Ordered(s)
    ensures var flushed := FlushedIds(s, tenant, tc);
      && Distinct(flushed) && Members(flushed) <= OwnedBy(s, tenant)
      && (forall i :: 0 <= i < |flushed| ==> flushed[i] in s.db && s.db[flushed[i]].tenant == tenant)
    ensures var at := GivenUpAt(s, tenant, tc);
      at.Some? ==> at.value in OwnedBy(s, tenant) && at.value !in FlushedIds(s, tenant, tc)
  {
    OwnedIdsAreOwned(s, tenant);
    var ids := OwnedIds(s.order, s.db, tenant);
    assert forall i :: 0 <= i < |ids| ==> ids[i] in Members(ids);
    PrefixOf(ids, StopsAt(s.db, ids, tc));
  }

  lemma FlushEndsExactly(s: Rules, tenant: string, tc: Removals)
    requires Ordered(s)
    ensures GivenUpAt(s, tenant, tc).None? <==> forall id :: id in OwnedBy(s, tenant) ==> !Aborts(s.db[id], tc(id))
    ensures GivenUpAt(s, tenant, tc).None? ==> Members(FlushedIds(s, tenant, tc)) == OwnedBy(s, tenant)
  {
    OwnedIdsAreOwned(s, tenant);
    var ids := OwnedIds(s.order, s.db, tenant);
    var n := StopsAt(s.db, ids, tc);
    if n == |ids| {
      assert ids[..n] == ids;
      forall id | id in OwnedBy(s, tenant)
        ensures !Aborts(s.db[id], tc(id))
      {
        assert id in Members(ids);
      }
    } else {
      assert ids[n] in Members(ids);
    }
  }

  lemma FlushKeepsOrdered(s: Rules, tenant: string, tc: Removals)
    requires Ordered(s) && Indexed(s)
    ensures Ordered(Flush(s, tenant, tc)) && Indexed(Flush(s, tenant, tc))
    ensures Flush(s, tenant, tc).db == s.db - Members(FlushedIds(s, tenant, tc))
    ensures Tidy(s) ==> (Tidy(Flush(s, tenant, tc)) <==> GivenUpAt(s, tenant, tc).None? || FlushedIds(s, tenant, tc) == [])
  {
    FlushedAreOwned(s, tenant, tc);
    var flushed := FlushedIds(s, tenant, tc);
    var t := DropAll(s, flushed, tc);
    DropAllKeepsOrdered(s, flushed, tc);
    UnindexRestores(s, t, Members(flushed));
    match GivenUpAt(s, tenant, tc)
    case Some(id) =>
      GivenUpSameIndexes(t, s.db[id], tc(id));
      if Tidy(s) {
        StaleExactly(s, t, flushed);
      }
    case None =>
  }

  lemma GivenUpSameIndexes(t: Rules, r: Rule, tc: TcRemoval)
    requires Ordered(t) && Indexed(t)
    ensures var u := GivenUp(t, r, tc); Ordered(u) && Indexed(u) && (Tidy(u) <==> Tidy(t)) && u.db == t.db
  {
  }

  lemma StaleExactly(s: Rules, t: Rules, flushed: seq<string>)
    requires Tidy(s) && Indexed(s) && t.db == s.db - Members(flushed)
    requires t.bySignature == s.bySignature && t.byKey == s.byKey
    requires forall i :: 0 <= i < |flushed| ==> flushed[i] in s.db
    ensures Tidy(t) <==> flushed == []
  {
    if flushed != [] {
      assert flushed[0] in Members(flushed);
    }
  }

  /** Every rule that goes takes both its filters along, and the one at which it is given up, if any,
      keeps both. */
  ghost predicate FlushesWhole(s: Rules, tenant: string, tc: Removals) {
    && (forall id :: id in FlushedIds(s, tenant, tc) && id in s.db ==> BothGone(s.db[id], tc(id)))
    && var at := GivenUpAt(s, tenant, tc);
       at.Some? ==> NeitherGone(s.db[at.value], tc(at.value))
  }

  /** A flush removes exactly the tenant's rules, or, when a removal times out, those before it; then,
      and only then, the indexes may hold stale entries. It keeps the filters exact exactly when no
      removal comes halfway. */
  lemma FlushKeeps(s: Rules, tenant: string, tc: Removals)
    requires Ordered(s) && Indexed(s)
    ensures Ordered(Flush(s, tenant, tc)) && Indexed(Flush(s, tenant, tc))
    ensures Flush(s, tenant, tc).db == s.db - Members(FlushedIds(s, tenant, tc))
    ensures Tidy(s) ==> (Tidy(Flush(s, tenant, tc)) <==> GivenUpAt(s, tenant, tc).None? || FlushedIds(s, tenant, tc) == [])
    ensures GivenUpAt(s, tenant, tc).None? ==> Members(FlushedIds(s, tenant, tc)) == OwnedBy(s, tenant)
    ensures GivenUpAt(s, tenant, tc).None? <==> forall id :: id in OwnedBy(s, tenant) ==> !Aborts(s.db[id], tc(id))
    ensures InstalledExactly(s) ==> (InstalledExactly(Flush(s, tenant, tc)) <==> FlushesWhole(s, tenant, tc))
  {
    FlushKeepsOrdered(s, tenant, tc);
    FlushedAreOwned(s, tenant, tc);
    FlushEndsExactly(s, tenant, tc);
    var flushed, at := FlushedIds(s, tenant, tc), GivenUpAt(s, tenant, tc);
    if InstalledExactly(s) {
      if at.None? {
        DropAllKeepsOrdered(s, flushed, tc);
        DropAllInstalledExactly(s, flushed, tc);
        UnindexInstalled(DropAll(s, flushed, tc), Members(flushed));
      } else {
        GivenUpInstalledExactly(s, flushed, tc, at.value);
      }
    }
  }

  // ---------------------------------------------------------------- what the index is for

  /** Looking a signature up agrees with scanning all rules for one that reads alike. */
  lemma LookupAgreesWithScan(s: Rules, x: Subject)
    requires Indexed(s)
    ensures SignatureFinds(s, SignatureOf(x)) <==> exists id :: id in s.db && ReadsAlike(RuleSubject(s.db[id]), x)
    ensures forall id :: id in s.db && ReadsAlike(RuleSubject(s.db[id]), x) ==>
              SignatureFinds(s, SignatureOf(x)) && s.bySignature[SignatureOf(x)] == id
  {
    forall id | id in s.db
      ensures RuleSignature(s.db[id]) == SignatureOf(x) <==> ReadsAlike(RuleSubject(s.db[id]), x)
    {
      SignaturesEqualExactly(RuleSubject(s.db[id]), x);
    }
    if SignatureFinds(s, SignatureOf(x)) {
      assert RuleSignature(s.db[s.bySignature[SignatureOf(x)]]) == SignatureOf(x);
    }
  }

  /** No two live rules read alike; in particular none share tenant and match fields. */
  lemma NoDuplicateRules(s: Rules, a: string, b: string)
    requires Indexed(s) && a in s.db && b in s.db && ReadsAlike(RuleSubject(s.db[a]), RuleSubject(s.db[b]))
    ensures a == b
  {
    SignaturesEqualExactly(RuleSubject(s.db[a]), RuleSubject(s.db[b]));
  }

  /** Repeating a request that was answered with a rule gets the same rule and changes nothing,
      whatever fresh id and handles the repetition would have used. */
  lemma RepeatingAddIsIdempotent(
    s: Rules, tenant: string, quota: int, req: Request,
    id: string, tc: TcOutcome, id2: string, tc2: TcOutcome)
    requires var reply := AddAnswer(s, tenant, quota, req, id, tc); reply.Created? || reply.Existing?
    ensures var s' := Add(s, tenant, quota, req, id, tc);
      && Add(s', tenant, quota, req, id2, tc2) == s'
      && AddAnswer(s', tenant, quota, req, id2, tc2) == Existing(AddAnswer(s, tenant, quota, req, id, tc).rule)
  {
  }

  /** The answer belongs to the asking tenant exactly when the request was not caught by an
      idempotency key another tenant's rule was stored under (that index has no tenants), nor,
      without such a key, by a rule of another tenant that reads alike. */
  lemma AnswerIsOwnExactly(s: Rules, tenant: string, quota: int, req: Request, id: string, tc: TcOutcome)
    requires Indexed(s)
    requires var reply := AddAnswer(s, tenant, quota, req, id, tc); reply.Created? || reply.Existing?
    ensures AddAnswer(s, tenant, quota, req, id, tc).rule.tenant == tenant <==>
      if KeyFinds(s, req) then s.db[s.byKey[req.idempotencyKey.value]].tenant == tenant
      else forall x :: x in s.db && ReadsAlike(RuleSubject(s.db[x]), RequestSubject(tenant, req)) ==> s.db[x].tenant == tenant
  {
    LookupAgreesWithScan(s, RequestSubject(tenant, req));
  }

  /** Among rules and requests whose tenants and addresses hold no bar, only keys mix tenants up. */
  lemma OwnWithoutBars(s: Rules, tenant: string, quota: int, req: Request, id: string, tc: TcOutcome)
    requires Indexed(s) && forall x :: x in s.db ==> NoBars(RuleSubject(s.db[x]))
    requires !KeyFinds(s, req)
    requires var reply := AddAnswer(s, tenant, quota, req, id, tc); reply.Created? || reply.Existing?
    ensures AddAnswer(s, tenant, quota, req, id, tc).rule.tenant == tenant
  {
    AnswerIsOwnExactly(s, tenant, quota, req, id, tc);
    forall x | x in s.db && ReadsAlike(RuleSubject(s.db[x]), RequestSubject(tenant, req))
      ensures s.db[x].tenant == tenant
    {
      SignaturesEqualExactly(RuleSubject(s.db[x]), RequestSubject(tenant, req));
      NoBarsNoMixup(RuleSubject(s.db[x]), RequestSubject(tenant, req));
    }
  }

  /** A tenant whose name holds a bar owns a rule; another tenant, without any key, asks for a rule from
      an address that begins with the rest of that name, and is answered with the first one's. */
  lemma BarMixesTenantsUp()
    ensures var own := Request(Fields(Some("10.0.0.1"), Some("10.0.0.2"), None, None), Tcp, Allow, 100, None);
      var other := Request(Fields(Some("eu|10.0.0.1"), Some("10.0.0.2"), None, None), Tcp, Allow, 100, None);
      var s := Add(EMPTY, "acme|eu", 1, own, "r", Installed(1, 1, true, true));
      && "r" in s.db && s.db["r"].tenant == "acme|eu"
      && AddAnswer(s, "acme", 1, other, "q", FirstRefused) == Existing(s.db["r"])
  {
    var own := Request(Fields(Some("10.0.0.1"), Some("10.0.0.2"), None, None), Tcp, Allow, 100, None);
    var other := Request(Fields(Some("eu|10.0.0.1"), Some("10.0.0.2"), None, None), Tcp, Allow, 100, None);
    var x, y := RequestSubject("acme|eu", own), RequestSubject("acme", other);
    assert Origin(x) == "acme|eu|10.0.0.1|10.0.0.2" == Origin(y);
    AnsweredByAlike("acme|eu", own, "r", "acme", other);
  }

  lemma AnsweredByAlike(owner: string, own: Request, id: string, tenant: string, other: Request)
    requires own.idempotencyKey.None? && other.idempotencyKey.None?
    requires ReadsAlike(RequestSubject(owner, own), RequestSubject(tenant, other))
    ensures var s := Add(EMPTY, owner, 1, own, id, Installed(1, 1, true, true));
      && id in s.db && s.db[id].tenant == owner
      && AddAnswer(s, tenant, 1, other, "q", FirstRefused) == Existing(s.db[id])
  {
    FirstRuleIn(owner, own, id, Installed(1, 1, true, true));
    SignaturesEqualExactly(RequestSubject(owner, own), RequestSubject(tenant, other));
  }

  /** The first rule of an empty store. */
  lemma FirstRuleIn(tenant: string, req: Request, id: string, tc: TcOutcome)
    requires req.idempotencyKey.None?
    ensures OwnedBy(EMPTY, tenant) == {}
    ensures var r := NewRule(tenant, req, id, tc);
      Add(EMPTY, tenant, 1, req, id, tc)
      == match tc
         case Installed(_, _, _, _) =>
           Rules(map[id := r], [id], map[RequestSignature(tenant, req) := id], map[], [ForwardFilter(r)], [ReverseFilter(r)])
         case FirstRefused => EMPTY
         case SecondRefused(_) => EMPTY.(internet := [ForwardFilter(r)])
         case Abandoned(_, _) => EMPTY.(internet := [ForwardFilter(r)], client := [ReverseFilter(r)])
  {
    assert OwnedBy(EMPTY, tenant) == {};
  }

  lemma KeyFindsFirst(owner: string, own: Request, id: string, key: string)
    requires own.idempotencyKey == Some(key) && key != ""
    ensures var s := Add(EMPTY, owner, 1, own, id, Installed(1, 1, true, true));
      s.db == map[id := NewRule(owner, own, id, Installed(1, 1, true, true))] && s.byKey == map[key := id]
  {
    assert OwnedBy(EMPTY, owner) == {};
  }

  /** A tenant names an idempotency key that another has used: it is answered with the rule of that
      one, whatever it asked for, and no rule is made for it. */
  lemma AnswerIsAnotherTenants(owner: string, own: Request, id: string, tenant: string, other: Request, key: string)
    requires owner != tenant && key != "" && own.idempotencyKey == other.idempotencyKey == Some(key)
    ensures var s := Add(EMPTY, owner, 1, own, id, Installed(1, 1, true, true));
      && id in s.db && s.db[id].tenant != tenant
      && AddAnswer(s, tenant, 1, other, "q", FirstRefused) == Existing(s.db[id])
      && Add(s, tenant, 1, other, "q", FirstRefused) == s
  {
    KeyFindsFirst(owner, own, id, key);
  }

  /** On the ports of such a store, a packet from the internet is redirected exactly when its
      reverse from the client is. */
  lemma InstalledPortsMirror(s: Rules, covers: Covers, p: Packet)
    requires Ordered(s) && InstalledExactly(s)
    ensures Redirected(s.internet, covers, p) <==> Redirected(s.client, covers, Reversed(p))
  {
    assert forall i :: 0 <= i < |s.order| ==> s.order[i] in Members(s.order);
    forall i, c: Covers, q: Packet | 0 <= i < |s.order|
      ensures AllHit(c, s.internet[i].keys, q) <==> AllHit(c, s.client[i].keys, Reversed(q))
    {
      var r := s.db[s.order[i]];
      assert s.internet[i] == ForwardFilter(r) && s.client[i] == ReverseFilter(r);
      SwappedKeysHitReversed(c, r.fields, ProtocolText(r.protocol), q);
    }
    forall i | 0 <= i < |s.order|
      ensures s.internet[i].priority == s.client[i].priority && s.internet[i].action == s.client[i].action
    {
      assert s.internet[i] == ForwardFilter(s.db[s.order[i]]) && s.client[i] == ReverseFilter(s.db[s.order[i]]);
    }
    MirroredRedirectAlike(s.internet, s.client, covers, p);
  }

  // ---------------------------------------------------------------- when the mirror survives

  /** The two ports treat this packet and its reverse alike. */
  predicate MirrorsAt(s: Rules, covers: Covers, p: Packet) {
    Redirected(s.internet, covers, p) <==> Redirected(s.client, covers, Reversed(p))
  }

  /** The filter decides the packet once it is added to the list. */
  predicate WouldDecide(filters: seq<Filter>, f: Filter, covers: Covers, p: Packet) {
    && AllHit(covers, f.keys, p)
    && (Deciding(filters, covers, p).Some? ==> f.priority < filters[Deciding(filters, covers, p).value].priority)
  }

  lemma AddedFilterDecides(filters: seq<Filter>, f: Filter, covers: Covers, p: Packet)
    ensures Redirected(filters + [f], covers, p)
       <==> if WouldDecide(filters, f, covers, p) then f.action == Redirect else Redirected(filters, covers, p)
  {
    var all := filters + [f];
    assert all[..|all| - 1] == filters;
  }

  /** A filter left behind on one port by a failed install breaks the mirror at exactly the packets
      it decides differently. */
  lemma PartialInstallMirrorsExactly(s: Rules, f: Filter, covers: Covers, p: Packet)
    requires Ordered(s) && InstalledExactly(s)
    ensures MirrorsAt(s.(internet := s.internet + [f]), covers, p)
       <==> (WouldDecide(s.internet, f, covers, p) ==> (f.action == Redirect <==> Redirected(s.internet, covers, p)))
  {
    InstalledPortsMirror(s, covers, p);
    AddedFilterDecides(s.internet, f, covers, p);
  }

  /** After a deletion the ports mirror each other when both filters or neither went, and else at
      exactly the packets that the rule made no difference to. */
  lemma PartialDeleteMirrorsExactly(s: Rules, id: string, fwdGone: bool, revGone: bool, covers: Covers, p: Packet)
    requires Ordered(s) && InstalledExactly(s) && id in s.db
    ensures MirrorsAt(DropRule(s, id, fwdGone, revGone), covers, p)
       <==> fwdGone == revGone
            || (Redirected(s.internet, covers, p) <==> Redirected(DropRule(s, id, true, true).internet, covers, p))
  {
    var full := DropRule(s, id, true, true);
    FullDropIsInstalled(s, id);
    InstalledPortsMirror(s, covers, p);
    InstalledPortsMirror(full, covers, p);
  }

  lemma FullDropIsInstalled(s: Rules, id: string)
    requires Ordered(s) && InstalledExactly(s) && id in s.db
    ensures Ordered(DropRule(s, id, true, true)) && InstalledExactly(DropRule(s, id, true, true))
  {
    InstalledParts(s);
    KeepIdsNone(s.order);
    LeftoverStep(s.order, s.db, ForwardFilter, {}, id);
    LeftoverStep(s.order, s.db, ReverseFilter, {}, id);
    var t := DropRule(s, id, true, true);
    KeepIdsMembers(s.order, {id});
    assert Ordered(t);
    assert {} + {id} == {id};
    LeftInstalledExactly(s, t, {id}, {id}, {id});
  }

  /** An empty client port does not redirect back what a lone filter without keys redirects. */
  lemma LoneFilterBreaksMirror(s: Rules, f: Filter, covers: Covers, p: Packet)
    requires f.keys == [] && f.action == Redirect && s.internet == [f] && s.client == []
    ensures Redirected(s.internet, covers, p) && !MirrorsAt(s, covers, p)
  {
    assert [f][..0] == [];
  }

  /** A request without a key to let everything through. */
  predicate AllowsAll(req: Request) {
    req.fields == Fields(None, None, None, None) && req.protocol == Any && req.action == Allow && req.idempotencyKey == None
  }

  lemma AllowsAllFilter(tenant: string, req: Request, id: string, tc: TcOutcome)
    requires AllowsAll(req)
    ensures var f := ForwardFilter(NewRule(tenant, req, id, tc)); f.keys == [] && f.action == Redirect
  {
  }

  /** When the second command of such a request fails in an empty store, its first filter stays, and
      redirects every packet one way only. */
  lemma PartialInstallBreaksMirror(tenant: string, req: Request, id: string, covers: Covers, p: Packet)
    requires AllowsAll(req)
    ensures var s := Add(EMPTY, tenant, 1, req, id, SecondRefused(1));
      && s.db == map[]
      && Redirected(s.internet, covers, p) && !MirrorsAt(s, covers, p)
  {
    FirstRuleIn(tenant, req, id, SecondRefused(1));
    AllowsAllFilter(tenant, req, id, SecondRefused(1));
    LoneFilterBreaksMirror(Add(EMPTY, tenant, 1, req, id, SecondRefused(1)),
                           ForwardFilter(NewRule(tenant, req, id, SecondRefused(1))), covers, p);
  }

  lemma UnknownHandleStays(s: Rules, r: Rule)
    requires s.db == map[r.id := r] && r.revKnown && !r.fwdKnown
    requires s.internet == [ForwardFilter(r)] && s.client == [ReverseFilter(r)]
    ensures var t := Delete(s, r.tenant, r.id, TcRemoval(Succeeds, Succeeds));
      t.db == map[] && t.internet == s.internet && t.client == []
  {
    assert [ReverseFilter(r)][..0] == [];
    assert Deleted(s.client, r.handleRev, r.priority) == [];
  }

  /** A rule whose forward handle was not learned leaves that filter behind when it is deleted, even
      though both deletion commands would have succeeded. */
  lemma UnknownHandleBreaksMirror(tenant: string, req: Request, id: string, covers: Covers, p: Packet)
    requires AllowsAll(req)
    ensures var s := Delete(Add(EMPTY, tenant, 1, req, id, Installed(1, 1, false, true)), tenant, id, TcRemoval(Succeeds, Succeeds));
      && s.db == map[]
      && Redirected(s.internet, covers, p) && !MirrorsAt(s, covers, p)
  {
    var tc := Installed(1, 1, false, true);
    var r, s := NewRule(tenant, req, id, tc), Add(EMPTY, tenant, 1, req, id, tc);
    FirstRuleIn(tenant, req, id, tc);
    AllowsAllFilter(tenant, req, id, tc);
    UnknownHandleStays(s, r);
    LoneFilterBreaksMirror(Delete(s, tenant, id, TcRemoval(Succeeds, Succeeds)), ForwardFilter(r), covers, p);
  }

  // ---------------------------------------------------------------- what the ports do

  /** The live rules in insertion order. */
  function Live(s: Rules): seq<Rule> {
    LiveOf(s.order, s.db)
  }

  function LiveOf(order: seq<string>, db: map<string, Rule>): seq<Rule> {
    if order == [] then []
    else
      var front := LiveOf(order[..|order| - 1], db);
      if order[|order| - 1] in db then front + [db[order[|order| - 1]]] else front
  }

  function RulePriority(): Rule -> int {
    (r: Rule) => r.priority
  }

  /** The rule is about the packet: protocol and given addresses agree, and given ports, which count for
      TCP and UDP only. A port 0 and an empty address are not given. */
  predicate Concerns(covers: Covers, r: Rule, p: Packet) {
    && (r.protocol == Tcp ==> p.protocol == "tcp")
    && (r.protocol == Udp ==> p.protocol == "udp")
    && (r.protocol == Icmp ==> p.protocol == "icmp")
    && (r.fields.src.Some? && r.fields.src.value != "" ==> covers(r.fields.src.value, p.src))
    && (r.fields.dst.Some? && r.fields.dst.value != "" ==> covers(r.fields.dst.value, p.dst))
    && (r.protocol == Tcp || r.protocol == Udp ==>
          && (r.fields.srcPort.Some? && r.fields.srcPort.value != 0 ==> p.srcPort == r.fields.srcPort.value)
          && (r.fields.dstPort.Some? && r.fields.dstPort.value != 0 ==> p.dstPort == r.fields.dstPort.value))
  }

  /** The handed-out protocol text and the keys under it match exactly those packets. */
  lemma ConcernsExactly(covers: Covers, r: Rule, p: Packet)
    ensures AllHit(covers, ForwardFilter(r).keys, p) <==> Concerns(covers, r, p)
  {
    FlowerKeysMatchFields(covers, r.fields, ProtocolText(r.protocol), p);
    ProtocolTexts(r.protocol);
  }

  lemma ProtocolTexts(p: Protocol)
    ensures NamesProtocol(ProtocolText(p)) <==> p != Any
    ensures HasPorts(ProtocolText(p)) <==> p == Tcp || p == Udp
    ensures p == Tcp ==> ProtocolText(p) == "tcp"
    ensures p == Udp ==> ProtocolText(p) == "udp"
    ensures p == Icmp ==> ProtocolText(p) == "icmp"
  {
    assert "icmp"[0] != "tcp"[0] && "icmp"[0] != "udp"[0] && "ip"[0] != "tcp"[0] && "ip"[0] != "udp"[0];
    assert |"tcp"| != |"ip"| && |"icmp"| != |"ip"| && |"udp"| != |"ip"|;
    assert "tcp"[0] != "any"[0] && "udp"[0] != "any"[0] && "icmp"[0] != "any"[0];
  }

  function ConcernedBy(covers: Covers, p: Packet): Rule -> bool {
    (r: Rule) => Concerns(covers, r, p)
  }

  /** The live rule at `i` is about the packet, and every other that is has a greater priority number, or
      the same and is younger. */
  ghost predicate Decides(s: Rules, covers: Covers, p: Packet, i: nat) {
    && i < |s.order| && (forall j :: 0 <= j < |s.order| ==> s.order[j] in s.db)
    && Concerns(covers, s.db[s.order[i]], p)
    && forall j :: 0 <= j < |s.order| && Concerns(covers, s.db[s.order[j]], p) ==>
         || s.db[s.order[i]].priority < s.db[s.order[j]].priority
         || (s.db[s.order[i]].priority == s.db[s.order[j]].priority && i <= j)
  }

  lemma {:induction false} LiveAt(order: seq<string>, db: map<string, Rule>)
    requires forall i :: 0 <= i < |order| ==> order[i] in db
    ensures |LiveOf(order, db)| == |order|
    ensures forall i :: 0 <= i < |order| ==> LiveOf(order, db)[i] == db[order[i]]
  {
    if order != [] {
      LiveAt(order[..|order| - 1], db);
    }
  }

  /** The internet port redirects a packet exactly when the live rule that decides it allows. */
  lemma RulesDecidePackets(s: Rules, covers: Covers, p: Packet)
    requires Ordered(s) && InstalledExactly(s)
    ensures Redirected(s.internet, covers, p) <==> exists i: nat :: Decides(s, covers, p, i) && s.db[s.order[i]].action == Allow
  {
    BestDecides(s, covers, p);
    PortFollowsLive(s, covers, p);
    LiveIs(s);
    OneDecides(s, covers, p);
  }

  lemma LiveIs(s: Rules)
    requires Ordered(s)
    ensures |Live(s)| == |s.order|
    ensures forall i :: 0 <= i < |s.order| ==> s.order[i] in s.db && Live(s)[i] == s.db[s.order[i]]
  {
    assert forall i :: 0 <= i < |s.order| ==> s.order[i] in Members(s.order);
    LiveAt(s.order, s.db);
  }

  lemma OneDecides(s: Rules, covers: Covers, p: Packet)
    ensures forall i: nat, j: nat :: Decides(s, covers, p, i) && Decides(s, covers, p, j) ==> i == j
  {
  }

  lemma BestDecides(s: Rules, covers: Covers, p: Packet)
    requires Ordered(s)
    ensures match Best(Live(s), RulePriority(), ConcernedBy(covers, p))
            case Some(w) => Decides(s, covers, p, w)
            case None => forall i: nat :: !Decides(s, covers, p, i)
  {
    LiveIs(s);
    BestIsWinner(Live(s), RulePriority(), ConcernedBy(covers, p));
  }

  lemma PortIs(s: Rules)
    requires Ordered(s) && InstalledExactly(s)
    ensures |s.internet| == |Live(s)| && forall i :: 0 <= i < |s.internet| ==> s.internet[i] == ForwardFilter(Live(s)[i])
  {
    LiveIs(s);
  }

  lemma PortFollowsLive(s: Rules, covers: Covers, p: Packet)
    requires Ordered(s) && InstalledExactly(s)
    ensures Redirected(s.internet, covers, p) <==>
      match Best(Live(s), RulePriority(), ConcernedBy(covers, p))
      case Some(i) => Live(s)[i].action == Allow
      case None => false
  {
    PortIs(s);
    forall i | 0 <= i < |s.order|
      ensures HitBy(covers, p)(s.internet[i]) == ConcernedBy(covers, p)(Live(s)[i])
    {
      ConcernsExactly(covers, Live(s)[i], p);
    }
    BestDependsOnPriorityAndMatch(s.internet, FilterPriority(), HitBy(covers, p), Live(s), RulePriority(), ConcernedBy(covers, p));
  }

  // ---------------------------------------------------------------- requests in plain terms

  /** The request is new: its key, if it has one, names no live rule, nor does its signature. */
  predicate IsNew(s: Rules, tenant: string, req: Request) {
    && (req.idempotencyKey.Some? && req.idempotencyKey.value != "" && req.idempotencyKey.value in s.byKey ==>
          s.byKey[req.idempotencyKey.value] !in s.db)
    && (RequestSignature(tenant, req) in s.bySignature ==> s.bySignature[RequestSignature(tenant, req)] !in s.db)
  }

  /** A new request makes a rule exactly when the tenant has room and both commands go through: a rule of
      that tenant which says what was asked for, youngest of all, found by its signature and by its key
      if it has one. Otherwise no rule, index entry or place in the order changes. */
  lemma AddMeans(s: Rules, tenant: string, quota: int, req: Request, id: string, tc: TcOutcome)
    ensures var reply, t := AddAnswer(s, tenant, quota, req, id, tc), Add(s, tenant, quota, req, id, tc);
      && (reply.Existing? <==> !IsNew(s, tenant, req))
      && (reply.QuotaExceeded? <==> IsNew(s, tenant, req) && |OwnedBy(s, tenant)| >= quota)
      && (reply.Created? <==> IsNew(s, tenant, req) && |OwnedBy(s, tenant)| < quota && tc.Installed?)
      && (reply.Created? ==>
            && reply.rule == Rule(id, tenant, req.fields, req.protocol, req.action, req.priority,
                                  tc.fwd, tc.rev, tc.fwdKnown, tc.revKnown)
            && t.db == s.db[id := reply.rule] && t.order == s.order + [id]
            && t.bySignature == s.bySignature[RequestSignature(tenant, req) := id]
            && t.byKey == (if req.idempotencyKey.Some? && req.idempotencyKey.value != ""
                           then s.byKey[req.idempotencyKey.value := id] else s.byKey))
      && (!reply.Created? ==>
            t.db == s.db && t.order == s.order && t.bySignature == s.bySignature && t.byKey == s.byKey)
  {
  }

  /** A removal takes the rule and exactly the index entries that name it. */
  lemma DeleteMeans(s: Rules, tenant: string, id: string, tc: TcRemoval)
    ensures var reply, t := DeleteAnswer(s, tenant, id, tc), Delete(s, tenant, id, tc);
      && (reply == NotFound <==> id !in s.db)
      && (reply == NotOwner <==> id in s.db && s.db[id].tenant != tenant)
      && (reply == RuleDeleted ==> t.db == s.db - {id} && LosesEntries(s, t, {id}))
      && (reply != RuleDeleted ==> t.db == s.db && t.order == s.order && LosesEntries(s, t, {}))
  {
  }

  /** Both indexes lost exactly the entries that name one of the rules. */
  ghost predicate LosesEntries(s: Rules, t: Rules, ids: set<string>) {
    && (forall sig :: sig in t.bySignature <==> sig in s.bySignature && s.bySignature[sig] !in ids)
    && (forall sig :: sig in t.bySignature ==> t.bySignature[sig] == s.bySignature[sig])
    && (forall key :: key in t.byKey <==> key in s.byKey && s.byKey[key] !in ids)
    && (forall key :: key in t.byKey ==> t.byKey[key] == s.byKey[key])
  }

  /** So does a flush, unless it is given up. */
  lemma FlushMeans(s: Rules, tenant: string, tc: Removals)
    requires Ordered(s)
    ensures GivenUpAt(s, tenant, tc).None? ==> LosesEntries(s, Flush(s, tenant, tc), OwnedBy(s, tenant))
    ensures GivenUpAt(s, tenant, tc).Some? ==> LosesEntries(s, Flush(s, tenant, tc), {})
  {
    FlushEndsExactly(s, tenant, tc);
  }
}
