/** The offload daemon: an index of sessions by key string over a hardware table of entries by
    handle, with forward/reverse pairs, flushes by criterion, and the orphans overwriting leaves. */
module OffloadDaemon {
  import opened Prelude
  import opened SessionKeys
  import opened Text

  datatype Entry = Entry(
    handle: nat,
    vni: nat,
    key: SessionKey,
    action: int,
    bidirectional: bool,
    reverseHandle: Option<nat>,
    ruleId: string,
    createdAt: real
  )

  datatype HwEntry = HwEntry(key: SessionKey, action: int, forwardPort: nat, packets: nat, bytes: nat)

  type Sessions = map<string, Entry>

  type Hardware = map<nat, HwEntry>

  /** `faulty` holds the handles for which the hardware answers a removal or a query with an error.
      In the mock hardware the cause is a poisoned lock, and then it holds every handle in use. */
  datatype Daemon = Daemon(table: Sessions, hw: Hardware, nextHandle: nat, faulty: set<nat>)

  /** `at` is when the daemon serves the request. */
  datatype Request = Request(
    key: Option<SessionKey>, action: int, bidirectional: bool, forwardPort: nat, ruleId: string, at: real)

  datatype ProgramResult = InvalidArgument | ProgramFailed | Programmed(handle: nat)

  datatype QueryResult = QueryResult(found: bool, packets: nat, bytes: nat, ageSeconds: int, offloaded: bool)

  datatype Criteria = ByRule(ruleId: string) | ByVni(vni: nat) | All(all: bool)

  const START := Daemon(map[], map[], 1, {})

  /** The rule id the datapath puts in a request: the index of the winning rule as text. */
  function RuleIdText(index: Option<nat>): string {
    if index.Some? then "rule_" + Decimal(index.value) else ""
  }

  lemma RuleIdTextInjective(a: Option<nat>, b: Option<nat>)
    requires RuleIdText(a) == RuleIdText(b)
    ensures a == b
  {
    if a.Some? && b.Some? {
      assert RuleIdText(a)[5..] == Decimal(a.value) && RuleIdText(b)[5..] == Decimal(b.value);
      DecimalInjective(a.value, b.value);
    }
  }

  // ---------------------------------------------------------------- programming a session

  function HwAdd(d: Daemon, key: SessionKey, req: Request): Daemon {
    d.(hw := d.hw[d.nextHandle := HwEntry(key, req.action, req.forwardPort, 0, 0)],
       nextHandle := d.nextHandle + 1)
  }

  function HwRefuse(d: Daemon): Daemon {
    d.(nextHandle := d.nextHandle + 1)
  }

  function ForwardEntry(req: Request, key: SessionKey, handle: nat, reverse: Option<nat>): Entry {
    Entry(handle, key.vni, key, req.action, req.bidirectional, reverse, req.ruleId, req.at)
  }

  function ReverseEntry(req: Request, key: SessionKey, handle: nat, forward: nat): Entry {
    Entry(handle, key.vni, ReverseKey(key), req.action, true, Some(forward), req.ruleId, req.at)
  }

  /** `forwardOk` and `reverseOk` say whether the hardware accepts the two entries; a handle is used
      up either way. A refused reverse entry takes the forward one back out, unless that fails too;
      nobody looks at the outcome. */
  function Program(d: Daemon, req: Request, forwardOk: bool, reverseOk: bool): Daemon {
    if req.key.None? then d
    else if !forwardOk then HwRefuse(d)
    else
      var key, fwd := req.key.value, d.nextHandle;
      var d1 := HwAdd(d, key, req);
      if !req.bidirectional then
        d1.(table := d.table[KeyString(key) := ForwardEntry(req, key, fwd, None)])
      else if !reverseOk then
        var d2 := HwRefuse(d1);
        d2.(hw := d2.hw - ({fwd} - d.faulty))
      else
        var rev := d1.nextHandle;
        var d2 := HwAdd(d1, ReverseKey(key), req);
        d2.(table := d.table[KeyString(key) := ForwardEntry(req, key, fwd, Some(rev))]
                            [KeyString(ReverseKey(key)) := ReverseEntry(req, key, rev, fwd)])
  }

  function ProgramReply(d: Daemon, req: Request, forwardOk: bool, reverseOk: bool): ProgramResult {
    if req.key.None? then InvalidArgument
    else if !forwardOk || (req.bidirectional && !reverseOk) then ProgramFailed
    else Programmed(d.nextHandle)
  }

  /** An accepted request in full: one entry and one handle, or, both ways, two of each, under the key and
      under the key with its two ends swapped, each knowing the handle of the other. */
  lemma ProgramMeans(d: Daemon, req: Request, key: SessionKey)
    requires req.key == Some(key)
    ensures var h, k, d' := d.nextHandle, KeyString(key), Program(d, req, true, true);
      !req.bidirectional ==>
        && d'.table == d.table[k := Entry(h, key.vni, key, req.action, false, None, req.ruleId, req.at)]
        && d'.hw == d.hw[h := HwEntry(key, req.action, req.forwardPort, 0, 0)] && d'.nextHandle == h + 1
    ensures var h, k, d' := d.nextHandle, KeyString(key), Program(d, req, true, true);
      var back := SessionKey(key.vni, key.dstIp, key.srcIp, key.dstPort, key.srcPort, key.protocol);
      req.bidirectional ==>
        && d'.table == d.table[k := Entry(h, key.vni, key, req.action, true, Some(h + 1), req.ruleId, req.at)]
                              [KeyString(back) := Entry(h + 1, key.vni, back, req.action, true, Some(h), req.ruleId, req.at)]
        && d'.hw == d.hw[h := HwEntry(key, req.action, req.forwardPort, 0, 0)]
                        [h + 1 := HwEntry(back, req.action, req.forwardPort, 0, 0)]
        && d'.nextHandle == h + 2
  {
  }

  /** A request fails for want of a key, or because the hardware refuses an entry it asks for. */
  lemma ReplyMeans(d: Daemon, req: Request, forwardOk: bool, reverseOk: bool)
    ensures var r := ProgramReply(d, req, forwardOk, reverseOk);
      && (r == InvalidArgument <==> req.key == None)
      && (r == Programmed(d.nextHandle) <==> req.key != None && forwardOk && (req.bidirectional ==> reverseOk))
      && (r.Programmed? ==> r.handle == d.nextHandle && Program(d, req, forwardOk, reverseOk) == Program(d, req, true, true))
  {
  }

  // ---------------------------------------------------------------- removing sessions

  function HandlesOf(e: Entry): set<nat> {
    {e.handle} + if e.reverseHandle.Some? then {e.reverseHandle.value} else {}
  }

  function HandlesAt(table: Sessions, keys: set<string>): set<nat> {
    set k, h | k in keys && k in table && h in HandlesOf(table[k]) :: h
  }

  /** Takes sessions out of the index, and both handles of each out of the hardware, as far as it
      lets them go. */
  function RemoveKeys(d: Daemon, keys: set<string>): Daemon {
    d.(table := d.table - keys, hw := d.hw - (HandlesAt(d.table, keys) - d.faulty))
  }

  predicate Selected(c: Criteria, e: Entry) {
    match c
    case ByRule(ruleId) => e.ruleId == ruleId
    case ByVni(vni) => e.vni == vni
    case All(all) => all
  }

  function SelectedKeys(table: Sessions, c: Criteria): set<string> {
    set k | k in table && Selected(c, table[k])
  }

  function Flush(d: Daemon, c: Criteria): Daemon {
    RemoveKeys(d, SelectedKeys(d.table, c))
  }

  predicate Backed(d: Daemon, key: string) {
    key in d.table && d.table[key].handle in d.hw
  }

  /** The hardware knows the session's handle and answers for it. */
  predicate Answers(d: Daemon, key: string) {
    Backed(d, key) && d.table[key].handle !in d.faulty
  }

  /** Answering a query moves the mock hardware's counters, which stand for traffic. */
  function Query(d: Daemon, key: string): Daemon {
    if Answers(d, key) then
      var h := d.table[key].handle;
      d.(hw := d.hw[h := d.hw[h].(packets := d.hw[h].packets + 10, bytes := d.hw[h].bytes + 15000)])
    else d
  }

  /** Whole seconds from one instant to another, 0 when the clock went back. */
  function WholeSeconds(from: real, to: real): int {
    if to < from then 0 else (to - from).Floor
  }

  /** The reply reads the counters after the query moved them; without an answer they read 0, and
      the session is reported as offloaded all the same. */
  function QueryReply(d: Daemon, key: string, now: real): QueryResult {
    if key !in d.table then QueryResult(false, 0, 0, 0, false)
    else
      var age := WholeSeconds(d.table[key].createdAt, now);
      if Answers(d, key) then
        var e := d.hw[d.table[key].handle];
        QueryResult(true, e.packets + 10, e.bytes + 15000, age, true)
      else QueryResult(true, 0, 0, age, true)
  }

  // ---------------------------------------------------------------- backing

  /** `a` and `b` are the two directions of one session. */
  predicate Partners(table: Sessions, a: string, b: string) {
    a in table && b in table && table[a].reverseHandle == Some(table[b].handle)
  }

  ghost predicate HandlesBounded(d: Daemon) {
    && (forall h :: h in d.hw ==> h < d.nextHandle)
    && (forall k :: k in d.table ==> d.table[k].handle < d.nextHandle)
    && (forall k :: k in d.table && d.table[k].reverseHandle.Some? ==> d.table[k].reverseHandle.value < d.nextHandle)
  }

  ghost predicate HandlesDistinct(table: Sessions) {
    forall a, b :: a in table && b in table && table[a].handle == table[b].handle ==> a == b
  }

  ghost predicate PairsAgree(table: Sessions) {
    forall a, b :: Partners(table, a, b) ==>
      Partners(table, b, a) && table[a].ruleId == table[b].ruleId && table[a].vni == table[b].vni
  }

  /** Handles are never reused, no two sessions share one, and the two directions of a session
      agree on rule and network. */
  ghost predicate Inv(d: Daemon) {
    HandlesBounded(d) && HandlesDistinct(d.table) && PairsAgree(d.table)
  }

  /** A session inserted under a handle the table has never seen gets no partner by accident. */
  lemma InsertFresh(table: Sessions, bound: nat, k: string, e: Entry)
    requires forall a :: a in table ==> table[a].handle < bound
    requires forall a :: a in table && table[a].reverseHandle.Some? ==> table[a].reverseHandle.value < bound
    requires HandlesDistinct(table) && PairsAgree(table)
    requires e.handle >= bound && e.reverseHandle.None?
    ensures HandlesDistinct(table[k := e]) && PairsAgree(table[k := e])
  {
    var t := table[k := e];
    forall a, b | Partners(t, a, b)
      ensures Partners(table, a, b) && a != k && b != k
    {
      assert a != k;
      assert t[a] == table[a];
    }
  }

  /** Nor do two sessions inserted as each other's reverse, except each other. */
  lemma InsertFreshPair(table: Sessions, bound: nat, k: string, e: Entry, r: string, f: Entry)
    requires forall a :: a in table ==> table[a].handle < bound
    requires forall a :: a in table && table[a].reverseHandle.Some? ==> table[a].reverseHandle.value < bound
    requires HandlesDistinct(table) && PairsAgree(table)
    requires e.handle >= bound && f.handle >= bound && e.handle != f.handle
    requires e.reverseHandle == Some(f.handle) && f.reverseHandle == Some(e.handle)
    requires e.ruleId == f.ruleId && e.vni == f.vni
    ensures HandlesDistinct(table[k := e][r := f]) && PairsAgree(table[k := e][r := f])
  {
    var t := table[k := e][r := f];
    forall a, b | Partners(t, a, b)
      ensures (Partners(table, a, b) && a != k && a != r && b != k && b != r) || (a == k && b == r) || (a == r && b == k)
    {
      if a != k && a != r {
        assert t[a] == table[a];
        assert b != k && b != r;
      }
    }
  }

  lemma ProgramKeepsBounds(d: Daemon, req: Request, forwardOk: bool, reverseOk: bool)
    requires HandlesBounded(d)
    ensures HandlesBounded(Program(d, req, forwardOk, reverseOk))
  {
  }

  lemma ProgramKeepsInv(d: Daemon, req: Request, forwardOk: bool, reverseOk: bool)
    requires Inv(d)
    ensures Inv(Program(d, req, forwardOk, reverseOk))
  {
    ProgramKeepsBounds(d, req, forwardOk, reverseOk);
    ProgramKeepsPairs(d, req, forwardOk, reverseOk);
  }

  lemma ProgramKeepsPairs(d: Daemon, req: Request, forwardOk: bool, reverseOk: bool)
    requires Inv(d)
    ensures var t := Program(d, req, forwardOk, reverseOk).table; HandlesDistinct(t) && PairsAgree(t)
  {
    if ProgramReply(d, req, forwardOk, reverseOk).Programmed? {
      var key, h := req.key.value, d.nextHandle;
      ProgrammedTable(d, req, forwardOk, reverseOk, key);
      if req.bidirectional {
        PairKeeps(d, req, key, KeyString(key), KeyString(ReverseKey(key)));
      } else {
        InsertFresh(d.table, h, KeyString(key), ForwardEntry(req, key, h, None));
      }
    } else {
      assert Program(d, req, forwardOk, reverseOk).table == d.table;
    }
  }

  lemma ProgrammedTable(d: Daemon, req: Request, forwardOk: bool, reverseOk: bool, key: SessionKey)
    requires ProgramReply(d, req, forwardOk, reverseOk).Programmed? && req.key == Some(key)
    ensures var h := d.nextHandle;
      Program(d, req, forwardOk, reverseOk).table
      == if req.bidirectional
         then d.table[KeyString(key) := ForwardEntry(req, key, h, Some(h + 1))]
                     [KeyString(ReverseKey(key)) := ReverseEntry(req, key, h + 1, h)]
         else d.table[KeyString(key) := ForwardEntry(req, key, h, None)]
  {
  }

  lemma PairKeeps(d: Daemon, req: Request, key: SessionKey, k: string, r: string)
    requires Inv(d)
    ensures var h := d.nextHandle;
      var t := d.table[k := ForwardEntry(req, key, h, Some(h + 1))][r := ReverseEntry(req, key, h + 1, h)];
      HandlesDistinct(t) && PairsAgree(t)
  {
    var h := d.nextHandle;
    InsertFreshPair(d.table, h, k, ForwardEntry(req, key, h, Some(h + 1)), r, ReverseEntry(req, key, h + 1, h));
  }

  lemma RemoveKeysKeepsInv(d: Daemon, keys: set<string>)
    requires Inv(d)
    ensures Inv(RemoveKeys(d, keys))
  {
    var d' := RemoveKeys(d, keys);
    assert forall a, b :: Partners(d'.table, a, b) ==> Partners(d.table, a, b);
  }

  /** Removing sessions leaves a remaining one its hardware backing, unless it removes its partner. */
  lemma RemovalKeepsBacking(d: Daemon, keys: set<string>, key: string)
    requires Inv(d) && key in d.table && key !in keys
    requires forall p :: p in keys ==> !Partners(d.table, p, key)
    ensures Backed(RemoveKeys(d, keys), key) <==> Backed(d, key)
  {
    var h := d.table[key].handle;
    forall p | p in keys && p in d.table
      ensures h !in HandlesOf(d.table[p])
    {
    }
  }

  /** A flush removes exactly the selected sessions, and every session that stays and had hardware
      backing keeps it. */
  lemma FlushKeepsBacking(d: Daemon, c: Criteria, key: string)
    requires Inv(d)
    ensures key in Flush(d, c).table <==> key in d.table && !Selected(c, d.table[key])
    ensures key in Flush(d, c).table ==> Flush(d, c).table[key] == d.table[key]
    ensures key in Flush(d, c).table ==> (Backed(Flush(d, c), key) <==> Backed(d, key))
    ensures key in d.table && Selected(c, d.table[key]) ==> HandlesOf(d.table[key]) * Flush(d, c).hw.Keys <= d.faulty
  {
    var keys := SelectedKeys(d.table, c);
    if key in d.table && key !in keys {
      RemovalKeepsBacking(d, keys, key);
    } else if key in d.table {
      assert HandlesOf(d.table[key]) <= HandlesAt(d.table, keys);
    }
  }

  // ---------------------------------------------------------------- orphans

  /** Handles some session knows as its own or as its reverse. */
  function Known(table: Sessions): set<nat> {
    HandlesAt(table, table.Keys)
  }

  /** Hardware entries no session knows: nothing will ever remove them. */
  function Orphans(d: Daemon): set<nat> {
    d.hw.Keys - Known(d.table)
  }

  /** The keys a successful request writes. */
  function Written(req: Request): set<string> {
    if req.key.None? then {}
    else if req.bidirectional then {KeyString(req.key.value), KeyString(ReverseKey(req.key.value))}
    else {KeyString(req.key.value)}
  }

  lemma KnownSplits(table: Sessions, keys: set<string>)
    ensures Known(table) == HandlesAt(table, keys) + Known(table - keys)
  {
    forall h | h in Known(table)
      ensures h in HandlesAt(table, keys) + Known(table - keys)
    {
      var k :| k in table && h in HandlesOf(table[k]);
      if k !in keys {
        assert k in table - keys && (table - keys)[k] == table[k];
      }
    }
    forall h | h in Known(table - keys)
      ensures h in Known(table)
    {
      var k :| k in table - keys && h in HandlesOf((table - keys)[k]);
      assert k in table && table[k] == (table - keys)[k];
    }
  }

  /** Removing sessions orphans exactly their faulty handles that no remaining session knows. */
  lemma RemovalOrphansExactly(d: Daemon, keys: set<string>)
    ensures Orphans(RemoveKeys(d, keys))
         == Orphans(d) + (d.hw.Keys * d.faulty * HandlesAt(d.table, keys) - Known(d.table - keys))
  {
    KnownSplits(d.table, keys);
  }

  /** The handles a successful request takes from the hardware. */
  function NewHandles(d: Daemon, req: Request): set<nat> {
    {d.nextHandle} + if req.bidirectional then {d.nextHandle + 1} else {}
  }

  lemma ProgramTakesNewHandles(d: Daemon, req: Request)
    requires req.key.Some?
    ensures var d' := Program(d, req, true, true);
      && d'.hw.Keys == d.hw.Keys + NewHandles(d, req)
      && HandlesAt(d'.table, Written(req)) == NewHandles(d, req)
      && d'.table - Written(req) == d.table - Written(req)
  {
    var d' := Program(d, req, true, true);
    var k := KeyString(req.key.value);
    if req.bidirectional {
      var r := KeyString(ReverseKey(req.key.value));
      assert HandlesOf(d'.table[r]) == NewHandles(d, req);
      assert HandlesOf(d'.table[k]) == NewHandles(d, req);
    } else {
      assert HandlesOf(d'.table[k]) == NewHandles(d, req);
    }
  }

  /** Hardware `hw` gains `taken`; sessions knowing `over` give way to sessions knowing `taken`. */
  lemma OrphansOfReplacement(hw: set<nat>, taken: set<nat>, rest: set<nat>, over: set<nat>)
    requires taken !! hw && taken !! rest
    ensures (hw + taken) - (taken + rest) == (hw - (over + rest)) + hw * (over - rest)
  {
  }

  /** Programming orphans exactly the live handles known only to the sessions it overwrites. */
  lemma ProgramOrphansExactly(d: Daemon, req: Request)
    requires Inv(d) && req.key.Some?
    ensures var over := HandlesAt(d.table, Written(req)) - Known(d.table - Written(req));
            Orphans(Program(d, req, true, true)) == Orphans(d) + d.hw.Keys * over
  {
    var d', w := Program(d, req, true, true), Written(req);
    KnownSplits(d.table, w);
    KnownSplits(d'.table, w);
    ProgramTakesNewHandles(d, req);
    KnownIsOld(d, w);
    OrphansOfReplacement(d.hw.Keys, NewHandles(d, req), Known(d.table - w), HandlesAt(d.table, w));
  }

  lemma KnownIsOld(d: Daemon, keys: set<string>)
    requires Inv(d)
    ensures forall h :: h in Known(d.table - keys) ==> h < d.nextHandle
  {
  }

  /** The rollback of a refused reverse entry fails. */
  predicate RollbackFails(d: Daemon, req: Request, forwardOk: bool, reverseOk: bool) {
    req.key.Some? && forwardOk && req.bidirectional && !reverseOk && d.nextHandle in d.faulty
  }

  /** A refused request leaves the index alone, and it leaves the hardware alone exactly when no
      rollback fails; a failed one leaves the forward entry behind as an orphan. */
  lemma RefusedRequestLeavesNoTraceExactly(d: Daemon, req: Request, forwardOk: bool, reverseOk: bool)
    requires Inv(d) && !ProgramReply(d, req, forwardOk, reverseOk).Programmed?
    ensures Program(d, req, forwardOk, reverseOk).table == d.table
    ensures Program(d, req, forwardOk, reverseOk).hw == d.hw <==> !RollbackFails(d, req, forwardOk, reverseOk)
    ensures Orphans(Program(d, req, forwardOk, reverseOk))
         == Orphans(d) + if RollbackFails(d, req, forwardOk, reverseOk) then {d.nextHandle} else {}
  {
    assert d.nextHandle !in d.hw;
    assert d.nextHandle !in Known(d.table);
    var d' := Program(d, req, forwardOk, reverseOk);
    if RollbackFails(d, req, forwardOk, reverseOk) {
      assert d'.hw.Keys == d.hw.Keys + {d.nextHandle};
    } else {
      assert d'.hw == d.hw;
    }
  }

  /** Programming the same key twice orphans the first hardware entry. */
  lemma ReprogrammingOrphans(key: SessionKey)
    ensures var req := Request(Some(key), 1, false, 0, "", 0.0);
            Orphans(Program(Program(START, req, true, true), req, true, true)) == {1}
  {
    var req := Request(Some(key), 1, false, 0, "", 0.0);
    var d1 := Program(START, req, true, true);
    var d2 := Program(d1, req, true, true);
    ProgramTakesNewHandles(START, req);
    ProgramTakesNewHandles(d1, req);
    KnownSplits(d2.table, Written(req));
    assert d2.table - Written(req) == map[];
  }

  /** A bidirectional session is found under its key and under the reversed one: the two entries are
      each other's partners, carry the request's rule, and the hardware holds each direction under
      its own key. When both keys are one string only the reverse entry is left there, and it knows
      the forward handle as its reverse. */
  lemma ProgramIsFoundBothWays(d: Daemon, req: Request)
    requires req.key.Some? && req.bidirectional
    ensures var d' := Program(d, req, true, true);
      var k, r, h := KeyString(req.key.value), KeyString(ReverseKey(req.key.value)), d.nextHandle;
      && ProgramReply(d, req, true, true) == Programmed(h)
      && r in d'.table && d'.table[r].handle == h + 1 && d'.table[r].reverseHandle == Some(h)
      && (k != r ==> k in d'.table && d'.table[k].handle == h && d'.table[k].reverseHandle == Some(h + 1))
      && (k != r ==> Partners(d'.table, k, r) && Partners(d'.table, r, k) && d'.table[k].key == req.key.value)
      && Backed(d', k) && Backed(d', r)
      && h in d'.hw && d'.hw[h] == HwEntry(req.key.value, req.action, req.forwardPort, 0, 0)
      && h + 1 in d'.hw && d'.hw[h + 1] == HwEntry(ReverseKey(req.key.value), req.action, req.forwardPort, 0, 0)
      && d'.table[r].key == ReverseKey(req.key.value)
      && d'.table[k].ruleId == d'.table[r].ruleId == req.ruleId
      && d'.table[k].vni == d'.table[r].vni == req.key.value.vni
      && (forall x :: x != k && x != r ==> (x in d'.table <==> x in d.table))
      && (forall x :: x != k && x != r && x in d.table ==> d'.table[x] == d.table[x])
      && (forall h :: h in d.hw && h < d.nextHandle ==> h in d'.hw && d'.hw[h] == d.hw[h])
  {
    var k, r := KeyString(req.key.value), KeyString(ReverseKey(req.key.value));
    FoundBothWays(d, req, req.key.value, k, r);
  }

  lemma FoundBothWays(d: Daemon, req: Request, key: SessionKey, k: string, r: string)
    requires req.key == Some(key) && req.bidirectional && k == KeyString(key) && r == KeyString(ReverseKey(key))
    ensures var d' := Program(d, req, true, true);
      && k in d'.table && (k != r ==> d'.table[k] == ForwardEntry(req, key, d.nextHandle, Some(d.nextHandle + 1)))
      && r in d'.table && d'.table[r] == ReverseEntry(req, key, d.nextHandle + 1, d.nextHandle)
      && d.nextHandle in d'.hw && d'.hw[d.nextHandle] == HwEntry(key, req.action, req.forwardPort, 0, 0)
      && d.nextHandle + 1 in d'.hw && d'.hw[d.nextHandle + 1] == HwEntry(ReverseKey(key), req.action, req.forwardPort, 0, 0)
      && d'.table.Keys == d.table.Keys + {k, r}
  {
  }
}
