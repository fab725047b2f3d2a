/** The offload daemon's objects: the session table, the mock hardware, and the service over both;
    and what holds over every run of the service and its aging loop. */
module DaemonService {
  import opened Prelude
  import opened SessionKeys
  import opened OffloadDaemon

  type HandlePair = (nat, Option<nat>)

  function PairHandles(p: HandlePair): set<nat> {
    {p.0} + if p.1.Some? then {p.1.value} else {}
  }

  function ListedHandles(pairs: seq<HandlePair>): set<nat> {
    if pairs == [] then {}
    else ListedHandles(pairs[..|pairs| - 1]) + PairHandles(pairs[|pairs| - 1])
  }

  lemma HandlesAtGrows(table: Sessions, keys: set<string>, k: string)
    requires k in table
    ensures HandlesAt(table, keys + {k}) == HandlesAt(table, keys) + HandlesOf(table[k])
  {
  }

  class SessionTable {
    var sessions: Sessions

    constructor ()
      ensures sessions == map[]
    {
      sessions := map[];
    }

    method Insert(key: SessionKey, entry: Entry)
      modifies this
      ensures sessions == old(sessions)[KeyString(key) := entry]
    {
      sessions := sessions[KeyString(key) := entry];
    }

    method RemoveByKeyString(k: string) returns (r: Option<Entry>)
      modifies this
      ensures sessions == old(sessions) - {k}
      ensures r == if k in old(sessions) then Some(old(sessions)[k]) else None
    {
      if k !in sessions {
        return None;
      }
      r := Some(sessions[k]);
      sessions := sessions - {k};
    }

    method MatchingKeys(c: Criteria) returns (keys: seq<string>)
      ensures Distinct(keys) && Members(keys) == SelectedKeys(sessions, c)
    {
      var all := Elements(sessions.Keys);
      keys := [];
      for i := 0 to |all|
        invariant Distinct(keys)
        invariant forall k :: k in keys <==> k in all[..i] && Selected(c, sessions[k])
      {
        assert all[..i + 1] == all[..i] + [all[i]];
        assert all[i] !in all[..i];
        if Selected(c, sessions[all[i]]) {
          keys := keys + [all[i]];
        }
      }
      assert all[..|all|] == all;
    }

    /** The three flushes, by rule, by network and of everything, differ only in the criterion. */
    method FlushMatching(c: Criteria) returns (count: nat, handles: seq<HandlePair>)
      modifies this
      ensures sessions == old(sessions) - SelectedKeys(old(sessions), c)
      ensures count == |SelectedKeys(old(sessions), c)|
      ensures ListedHandles(handles) == HandlesAt(old(sessions), SelectedKeys(old(sessions), c))
    {
      ghost var gone: set<string> := {};
      var keys := MatchingKeys(c);
      handles := [];
      NothingRemoved(sessions);
      for i := 0 to |keys|
        invariant gone <= SelectedKeys(old(sessions), c) && |gone| == i == |handles|
        invariant forall j :: i <= j < |keys| ==> keys[j] !in gone
        invariant sessions == old(sessions) - gone
        invariant ListedHandles(handles) == HandlesAt(old(sessions), gone)
      {
        assert keys[i] in Members(keys);
        OneMoreRemoved(old(sessions), gone, keys[i], handles);
        var entry := RemoveByKeyString(keys[i]);
        handles := handles + [(entry.value.handle, entry.value.reverseHandle)];
        gone := gone + {keys[i]};
      }
      DistinctSize(keys);
      SubsetOfFullSize(gone, SelectedKeys(old(sessions), c));
      count := |handles|;
    }
  }

  lemma NothingRemoved(table: Sessions)
    ensures table - {} == table && HandlesAt(table, {}) == {}
  {
  }

  /** Removing one more session, and listing its handles. */
  lemma OneMoreRemoved(table: Sessions, gone: set<string>, k: string, handles: seq<HandlePair>)
    requires k in table && k !in gone && ListedHandles(handles) == HandlesAt(table, gone)
    ensures k in table - gone && (table - gone)[k] == table[k]
    ensures table - gone - {k} == table - (gone + {k})
    ensures ListedHandles(handles + [(table[k].handle, table[k].reverseHandle)]) == HandlesAt(table, gone + {k})
  {
    HandlesAtGrows(table, gone, k);
    var longer := handles + [(table[k].handle, table[k].reverseHandle)];
    assert longer[..|longer| - 1] == handles;
  }

  class DocaFlowManager {
    var nextHandle: nat
    var entries: Hardware
    var faulty: set<nat>

    constructor ()
      ensures nextHandle == 1 && entries == map[] && faulty == {}
    {
      nextHandle := 1;
      entries := map[];
      faulty := {};
    }

    /** The handle is drawn before the hardware can refuse, so a refusal uses one up too. */
    method ProgramSession(key: SessionKey, action: int, forwardPort: nat, accepted: bool) returns (r: Option<nat>)
      modifies this`nextHandle, this`entries
      ensures nextHandle == old(nextHandle) + 1
      ensures r == if accepted then Some(old(nextHandle)) else None
      ensures entries == if accepted then old(entries)[old(nextHandle) := HwEntry(key, action, forwardPort, 0, 0)]
                         else old(entries)
    {
      var handle := nextHandle;
      nextHandle := nextHandle + 1;
      if !accepted {
        return None;
      }
      entries := entries[handle := HwEntry(key, action, forwardPort, 0, 0)];
      return Some(handle);
    }

    /** False when the hardware fails or does not know the handle. */
    method RemoveSession(handle: nat) returns (removed: bool)
      modifies this`entries
      ensures removed == (handle in old(entries) && handle !in faulty)
      ensures entries == old(entries) - ({handle} - faulty)
    {
      if handle in faulty {
        return false;
      }
      removed := handle in entries;
      entries := entries - {handle};
    }

    method RemoveListed(handles: seq<HandlePair>)
      modifies this`entries
      ensures entries == old(entries) - (ListedHandles(handles) - faulty)
    {
      for i := 0 to |handles|
        invariant entries == old(entries) - (ListedHandles(handles[..i]) - faulty)
      {
        var (handle, reverse) := handles[i];
        var _ := RemoveSession(handle);
        if reverse.Some? {
          var _ := RemoveSession(reverse.value);
        }
        assert handles[..i + 1][..i] == handles[..i];
      }
      assert handles[..|handles|] == handles;
    }

    method QuerySession(handle: nat) returns (r: Option<(nat, nat)>)
      modifies this`entries
      ensures handle in old(entries) && handle !in faulty ==>
        var e := old(entries)[handle];
        && r == Some((e.packets + 10, e.bytes + 15000))
        && entries == old(entries)[handle := e.(packets := e.packets + 10, bytes := e.bytes + 15000)]
      ensures handle !in old(entries) || handle in faulty ==> r == None && entries == old(entries)
    {
      if handle in faulty || handle !in entries {
        return None;
      }
      var e := entries[handle];
      entries := entries[handle := e.(packets := e.packets + 10, bytes := e.bytes + 15000)];
      return Some((e.packets + 10, e.bytes + 15000));
    }

    method QueryCounters(handle: nat) returns (r: Option<(nat, nat)>)
      ensures r == if handle in entries && handle !in faulty then Some((entries[handle].packets, entries[handle].bytes))
                   else None
    {
      if handle in faulty || handle !in entries {
        return None;
      }
      return Some((entries[handle].packets, entries[handle].bytes));
    }
  }

  /** Which keys a flush leaves, criterion by criterion, and how many go. */
  lemma FlushPins(d: Daemon, c: Criteria)
    ensures var t := Flush(d, c).table;
      && (forall v, key :: c == ByVni(v) ==> (key in t <==> key in d.table && d.table[key].vni != v))
      && (forall id, key :: c == ByRule(id) ==> (key in t <==> key in d.table && d.table[key].ruleId != id))
      && (c == All(true) ==> t == map[]) && (c == All(false) ==> t == d.table)
      && (forall key :: key in t ==> key in d.table && t[key] == d.table[key])
      && |SelectedKeys(d.table, c)| == |d.table.Keys - t.Keys|
  {
    assert d.table.Keys - Flush(d, c).table.Keys == SelectedKeys(d.table, c);
  }

  class OffloadService {
    const table: SessionTable
    const doca: DocaFlowManager

    ghost function View(): Daemon
      reads table, doca
    {
      Daemon(table.sessions, doca.entries, doca.nextHandle, doca.faulty)
    }

    constructor ()
      ensures fresh(table) && fresh(doca) && View() == START
    {
      table := new SessionTable();
      doca := new DocaFlowManager();
    }

    method ProgramSession(req: Request, forwardOk: bool, reverseOk: bool) returns (r: ProgramResult)
      modifies table, doca
      ensures View() == Program(old(View()), req, forwardOk, reverseOk)
      ensures r == ProgramReply(old(View()), req, forwardOk, reverseOk)
      ensures r == InvalidArgument <==> req.key == None
      ensures r.Programmed? <==> req.key != None && forwardOk && (req.bidirectional ==> reverseOk)
      ensures !r.Programmed? ==> table.sessions == old(table.sessions)
      ensures r.Programmed? ==> r.handle == old(doca.nextHandle)
    {
      if req.key.None? {
        return InvalidArgument;
      }
      var key := req.key.value;
      var forward := doca.ProgramSession(key, req.action, req.forwardPort, forwardOk);
      if forward.None? {
        return ProgramFailed;
      }
      var reverse: Option<nat> := None;
      if req.bidirectional {
        reverse := doca.ProgramSession(ReverseKey(key), req.action, req.forwardPort, reverseOk);
        if reverse.None? {
          var _ := doca.RemoveSession(forward.value);
          return ProgramFailed;
        }
      }
      table.Insert(key, Entry(forward.value, key.vni, key, req.action, req.bidirectional, reverse, req.ruleId, req.at));
      if reverse.Some? {
        var revKey := ReverseKey(key);
        table.Insert(revKey, Entry(reverse.value, key.vni, revKey, req.action, true, forward, req.ruleId, req.at));
      }
      return Programmed(forward.value);
    }

    /** None when the request names no criterion. */
    method FlushSessions(criteria: Option<Criteria>) returns (flushed: Option<nat>)
      modifies table, doca
      ensures criteria.None? ==> flushed == None && View() == old(View())
      ensures criteria.Some? ==> View() == Flush(old(View()), criteria.value)
      ensures criteria.Some? ==> flushed == Some(|SelectedKeys(old(table.sessions), criteria.value)|)
      ensures forall v, key :: criteria == Some(ByVni(v)) ==>
                (key in table.sessions <==> key in old(table.sessions) && old(table.sessions)[key].vni != v)
      ensures forall id, key :: criteria == Some(ByRule(id)) ==>
                (key in table.sessions <==> key in old(table.sessions) && old(table.sessions)[key].ruleId != id)
      ensures criteria == Some(All(true)) ==> table.sessions == map[]
      ensures criteria == Some(All(false)) ==> table.sessions == old(table.sessions)
      ensures forall key :: key in table.sessions ==> key in old(table.sessions) && table.sessions[key] == old(table.sessions)[key]
      ensures flushed.Some? ==> flushed.value == |old(table.sessions).Keys - table.sessions.Keys|
    {
      if criteria.None? {
        return None;
      }
      FlushPins(View(), criteria.value);
      if criteria.value == All(false) {
        assert SelectedKeys(table.sessions, criteria.value) == {};
        assert HandlesAt(table.sessions, {}) == {};
        assert Flush(View(), criteria.value).table == table.sessions;
        assert Flush(View(), criteria.value).hw == doca.entries;
        return Some(0);
      }
      var count, handles := table.FlushMatching(criteria.value);
      doca.RemoveListed(handles);
      return Some(count);
    }

    /** None when the request names no key. */
    method QuerySession(key: Option<SessionKey>, now: real) returns (r: Option<QueryResult>)
      modifies doca`entries
      ensures key.None? ==> r == None && View() == old(View())
      ensures key.Some? ==> View() == Query(old(View()), KeyString(key.value))
      ensures key.Some? ==> r == Some(QueryReply(old(View()), KeyString(key.value), now))
      ensures table.sessions == old(table.sessions)
      ensures key.Some? && KeyString(key.value) !in table.sessions ==> r == Some(QueryResult(false, 0, 0, 0, false))
      ensures key.Some? && KeyString(key.value) in table.sessions ==>
        var entry := table.sessions[KeyString(key.value)];
        && r.Some? && r.value.found && r.value.offloaded
        && (now >= entry.createdAt ==> r.value.ageSeconds as real <= now - entry.createdAt < r.value.ageSeconds as real + 1.0)
        && (now < entry.createdAt ==> r.value.ageSeconds == 0)
        && (if entry.handle in old(doca.entries) && entry.handle !in doca.faulty
            then r.value.packets == old(doca.entries)[entry.handle].packets + 10
                 && r.value.bytes == old(doca.entries)[entry.handle].bytes + 15000
            else r.value.packets == 0 && r.value.bytes == 0)
    {
      if key.None? {
        return None;
      }
      var k := KeyString(key.value);
      if k !in table.sessions {
        return Some(QueryResult(false, 0, 0, 0, false));
      }
      var entry := table.sessions[k];
      var counters := doca.QuerySession(entry.handle);
      var age := WholeSeconds(entry.createdAt, now);
      if counters.None? {
        return Some(QueryResult(true, 0, 0, age, true));
      }
      return Some(QueryResult(true, counters.value.0, counters.value.1, age, true));
    }
  }

  // ---------------------------------------------------------------- runs

  /** `EvictEvent` is one sweep of the aging loop, which removes some set of sessions; `FaultEvent`
      is the hardware beginning or ceasing to fail. */
  datatype Event =
    | ProgramEvent(req: Request, forwardOk: bool, reverseOk: bool)
    | FlushEvent(criteria: Criteria)
    | QueryEvent(key: string)
    | EvictEvent(keys: set<string>)
    | FaultEvent(faulty: set<nat>)

  function Next(d: Daemon, e: Event): Daemon {
    match e
    case ProgramEvent(req, forwardOk, reverseOk) => Program(d, req, forwardOk, reverseOk)
    case FlushEvent(criteria) => Flush(d, criteria)
    case QueryEvent(key) => Query(d, key)
    case EvictEvent(keys) => RemoveKeys(d, keys)
    case FaultEvent(faulty) => d.(faulty := faulty)
  }

  ghost predicate IsRun(states: seq<Daemon>, events: seq<Event>) {
    && |states| == |events| + 1
    && states[0] == START
    && forall i :: 0 <= i < |events| ==> states[i + 1] == Next(states[i], events[i])
  }

  lemma {:induction false} RunKeepsInv(states: seq<Daemon>, events: seq<Event>, i: nat)
    requires IsRun(states, events) && i < |states|
    ensures Inv(states[i])
  {
    if i > 0 {
      RunKeepsInv(states, events, i - 1);
      assert states[i] == Next(states[i - 1], events[i - 1]);
      match events[i - 1]
      case ProgramEvent(req, f, r) => ProgramKeepsInv(states[i - 1], req, f, r);
      case FlushEvent(c) => RemoveKeysKeepsInv(states[i - 1], SelectedKeys(states[i - 1].table, c));
      case QueryEvent(_) =>
      case EvictEvent(keys) => RemoveKeysKeepsInv(states[i - 1], keys);
      case FaultEvent(_) =>
    }
  }

  /** In every run a flush by network takes exactly the sessions of that network, a flush by rule exactly
      those of that rule, a flush of everything all and a flush of nothing none. */
  lemma FlushesTakeExactly(states: seq<Daemon>, events: seq<Event>, i: nat, key: string)
    requires IsRun(states, events) && i < |events| && events[i].FlushEvent? && key in states[i].table
    ensures key in states[i + 1].table <==>
      match events[i].criteria
      case ByVni(v) => states[i].table[key].vni != v
      case ByRule(id) => states[i].table[key].ruleId != id
      case All(all) => !all
    ensures key in states[i + 1].table ==> states[i + 1].table[key] == states[i].table[key]
  {
    FlushPins(states[i], events[i].criteria);
    assert states[i + 1] == Next(states[i], events[i]);
  }

  /** In every run, a flush leaves every surviving session as well backed as it was. */
  lemma FlushesNeverUnback(states: seq<Daemon>, events: seq<Event>, i: nat, key: string)
    requires IsRun(states, events) && i < |events| && events[i].FlushEvent?
    ensures key in states[i + 1].table <==>
              key in states[i].table && !Selected(events[i].criteria, states[i].table[key])
    ensures key in states[i + 1].table ==> (Backed(states[i + 1], key) <==> Backed(states[i], key))
  {
    RunKeepsInv(states, events, i);
    FlushKeepsBacking(states[i], events[i].criteria, key);
    assert states[i + 1] == Next(states[i], events[i]);
  }

  // ---------------------------------------------------------------- orphans over a run

  /** The removal meets no failing handle that only the removed sessions know. */
  ghost predicate RemovesClean(d: Daemon, keys: set<string>) {
    forall h :: h in d.hw && h in d.faulty && h in HandlesAt(d.table, keys) ==> h in Known(d.table - keys)
  }

  /** The event loses no hardware entry: no successful request overwrites a session that alone knows
      a live handle, no rollback fails, and no removal fails on such a handle. */
  ghost predicate Clean(d: Daemon, e: Event) {
    match e
    case ProgramEvent(req, forwardOk, reverseOk) =>
      if ProgramReply(d, req, forwardOk, reverseOk).Programmed?
      then forall h :: h in d.hw && h in HandlesAt(d.table, Written(req)) ==> h in Known(d.table - Written(req))
      else !RollbackFails(d, req, forwardOk, reverseOk)
    case FlushEvent(criteria) => RemovesClean(d, SelectedKeys(d.table, criteria))
    case EvictEvent(keys) => RemovesClean(d, keys)
    case _ => true
  }

  lemma SuccessIsFull(d: Daemon, req: Request, forwardOk: bool, reverseOk: bool)
    requires ProgramReply(d, req, forwardOk, reverseOk).Programmed?
    ensures Program(d, req, forwardOk, reverseOk) == Program(d, req, true, true)
  {
  }

  /** A step keeps the hardware free of orphans exactly when it is clean. */
  lemma StaysOrphanFreeExactly(d: Daemon, e: Event)
    requires Inv(d) && Orphans(d) == {}
    ensures Orphans(Next(d, e)) == {} <==> Clean(d, e)
  {
    match e
    case ProgramEvent(req, f, r) =>
      if ProgramReply(d, req, f, r).Programmed? {
        ProgramOrphansExactly(d, req);
        SuccessIsFull(d, req, f, r);
        EmptyDifference(d.hw.Keys, HandlesAt(d.table, Written(req)), Known(d.table - Written(req)));
      } else {
        RefusedRequestLeavesNoTraceExactly(d, req, f, r);
      }
    case FlushEvent(c) =>
      RemovalOrphansExactly(d, SelectedKeys(d.table, c));
      EmptyDifference(d.hw.Keys * d.faulty, HandlesAt(d.table, SelectedKeys(d.table, c)), Known(d.table - SelectedKeys(d.table, c)));
    case EvictEvent(keys) =>
      RemovalOrphansExactly(d, keys);
      EmptyDifference(d.hw.Keys * d.faulty, HandlesAt(d.table, keys), Known(d.table - keys));
    case QueryEvent(key) => assert Query(d, key).hw.Keys == d.hw.Keys;
    case FaultEvent(_) =>
  }

  lemma EmptyDifference(a: set<nat>, b: set<nat>, c: set<nat>)
    ensures a * (b - c) == {} <==> forall h :: h in a && h in b ==> h in c
    ensures a * b - c == {} <==> forall h :: h in a && h in b ==> h in c
  {
    if a * b - c == {} {
      forall h | h in a && h in b
        ensures h in c
      {
        assert h !in a * b - c;
      }
    }
    if a * (b - c) == {} {
      forall h | h in a && h in b
        ensures h in c
      {
        assert h !in a * (b - c);
      }
    }
  }

  ghost predicate CleanUpTo(states: seq<Daemon>, events: seq<Event>, i: nat)
    requires |states| == |events| + 1 && i <= |events|
  {
    forall j :: 0 <= j < i ==> Clean(states[j], events[j])
  }

  /** The hardware never holds a handle that no session knows, up to a point of a run, exactly when
      every step before it is clean. */
  lemma {:induction false} HardwareHoldsNoOrphansExactly(states: seq<Daemon>, events: seq<Event>, i: nat)
    requires IsRun(states, events) && i < |states|
    ensures (forall j :: 0 <= j <= i ==> states[j].hw.Keys <= Known(states[j].table)) <==> CleanUpTo(states, events, i)
  {
    forall d: Daemon
      ensures d.hw.Keys <= Known(d.table) <==> Orphans(d) == {}
    {
      SubsetIsNoDifference(d.hw.Keys, Known(d.table));
    }
    if i > 0 {
      HardwareHoldsNoOrphansExactly(states, events, i - 1);
      RunKeepsInv(states, events, i - 1);
      assert states[i] == Next(states[i - 1], events[i - 1]);
      if CleanUpTo(states, events, i - 1) {
        StaysOrphanFreeExactly(states[i - 1], events[i - 1]);
      }
    }
  }

  lemma SubsetIsNoDifference(a: set<nat>, b: set<nat>)
    ensures a <= b <==> a - b == {}
  {
    if a - b == {} {
      forall h | h in a
        ensures h in b
      {
        assert h !in a - b;
      }
    }
  }

  /** With working hardware it is enough that only absent keys are programmed. */
  lemma FreshKeysAreClean(d: Daemon, e: Event)
    requires d.faulty == {}
    requires e.ProgramEvent? ==> Written(e.req) !! d.table.Keys
    ensures Clean(d, e)
  {
  }

  /** In every run that programs only absent keys, on hardware that does not fail, the hardware holds no
      handle that no session knows. */
  lemma FreshKeysLeaveNoOrphans(states: seq<Daemon>, events: seq<Event>, i: nat)
    requires IsRun(states, events) && i < |states|
    requires forall j :: 0 <= j < i ==> states[j].faulty == {}
    requires forall j :: 0 <= j < i && events[j].ProgramEvent? ==> Written(events[j].req) !! states[j].table.Keys
    ensures states[i].hw.Keys <= Known(states[i].table)
  {
    forall j | 0 <= j < i
      ensures Clean(states[j], events[j])
    {
      FreshKeysAreClean(states[j], events[j]);
    }
    HardwareHoldsNoOrphansExactly(states, events, i);
  }

  /** A refused reverse entry whose rollback fails leaves handle 1 in the hardware without a
      session. */
  lemma FailedRollbackOrphans(key: SessionKey)
    ensures var req := Request(Some(key), 1, true, 0, "", 0.0);
      var d := START.(faulty := {1});
      && ProgramReply(d, req, true, false) == ProgramFailed
      && Program(d, req, true, false).table == map[]
      && Orphans(Program(d, req, true, false)) == {1}
  {
    var req := Request(Some(key), 1, true, 0, "", 0.0);
    RefusedRequestLeavesNoTraceExactly(START.(faulty := {1}), req, true, false);
  }

  /** Once an orphan, always an orphan: no request, flush or sweep takes it out of the hardware. */
  lemma OrphansStay(d: Daemon, e: Event, h: nat)
    requires Inv(d) && h in Orphans(d)
    ensures h in Orphans(Next(d, e))
  {
    match e
    case ProgramEvent(req, f, r) =>
      if ProgramReply(d, req, f, r).Programmed? {
        ProgramOrphansExactly(d, req);
        SuccessIsFull(d, req, f, r);
      } else {
        RefusedRequestLeavesNoTraceExactly(d, req, f, r);
      }
    case FlushEvent(c) => RemovalOrphansExactly(d, SelectedKeys(d.table, c));
    case EvictEvent(keys) => RemovalOrphansExactly(d, keys);
    case QueryEvent(key) => assert Query(d, key).hw.Keys == d.hw.Keys;
    case FaultEvent(_) =>
  }
}
