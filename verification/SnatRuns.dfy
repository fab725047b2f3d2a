/** Whole runs of the SNAT port allocator: conservation of ports, and the fairness of the
    round-robin cursor. */
module SnatRuns {
  import opened Prelude
  import opened SnatPool

  datatype Event =
    | AllocateEvent(ip: string, flow: Flow, now: real, timeout: real)
    | ReleaseEvent(ip: string, port: int)
    | ExpireEvent(now: real)

  function Next(size: int, pools: Pools, e: Event): Pools {
    match e
    case AllocateEvent(ip, flow, now, timeout) => Allocate(size, pools, ip, flow, now, timeout)
    case ReleaseEvent(ip, port) => Release(pools, ip, port)
    case ExpireEvent(now) => ReleaseExpired(pools, now)
  }

  ghost predicate IsRun(size: int, states: seq<Pools>, events: seq<Event>) {
    && |states| == |events| + 1
    && states[0] == map[]
    && forall i :: 0 <= i < |events| ==> states[i + 1] == Next(size, states[i], events[i])
  }

  lemma {:induction false} RunIsWellFormed(size: int, states: seq<Pools>, events: seq<Event>, i: nat)
    requires IsRun(size, states, events) && i < |states|
    ensures AllWellFormed(size, states[i])
  {
    if i > 0 {
      RunIsWellFormed(size, states, events, i - 1);
      match events[i - 1]
      case AllocateEvent(ip, flow, now, timeout) => AllocateKeepsWellFormed(size, states[i - 1], ip, flow, now, timeout);
      case ReleaseEvent(ip, port) => ReleaseKeepsWellFormed(size, states[i - 1], ip, port);
      case ExpireEvent(now) => ReleaseExpiredKeepsWellFormed(size, states[i - 1], now);
    }
  }

  // ---------------------------------------------------------------- conservation

  ghost function InUse(pools: Pools): set<(string, int)> {
    set ip, port | ip in pools && port in pools[ip].used :: (ip, port)
  }

  ghost function HandedOut(size: int, pools: Pools, e: Event): nat {
    if e.AllocateEvent? && Grant(size, pools, e.ip).Some? then 1 else 0
  }

  ghost function GivenBack(pools: Pools, e: Event): nat {
    match e
    case AllocateEvent(_, _, _, _) => 0
    case ReleaseEvent(ip, port) => if IsAllocated(pools, ip, port) then 1 else 0
    case ExpireEvent(now) => |ExpiredPairs(pools, now)|
  }

  /** Ports handed out by the first `i` events. */
  ghost function TotalHandedOut(size: int, states: seq<Pools>, events: seq<Event>, i: nat): nat
    requires i <= |events| && |states| == |events| + 1
  {
    if i == 0 then 0 else TotalHandedOut(size, states, events, i - 1) + HandedOut(size, states[i - 1], events[i - 1])
  }

  /** Ports released or expired by the first `i` events. */
  ghost function TotalGivenBack(states: seq<Pools>, events: seq<Event>, i: nat): nat
    requires i <= |events| && |states| == |events| + 1
  {
    if i == 0 then 0 else TotalGivenBack(states, events, i - 1) + GivenBack(states[i - 1], events[i - 1])
  }

  /** Replacing one pool changes the ports in use by what it changes there. */
  lemma InUseAfterUpdate(pools: Pools, ip: string, pool: Pool, port: int)
    requires pool.used == PoolOf(pools, ip).used + {port} && port !in PoolOf(pools, ip).used
    ensures |InUse(pools[ip := pool])| == |InUse(pools)| + 1
  {
    assert (ip, port) !in InUse(pools);
    assert InUse(pools[ip := pool]) == InUse(pools) + {(ip, port)};
  }

  lemma InUseSame(pools: Pools, ip: string)
    ensures InUse(pools[ip := PoolOf(pools, ip)]) == InUse(pools)
  {
  }

  lemma AllocateConserves(size: int, pools: Pools, ip: string, flow: Flow, now: real, timeout: real)
    requires AllWellFormed(size, pools)
    ensures |InUse(Allocate(size, pools, ip, flow, now, timeout))|
         == |InUse(pools)| + if Grant(size, pools, ip).Some? then 1 else 0
  {
    GrantIsFirstFree(size, pools, ip);
    if Grant(size, pools, ip).None? {
      InUseSame(pools, ip);
    } else {
      var port := Grant(size, pools, ip).value;
      InUseAfterUpdate(pools, ip, Allocate(size, pools, ip, flow, now, timeout)[ip], port);
    }
  }

  lemma ReleaseConserves(pools: Pools, ip: string, port: int)
    requires IsAllocated(pools, ip, port)
    ensures |InUse(Release(pools, ip, port))| == |InUse(pools)| - 1
  {
    assert (ip, port) in InUse(pools);
    assert InUse(Release(pools, ip, port)) == InUse(pools) - {(ip, port)};
  }

  lemma ExpireConserves(size: int, pools: Pools, now: real)
    requires AllWellFormed(size, pools)
    ensures |InUse(ReleaseExpired(pools, now))| == |InUse(pools)| - |ExpiredPairs(pools, now)|
  {
    forall ip, port | (ip, port) in ExpiredPairs(pools, now)
      ensures (ip, port) in InUse(pools)
    {
      assert WellFormed(size, pools[ip]);
    }
    assert InUse(ReleaseExpired(pools, now)) == InUse(pools) - ExpiredPairs(pools, now);
  }

  lemma StepConserves(size: int, pools: Pools, e: Event)
    requires AllWellFormed(size, pools)
    ensures |InUse(Next(size, pools, e))| == |InUse(pools)| + HandedOut(size, pools, e) - GivenBack(pools, e)
  {
    match e
    case AllocateEvent(ip, flow, now, timeout) => AllocateConserves(size, pools, ip, flow, now, timeout);
    case ReleaseEvent(ip, port) =>
      if IsAllocated(pools, ip, port) {
        ReleaseConserves(pools, ip, port);
      }
    case ExpireEvent(now) => ExpireConserves(size, pools, now);
  }

  lemma NothingInUse()
    ensures InUse(map[]) == {}
  {
  }

  /** In every run, ports in use are the ports handed out minus those released or expired. */
  lemma {:induction false} PortsAreConserved(size: int, states: seq<Pools>, events: seq<Event>, i: nat)
    requires IsRun(size, states, events) && i < |states|
    ensures |InUse(states[i])| == TotalHandedOut(size, states, events, i) - TotalGivenBack(states, events, i)
  {
    if i == 0 {
      NothingInUse();
    } else {
      PortsAreConserved(size, states, events, i - 1);
      ConservedOneMore(size, states, events, i - 1);
    }
  }

  lemma ConservedOneMore(size: int, states: seq<Pools>, events: seq<Event>, i: nat)
    requires IsRun(size, states, events) && i < |events|
    requires |InUse(states[i])| == TotalHandedOut(size, states, events, i) - TotalGivenBack(states, events, i)
    ensures |InUse(states[i + 1])| == TotalHandedOut(size, states, events, i + 1) - TotalGivenBack(states, events, i + 1)
  {
    RunIsWellFormed(size, states, events, i);
    StepConserves(size, states[i], events[i]);
  }

  // ---------------------------------------------------------------- fairness

  /** Event `k` hands out `port` on `ip`. */
  ghost predicate Grants(size: int, states: seq<Pools>, events: seq<Event>, k: nat, ip: string, port: int)
    requires k < |events| && |states| == |events| + 1
  {
    events[k].AllocateEvent? && events[k].ip == ip && Grant(size, states[k], ip) == Some(port)
  }

  /** The search of event `k` on `ip` came across `q`: it handed `q` out, or it found `q` in use
      on its way from the cursor to the port it handed out. */
  ghost predicate Visits(size: int, states: seq<Pools>, events: seq<Event>, k: nat, ip: string, q: int)
    requires k < |events| && |states| == |events| + 1
  {
    && events[k].AllocateEvent? && events[k].ip == ip
    && match Grant(size, states[k], ip)
       case None => false
       case Some(port) =>
         || q == port
         || (q in PoolOf(states[k], ip).used
             && Ahead(size, PoolOf(states[k], ip).next, q) < Ahead(size, PoolOf(states[k], ip).next, port))
  }

  ghost predicate VisitedBetween(
    size: int, states: seq<Pools>, events: seq<Event>, i: nat, j: nat, ip: string, q: int)
    requires i <= j <= |events| && |states| == |events| + 1
  {
    exists k :: i <= k < j && Visits(size, states, events, k, ip, q)
  }

  /** Since state `i`, when the cursor stood just after `port`, every pool port the cursor has
      passed was visited; and all of them, if the cursor came round. */
  ghost predicate Swept(size: int, states: seq<Pools>, events: seq<Event>, i: nat, j: nat, ip: string, port: int)
    requires i <= j <= |events| && |states| == |events| + 1
  {
    || (forall q :: InPool(size, q) ==> VisitedBetween(size, states, events, i, j, ip, q))
    || (forall q :: InPool(size, q)
                    && Ahead(size, After(size, port), q) < Ahead(size, After(size, port), PoolOf(states[j], ip).next)
                    ==> VisitedBetween(size, states, events, i, j, ip, q))
  }

  lemma VisitedGrows(size: int, states: seq<Pools>, events: seq<Event>, i: nat, j: nat, ip: string)
    requires i <= j < |events| && |states| == |events| + 1
    ensures forall q :: VisitedBetween(size, states, events, i, j, ip, q) ==>
              VisitedBetween(size, states, events, i, j + 1, ip, q)
    ensures forall q :: Visits(size, states, events, j, ip, q) ==>
              VisitedBetween(size, states, events, i, j + 1, ip, q)
  {
  }

  /** A search visits every pool port from the cursor up to the port it hands out. */
  lemma SearchVisitsPrefix(
    size: int, states: seq<Pools>, events: seq<Event>, k: nat, ip: string, port: int, q: int)
    requires IsRun(size, states, events) && k < |events|
    requires Grants(size, states, events, k, ip, port) && InPool(size, q)
    requires var next := PoolOf(states[k], ip).next; Ahead(size, next, q) <= Ahead(size, next, port)
    ensures Visits(size, states, events, k, ip, q)
  {
    RunIsWellFormed(size, states, events, k);
    GrantIsFirstFree(size, states[k], ip);
  }

  /** The cursor of `ip` moves only when a port is handed out on it. */
  lemma CursorStays(size: int, pools: Pools, e: Event, ip: string)
    requires !(e.AllocateEvent? && e.ip == ip && Grant(size, pools, ip).Some?)
    ensures PoolOf(Next(size, pools, e), ip).next == PoolOf(pools, ip).next
  {
  }

  lemma SweepStep(size: int, states: seq<Pools>, events: seq<Event>, i: nat, j: nat, ip: string, port: int)
    requires IsRun(size, states, events) && i <= j < |events| && InPool(size, port)
    requires Swept(size, states, events, i, j, ip, port)
    ensures Swept(size, states, events, i, j + 1, ip, port)
  {
    var e := events[j];
    VisitedGrows(size, states, events, i, j, ip);
    if e.AllocateEvent? && e.ip == ip && Grant(size, states[j], ip).Some? {
      SweepGrant(size, states, events, i, j, ip, port, Grant(size, states[j], ip).value);
    } else {
      CursorStays(size, states[j], e, ip);
    }
  }

  lemma SweepGrant(
    size: int, states: seq<Pools>, events: seq<Event>, i: nat, j: nat, ip: string, port: int, granted: int)
    requires IsRun(size, states, events) && i <= j < |events| && InPool(size, port)
    requires Swept(size, states, events, i, j, ip, port)
    requires Grants(size, states, events, j, ip, granted)
    ensures Swept(size, states, events, i, j + 1, ip, port)
  {
    var origin, next := After(size, port), PoolOf(states[j], ip).next;
    VisitedGrows(size, states, events, i, j, ip);
    RunIsWellFormed(size, states, events, j);
    GrantIsFirstFree(size, states[j], ip);
    forall q | InPool(size, q) && Ahead(size, next, q) <= Ahead(size, next, granted)
      ensures VisitedBetween(size, states, events, i, j + 1, ip, q)
    {
      SearchVisitsPrefix(size, states, events, j, ip, granted, q);
    }
    assert PoolOf(states[j + 1], ip).next == After(size, granted);
  }

  lemma {:induction false} SweepRun(size: int, states: seq<Pools>, events: seq<Event>, i: nat, j: nat, ip: string, port: int)
    requires IsRun(size, states, events) && i <= j <= |events| && InPool(size, port)
    requires PoolOf(states[i], ip).next == After(size, port)
    ensures Swept(size, states, events, i, j, ip, port)
    decreases j
  {
    if i < j {
      SweepRun(size, states, events, i, j - 1, ip, port);
      SweepStep(size, states, events, i, j - 1, ip, port);
    }
  }

  /** Between two hand-outs of one port, whatever is released or expires meanwhile, the search
      comes across every port of the pool: each was handed out or found in use. */
  lemma EveryPortVisitedBetweenReuse(
    size: int, states: seq<Pools>, events: seq<Event>, i: nat, j: nat, ip: string, port: int, q: int)
    requires IsRun(size, states, events) && i < j < |events|
    requires Grants(size, states, events, i, ip, port) && Grants(size, states, events, j, ip, port)
    requires InPool(size, q)
    ensures VisitedBetween(size, states, events, i + 1, j + 1, ip, q)
  {
    RunIsWellFormed(size, states, events, i);
    GrantIsFirstFree(size, states[i], ip);
    SweepRun(size, states, events, i + 1, j, ip, port);
    VisitedGrows(size, states, events, i + 1, j, ip);
    RunIsWellFormed(size, states, events, j);
    GrantIsFirstFree(size, states[j], ip);
    var next := PoolOf(states[j], ip).next;
    if Ahead(size, next, q) <= Ahead(size, next, port) {
      SearchVisitsPrefix(size, states, events, j, ip, port, q);
    }
  }

  // ---------------------------------------------------------------- how long a port is held

  /** Between events `i` and `j` nothing releases the port, and no expiry pass comes late enough. */
  ghost predicate Undisturbed(events: seq<Event>, i: nat, j: nat, ip: string, port: int, since: real, timeout: real)
    requires i <= j <= |events|
  {
    forall k :: i <= k < j ==>
      && events[k] != ReleaseEvent(ip, port)
      && (events[k].ExpireEvent? ==> events[k].now - since < timeout)
  }

  ghost predicate HeldSince(pools: Pools, ip: string, port: int, a: Allocation) {
    IsAllocated(pools, ip, port) && port in pools[ip].allocations && pools[ip].allocations[port] == a
  }

  lemma StepHolds(size: int, pools: Pools, e: Event, ip: string, port: int, a: Allocation)
    requires AllWellFormed(size, pools) && HeldSince(pools, ip, port, a)
    requires e != ReleaseEvent(ip, port) && (e.ExpireEvent? ==> e.now - a.allocatedAt < a.timeout)
    ensures HeldSince(Next(size, pools, e), ip, port, a)
  {
    if e.AllocateEvent? && e.ip == ip {
      GrantIsFirstFree(size, pools, ip);
    }
  }

  /** A port handed out stays in use, under the terms it was handed out for, until it is released
      or an expiry pass finds its timeout elapsed. */
  lemma {:induction false} HeldUntilDue(size: int, states: seq<Pools>, events: seq<Event>, i: nat, j: nat, port: int)
    requires IsRun(size, states, events) && i < j <= |events|
    requires events[i].AllocateEvent? && Grants(size, states, events, i, events[i].ip, port)
    requires Undisturbed(events, i + 1, j, events[i].ip, port, events[i].now, events[i].timeout)
    ensures HeldSince(states[j], events[i].ip, port, Allocation(port, events[i].flow, events[i].now, events[i].timeout))
    decreases j
  {
    if j == i + 1 {
      assert states[j] == Next(size, states[i], events[i]);
    } else {
      HeldUntilDue(size, states, events, i, j - 1, port);
      RunIsWellFormed(size, states, events, j - 1);
      StepHolds(size, states[j - 1], events[j - 1], events[i].ip, port,
                Allocation(port, events[i].flow, events[i].now, events[i].timeout));
    }
  }

  /** An expiry pass frees a port held since event `i` exactly when its timeout has elapsed. */
  lemma ExpiryFreesExactlyTheDue(size: int, states: seq<Pools>, events: seq<Event>, i: nat, j: nat, port: int)
    requires IsRun(size, states, events) && i < j < |events|
    requires events[i].AllocateEvent? && Grants(size, states, events, i, events[i].ip, port)
    requires Undisturbed(events, i + 1, j, events[i].ip, port, events[i].now, events[i].timeout)
    requires events[j].ExpireEvent?
    ensures IsAllocated(states[j + 1], events[i].ip, port) <==> events[j].now - events[i].now < events[i].timeout
  {
    HeldUntilDue(size, states, events, i, j, port);
    assert states[j + 1] == Next(size, states[j], events[j]);
  }
}
