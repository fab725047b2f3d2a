/** Ephemeral source-port pools of masquerade SNAT: `SNATState` of tc-firewall. */
module SnatPool {
  import opened Prelude

  const PORT_MIN := 1024
  const PORT_MAX := 65535
  const DEFAULT_POOL_SIZE := PORT_MAX - PORT_MIN + 1

  datatype Flow = Flow(srcIp: string, dstIp: string, dstPort: int, protocol: string)

  datatype Allocation = Allocation(port: int, flow: Flow, allocatedAt: real, timeout: real)

  /** The pool of one public IP: the set of ports in use, what each is in use for, and the
      round-robin cursor. */
  datatype Pool = Pool(used: set<int>, allocations: map<int, Allocation>, next: int)

  type Pools = map<string, Pool>

  predicate InPool(size: int, port: int) {
    PORT_MIN <= port < PORT_MIN + size
  }

  ghost predicate WellFormed(size: int, pool: Pool) {
    && pool.used == pool.allocations.Keys
    && (forall port :: port in pool.used ==> InPool(size, port) && pool.allocations[port].port == port)
    && (size >= 1 ==> InPool(size, pool.next))
  }

  ghost predicate AllWellFormed(size: int, pools: Pools) {
    forall ip :: ip in pools ==> WellFormed(size, pools[ip])
  }

  function EmptyPool(): Pool {
    Pool({}, map[], PORT_MIN)
  }

  function PoolOf(pools: Pools, ip: string): Pool {
    if ip in pools then pools[ip] else EmptyPool()
  }

  // ---------------------------------------------------------------- cyclic order

  /** How many ports the cursor passes, going up and wrapping around, before it reaches `port`. */
  function Ahead(size: int, cursor: int, port: int): int {
    if port >= cursor then port - cursor else port - cursor + size
  }

  function After(size: int, port: int): int {
    if port + 1 >= PORT_MIN + size then PORT_MIN else port + 1
  }

  /** `port` is the first free port in cyclic order from the cursor. */
  ghost predicate FirstFree(size: int, pool: Pool, port: int) {
    && InPool(size, port) && port !in pool.used
    && forall q :: InPool(size, q) && Ahead(size, pool.next, q) < Ahead(size, pool.next, port) ==> q in pool.used
  }

  lemma FirstFreeIsUnique(size: int, pool: Pool, p: int, q: int)
    requires InPool(size, pool.next) && FirstFree(size, pool, p) && FirstFree(size, pool, q)
    ensures p == q
  {
    assert Ahead(size, pool.next, p) == Ahead(size, pool.next, q);
  }

  /** Walks the circle of ports: the reference for the search of the implementation. */
  function Walk(size: int, used: set<int>, port: int, steps: nat): (r: Option<int>)
    decreases steps
  {
    if steps == 0 then None
    else if port !in used then Some(port)
    else Walk(size, used, After(size, port), steps - 1)
  }

  lemma {:induction false} WalkFinds(size: int, pool: Pool, port: int, steps: nat)
    requires InPool(size, pool.next) && InPool(size, port)
    requires Ahead(size, pool.next, port) + steps == size
    requires forall q :: InPool(size, q) && Ahead(size, pool.next, q) < Ahead(size, pool.next, port) ==> q in pool.used
    ensures match Walk(size, pool.used, port, steps)
            case Some(p) => FirstFree(size, pool, p)
            case None => forall q :: InPool(size, q) ==> q in pool.used
    decreases steps
  {
    if port in pool.used && steps > 1 {
      forall q | InPool(size, q) && Ahead(size, pool.next, q) < Ahead(size, pool.next, After(size, port))
        ensures q in pool.used
      {
        if Ahead(size, pool.next, q) == Ahead(size, pool.next, port) {
          assert q == port;
        }
      }
      WalkFinds(size, pool, After(size, port), steps - 1);
    } else if port in pool.used {
      assert Walk(size, pool.used, port, steps) == None;
      forall q | InPool(size, q)
        ensures q in pool.used
      {
        if Ahead(size, pool.next, q) == Ahead(size, pool.next, port) {
          assert q == port;
        }
      }
    }
  }

  /** Pigeonhole: ports in the pool range, fewer of them than the pool has, leave one free. */
  lemma {:induction false} SomePortIsFree(size: nat, used: set<int>) returns (free: int)
    requires |used| < size
    ensures InPool(size, free) && free !in used
  {
    free := PORT_MIN + size - 1;
    if free in used {
      free := SomePortIsFree(size - 1, used - {free});
    }
  }

  function NextFree(size: int, pool: Pool): Option<int> {
    if size < 1 then None else Walk(size, pool.used, pool.next, size)
  }

  lemma NextFreeIsFirstFree(size: int, pool: Pool)
    requires WellFormed(size, pool) && |pool.used| < size
    ensures NextFree(size, pool).Some? && FirstFree(size, pool, NextFree(size, pool).value)
  {
    WalkFinds(size, pool, pool.next, size);
    var free := SomePortIsFree(size, pool.used);
  }

  // ---------------------------------------------------------------- operations

  /** The port `AllocatePort` hands out, None when the pool is exhausted. */
  function Grant(size: int, pools: Pools, ip: string): Option<int> {
    if |PoolOf(pools, ip).used| >= size then None else NextFree(size, PoolOf(pools, ip))
  }

  function Allocate(size: int, pools: Pools, ip: string, flow: Flow, now: real, timeout: real): Pools {
    var pool := PoolOf(pools, ip);
    match Grant(size, pools, ip)
    case None => pools[ip := pool]
    case Some(port) =>
      pools[ip := Pool(pool.used + {port},
                       pool.allocations[port := Allocation(port, flow, now, timeout)],
                       After(size, port))]
  }

  predicate IsAllocated(pools: Pools, ip: string, port: int) {
    ip in pools && port in pools[ip].used
  }

  function Release(pools: Pools, ip: string, port: int): Pools {
    if IsAllocated(pools, ip, port) then pools[ip := Drop(pools[ip], {port})] else pools
  }

  function Drop(pool: Pool, ports: set<int>): Pool {
    Pool(pool.used - ports, pool.allocations - ports, pool.next)
  }

  function Expired(pool: Pool, now: real): set<int> {
    set port | port in pool.allocations && now - pool.allocations[port].allocatedAt >= pool.allocations[port].timeout
  }

  function ReleaseExpired(pools: Pools, now: real): Pools {
    map ip | ip in pools :: Drop(pools[ip], Expired(pools[ip], now))
  }

  /** What `AllocatePort` promises, without reference to how it searches: it refuses exactly when
      the pool is full, and otherwise hands out the first free port in cyclic order. */
  lemma GrantIsFirstFree(size: int, pools: Pools, ip: string)
    requires AllWellFormed(size, pools)
    ensures Grant(size, pools, ip).None? <==> |PoolOf(pools, ip).used| >= size
    ensures Grant(size, pools, ip).Some? ==> FirstFree(size, PoolOf(pools, ip), Grant(size, pools, ip).value)
    ensures Grant(size, pools, ip).None? ==> forall q :: InPool(size, q) ==> IsAllocated(pools, ip, q)
  {
    var pool := PoolOf(pools, ip);
    if |pool.used| < size {
      NextFreeIsFirstFree(size, pool);
    } else {
      forall q | InPool(size, q)
        ensures IsAllocated(pools, ip, q)
      {
        PoolBound(size, pool.used + {q});
      }
    }
  }

  /** What `is_exhausted` answers: never for an address no port was asked for yet. */
  predicate IsExhausted(size: int, pools: Pools, ip: string) {
    ip in pools && |pools[ip].used| >= size
  }

  lemma ExhaustedExactlyWhenRefused(size: int, pools: Pools, ip: string)
    requires AllWellFormed(size, pools)
    ensures IsExhausted(size, pools, ip) <==> ip in pools && Grant(size, pools, ip).None?
    ensures size >= 1 ==> (IsExhausted(size, pools, ip) <==> Grant(size, pools, ip).None?)
  {
    GrantIsFirstFree(size, pools, ip);
  }

  lemma {:induction false} PoolBound(size: nat, used: set<int>)
    requires forall port :: port in used ==> InPool(size, port)
    ensures |used| <= size
  {
    if size == 0 {
      assert forall port :: port !in used;
    } else {
      PoolBound(size - 1, used - {PORT_MIN + size - 1});
    }
  }

  lemma GrantOfFirstFree(size: int, pools: Pools, ip: string, port: int)
    requires WellFormed(size, PoolOf(pools, ip))
    requires |PoolOf(pools, ip).used| < size && FirstFree(size, PoolOf(pools, ip), port)
    ensures Grant(size, pools, ip) == Some(port)
  {
    var pool := PoolOf(pools, ip);
    NextFreeIsFirstFree(size, pool);
    FirstFreeIsUnique(size, pool, port, NextFree(size, pool).value);
  }

  lemma AllocateKeepsWellFormed(size: int, pools: Pools, ip: string, flow: Flow, now: real, timeout: real)
    requires AllWellFormed(size, pools)
    ensures AllWellFormed(size, Allocate(size, pools, ip, flow, now, timeout))
  {
    GrantIsFirstFree(size, pools, ip);
  }

  lemma ReleaseKeepsWellFormed(size: int, pools: Pools, ip: string, port: int)
    requires AllWellFormed(size, pools)
    ensures AllWellFormed(size, Release(pools, ip, port))
  {
  }

  lemma ReleaseExpiredKeepsWellFormed(size: int, pools: Pools, now: real)
    requires AllWellFormed(size, pools)
    ensures AllWellFormed(size, ReleaseExpired(pools, now))
  {
  }

  /** The pool with the port taken, the cursor where it is. */
  function Recorded(pool: Pool, port: int, flow: Flow, now: real, timeout: real): Pool {
    Pool(pool.used + {port}, pool.allocations[port := Allocation(port, flow, now, timeout)], pool.next)
  }

  lemma AllocateWhenFull(size: int, pools: Pools, ip: string, flow: Flow, now: real, timeout: real)
    requires |PoolOf(pools, ip).used| >= size
    ensures Grant(size, pools, ip) == None
    ensures Allocate(size, pools, ip, flow, now, timeout) == if ip in pools then pools else pools[ip := EmptyPool()]
  {
  }

  lemma AllocateFirstFree(size: int, pools: Pools, ip: string, port: int, flow: Flow, now: real, timeout: real)
    requires WellFormed(size, PoolOf(pools, ip))
    requires |PoolOf(pools, ip).used| < size && FirstFree(size, PoolOf(pools, ip), port)
    ensures Grant(size, pools, ip) == Some(port)
    ensures Allocate(size, pools, ip, flow, now, timeout)
         == pools[ip := Recorded(PoolOf(pools, ip).(next := After(size, port)), port, flow, now, timeout)]
  {
    GrantOfFirstFree(size, pools, ip, port);
  }

  /** Only the last value written under an address counts. */
  lemma TwoUpdates(pools: Pools, ip: string, a: Pool, b: Pool, c: Pool)
    ensures pools[ip := a][ip := b][ip := c] == pools[ip := c]
    ensures pools[ip := b][ip := c] == pools[ip := c]
  {
  }

  /** An allocation in plain terms. */
  lemma AllocateMeans(size: int, pools: Pools, ip: string, flow: Flow, now: real, timeout: real)
    requires AllWellFormed(size, pools)
    ensures var r, t := Grant(size, pools, ip), Allocate(size, pools, ip, flow, now, timeout);
      var used, taken := (if ip in pools then pools[ip].used else {}), (if ip in pools then pools[ip].allocations else map[]);
      && ip in t
      && (r == None <==> |used| >= size)
      && (r == None ==> t[ip].used == used && t[ip].allocations == taken)
      && (r.Some? ==>
            && PORT_MIN <= r.value < PORT_MIN + size && r.value !in used
            && t[ip].used == used + {r.value}
            && t[ip].allocations == taken[r.value := Allocation(r.value, flow, now, timeout)]
            && t[ip].next == if r.value + 1 == PORT_MIN + size then PORT_MIN else r.value + 1)
  {
    GrantIsFirstFree(size, pools, ip);
  }

  // ---------------------------------------------------------------- the allocator object

  /** The allocator. The three dictionaries of the source share their keys from creation on, so
      they are one table of pools here. */
  class SNATState {
    const poolSize: int
    var pools: Pools

    ghost predicate Valid()
      reads this
    {
      AllWellFormed(poolSize, pools)
    }

    constructor (size: int)
      ensures Valid() && pools == map[]
      ensures poolSize == if size < 64512 then size else 64512
    {
      poolSize := if size < DEFAULT_POOL_SIZE then size else DEFAULT_POOL_SIZE;
      pools := map[];
    }

    method IsExhaustedNow(ip: string) returns (r: bool)
      ensures r == IsExhausted(poolSize, pools, ip)
    {
      if ip !in pools {
        return false;
      }
      return |pools[ip].used| >= poolSize;
    }

    method AllocatePort(ip: string, flow: Flow, now: real, timeout: real) returns (r: Option<int>)
      requires Valid()
      modifies this
      ensures Valid()
      ensures r == Grant(poolSize, old(pools), ip)
      ensures pools == Allocate(poolSize, old(pools), ip, flow, now, timeout)
      ensures ip in pools && forall x :: x != ip ==> (x in pools <==> x in old(pools)) && (x in pools ==> pools[x] == old(pools)[x])
      ensures var used, taken := (if ip in old(pools) then old(pools)[ip].used else {}),
                                 (if ip in old(pools) then old(pools)[ip].allocations else map[]);
        && (r == None <==> |used| >= poolSize)
        && (r == None ==> pools[ip].used == used && pools[ip].allocations == taken)
        && (r.Some? ==>
              && 1024 <= r.value < 1024 + poolSize && r.value !in used
              && pools[ip].used == used + {r.value}
              && pools[ip].allocations == taken[r.value := Allocation(r.value, flow, now, timeout)]
              && pools[ip].next == if r.value + 1 == 1024 + poolSize then 1024 else r.value + 1)
    {
      AllocateMeans(poolSize, pools, ip, flow, now, timeout);
      AllocateKeepsWellFormed(poolSize, pools, ip, flow, now, timeout);
      if ip !in pools {
        pools := pools[ip := EmptyPool()];
      }
      if |pools[ip].used| >= poolSize {
        AllocateWhenFull(poolSize, old(pools), ip, flow, now, timeout);
        return None;
      }
      ghost var pool := pools[ip];
      NextFreeIsFirstFree(poolSize, pool);
      r := FindAvailablePort(ip);
      AllocateFirstFree(poolSize, old(pools), ip, r.value, flow, now, timeout);
      Record(ip, r.value, flow, now, timeout);
      TwoUpdates(old(pools), ip, EmptyPool(), pool.(next := After(poolSize, r.value)), pools[ip]);
    }

    method Record(ip: string, port: int, flow: Flow, now: real, timeout: real)
      requires ip in pools
      modifies this
      ensures pools == old(pools)[ip := Recorded(old(pools)[ip], port, flow, now, timeout)]
    {
      pools := pools[ip := pools[ip].(
        used := pools[ip].used + {port},
        allocations := pools[ip].allocations[port := Allocation(port, flow, now, timeout)])];
    }

    method FindAvailablePort(ip: string) returns (r: Option<int>)
      requires ip in pools && InPool(poolSize, pools[ip].next)
      modifies this
      ensures match r
              case Some(port) =>
                && FirstFree(poolSize, old(pools)[ip], port)
                && pools == old(pools)[ip := old(pools)[ip].(next := After(poolSize, port))]
              case None =>
                && pools == old(pools)
                && forall q :: InPool(poolSize, q) ==> q in pools[ip].used
    {
      var pool := pools[ip];
      var start := pool.next;
      var effectiveMax := PORT_MIN + poolSize - 1;
      var port := start;
      while port <= effectiveMax
        invariant start <= port <= effectiveMax + 1
        invariant pools == old(pools)
        invariant forall q :: start <= q < port ==> q in pool.used
      {
        if port !in pool.used {
          var next := port + 1;
          if next > effectiveMax {
            next := PORT_MIN;
          }
          pools := pools[ip := pool.(next := next)];
          return Some(port);
        }
        port := port + 1;
      }
      port := PORT_MIN;
      while port < start
        invariant PORT_MIN <= port <= start
        invariant pools == old(pools)
        invariant forall q :: PORT_MIN <= q < port ==> q in pool.used
      {
        if port !in pool.used {
          pools := pools[ip := pool.(next := port + 1)];
          return Some(port);
        }
        port := port + 1;
      }
      return None;
    }

    method ReleasePort(ip: string, port: int) returns (released: bool)
      requires Valid()
      modifies this
      ensures Valid()
      ensures released == IsAllocated(old(pools), ip, port)
      ensures pools == Release(old(pools), ip, port)
      ensures released <==> ip in old(pools) && port in old(pools)[ip].used
      ensures released ==> ip in pools && pools[ip].used == old(pools)[ip].used - {port} && pools[ip].next == old(pools)[ip].next
      ensures !released ==> pools == old(pools)
    {
      ReleaseKeepsWellFormed(poolSize, pools, ip, port);
      if ip !in pools {
        return false;
      }
      if port !in pools[ip].used {
        return false;
      }
      RemovePort(ip, port);
      return true;
    }

    method RemovePort(ip: string, port: int)
      requires ip in pools
      modifies this
      ensures pools == old(pools)[ip := Drop(old(pools)[ip], {port})]
    {
      var pool := pools[ip];
      pools := pools[ip := pool.(used := pool.used - {port}, allocations := pool.allocations - {port})];
    }

    method ReleaseExpiredPorts(now: real) returns (released: nat)
      requires Valid()
      modifies this
      ensures Valid()
      ensures pools == ReleaseExpired(old(pools), now)
      ensures released == |ExpiredPairs(old(pools), now)|
    {
      ghost var done: set<string> := {};
      var ips := Elements(pools.Keys);
      released := 0;
      ExpireNone(pools, now);
      for i := 0 to |ips|
        invariant done == Members(ips[..i])
        invariant pools == ReleaseExpiredOn(old(pools), done, now)
        invariant released == |ExpiredAmong(old(pools), done, now)|
      {
        assert ips[..i + 1] == ips[..i] + [ips[i]];
        assert ips[i] !in ips[..i];
        ExpireOneMore(old(pools), done, ips[i], now);
        var count := ReleaseExpiredOf(ips[i], now);
        released := released + count;
        done := done + {ips[i]};
      }
      assert ips[..|ips|] == ips;
      SameMembers(ips, old(pools).Keys);
      ExpireAll(old(pools), now);
      ReleaseExpiredKeepsWellFormed(poolSize, old(pools), now);
    }

    method ReleaseExpiredOf(ip: string, now: real) returns (count: nat)
      requires ip in pools
      modifies this
      ensures pools == old(pools)[ip := Drop(old(pools)[ip], Expired(old(pools)[ip], now))]
      ensures count == |Expired(old(pools)[ip], now)|
    {
      ghost var pool := pools[ip];
      var expired := ExpiredPortsOf(ip, now);
      count := 0;
      ghost var gone: set<int> := {};
      assert Drop(pool, gone) == pool;
      for i := 0 to |expired|
        invariant pools == old(pools)[ip := Drop(pool, gone)]
        invariant gone <= Members(expired) && count == i == |gone|
        invariant forall k :: i <= k < |expired| ==> expired[k] !in gone
      {
        RemovePort(ip, expired[i]);
        DropMore(pool, gone, expired[i]);
        gone := gone + {expired[i]};
        count := count + 1;
      }
      DistinctSize(expired);
      SubsetOfFullSize(gone, Members(expired));
      SameMembers(expired, Expired(pool, now));
    }

    method ExpiredPortsOf(ip: string, now: real) returns (expired: seq<int>)
      requires ip in pools
      ensures Distinct(expired)
      ensures forall p :: p in expired <==> p in Expired(pools[ip], now)
    {
      var ports := Elements(pools[ip].allocations.Keys);
      expired := [];
      for i := 0 to |ports|
        invariant Distinct(expired)
        invariant forall p :: p in expired <==> p in ports[..i] && p in Expired(pools[ip], now)
      {
        var a := pools[ip].allocations[ports[i]];
        assert ports[..i + 1] == ports[..i] + [ports[i]];
        assert ports[i] !in ports[..i];
        if now - a.allocatedAt >= a.timeout {
          expired := expired + [ports[i]];
        }
      }
      assert ports[..|ports|] == ports;
    }
  }

  lemma DropMore(pool: Pool, gone: set<int>, port: int)
    ensures Drop(Drop(pool, gone), {port}) == Drop(pool, gone + {port})
  {
    assert pool.used - gone - {port} == pool.used - (gone + {port});
    assert pool.allocations - gone - {port} == pool.allocations - (gone + {port});
  }

  // ---------------------------------------------------------------- expiry, one public IP at a time

  ghost function ReleaseExpiredOn(pools: Pools, ips: set<string>, now: real): Pools {
    map ip | ip in pools :: if ip in ips then Drop(pools[ip], Expired(pools[ip], now)) else pools[ip]
  }

  function ExpiredPairs(pools: Pools, now: real): set<(string, int)> {
    set ip, port | ip in pools && port in Expired(pools[ip], now) :: (ip, port)
  }

  ghost function ExpiredAmong(pools: Pools, ips: set<string>, now: real): set<(string, int)> {
    set ip, port | ip in ips && ip in pools && port in Expired(pools[ip], now) :: (ip, port)
  }

  lemma ExpireOneMore(pools: Pools, ips: set<string>, ip: string, now: real)
    requires ip in pools && ip !in ips
    ensures ReleaseExpiredOn(pools, ips, now)[ip] == pools[ip]
    ensures ReleaseExpiredOn(pools, ips + {ip}, now)
         == ReleaseExpiredOn(pools, ips, now)[ip := Drop(pools[ip], Expired(pools[ip], now))]
    ensures |ExpiredAmong(pools, ips + {ip}, now)| == |ExpiredAmong(pools, ips, now)| + |Expired(pools[ip], now)|
  {
    var here := Expired(pools[ip], now);
    TaggedSize(ip, here);
    assert ExpiredAmong(pools, ips + {ip}, now) == ExpiredAmong(pools, ips, now) + Tagged(ip, here);
    assert ExpiredAmong(pools, ips, now) !! Tagged(ip, here);
  }

  lemma ExpireNone(pools: Pools, now: real)
    ensures ReleaseExpiredOn(pools, {}, now) == pools
    ensures ExpiredAmong(pools, {}, now) == {}
  {
  }

  lemma ExpireAll(pools: Pools, now: real)
    ensures ReleaseExpiredOn(pools, pools.Keys, now) == ReleaseExpired(pools, now)
    ensures ExpiredAmong(pools, pools.Keys, now) == ExpiredPairs(pools, now)
  {
  }

  ghost function Tagged(ip: string, ports: set<int>): set<(string, int)> {
    set port | port in ports :: (ip, port)
  }

  lemma {:induction false} TaggedSize(ip: string, ports: set<int>)
    ensures |Tagged(ip, ports)| == |ports|
  {
    if ports != {} {
      var p := Pick(ports);
      TaggedSize(ip, ports - {p});
      assert Tagged(ip, ports) == Tagged(ip, ports - {p}) + {(ip, p)};
    }
  }
}
