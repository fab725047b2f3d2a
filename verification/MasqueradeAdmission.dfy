/** Where the NAT manager meets the port pools: a masquerade rule is admitted by the state of the
    pool that its connections will draw from. */
module MasqueradeAdmission {
  import opened Prelude
  import opened SnatPool
  import opened SnatRuns
  import NM = NatManager

  /** The manager's answer to a masquerade request while the pools are in this state. */
  function Reply(n: NM.Nat, size: int, pools: Pools, privateIp: string, publicIp: string, id: string, ok: bool): NM.NatReply {
    NM.AddReply(n, NM.Snat(privateIp, publicIp), "masquerade", id, IsExhausted(size, pools, publicIp), ok)
  }

  /** An address has a pool exactly when a port was ever asked for on it. */
  lemma {:induction false} PooledExactlyWhenAsked(size: int, states: seq<Pools>, events: seq<Event>, i: nat, ip: string)
    requires IsRun(size, states, events) && i < |states|
    ensures ip in states[i] <==> exists m :: 0 <= m < i && events[m].AllocateEvent? && events[m].ip == ip
  {
    if i > 0 {
      PooledExactlyWhenAsked(size, states, events, i - 1, ip);
      assert states[i] == Next(size, states[i - 1], events[i - 1]);
    }
  }

  /** In every run of the allocator a new masquerade rule is refused for exhaustion exactly when a
      port was asked for before and the next request for one would get none; then every port of the
      address is in use. */
  lemma RefusedExactlyWhenFull(
    size: int, states: seq<Pools>, events: seq<Event>, i: nat,
    n: NM.Nat, privateIp: string, publicIp: string, id: string, ok: bool)
    requires IsRun(size, states, events) && i < |states|
    ensures Reply(n, size, states[i], privateIp, publicIp, id, ok).PoolExhausted? <==>
      && !NM.Finds(n, NM.Snat(privateIp, publicIp))
      && Grant(size, states[i], publicIp).None?
      && exists m :: 0 <= m < i && events[m].AllocateEvent? && events[m].ip == publicIp
    ensures Reply(n, size, states[i], privateIp, publicIp, id, ok).PoolExhausted? ==>
      forall port :: InPool(size, port) ==> IsAllocated(states[i], publicIp, port)
  {
    RunIsWellFormed(size, states, events, i);
    ExhaustedExactlyWhenRefused(size, states[i], publicIp);
    PooledExactlyWhenAsked(size, states, events, i, publicIp);
    GrantIsFirstFree(size, states[i], publicIp);
  }

  /** Giving back any one port of the address admits the rule again. */
  lemma ReleaseReadmits(size: int, pools: Pools, n: NM.Nat, privateIp: string, publicIp: string, id: string, ok: bool, port: int)
    requires AllWellFormed(size, pools) && IsAllocated(pools, publicIp, port)
    ensures !Reply(n, size, Release(pools, publicIp, port), privateIp, publicIp, id, ok).PoolExhausted?
  {
    assert InPool(size, port);
    PoolBound(size, pools[publicIp].used);
    assert |pools[publicIp].used - {port}| == |pools[publicIp].used| - 1;
  }
}
