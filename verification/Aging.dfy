/** The aging loop of the offload daemon: which sessions a sweep evicts, and why. */
module Aging {
  import opened Prelude
  import opened OffloadDaemon
  import opened DaemonService

  /** The packet count last read for a session, and when the count was first seen at that value. */
  datatype Idle = Idle(packets: nat, since: real)

  type Tracker = map<string, Idle>

  /** What a sweep reads for a key: the hardware packet count, None when the hardware does not answer. */
  function Reading(d: Daemon, key: string): Option<nat> {
    if Answers(d, key) then Some(d.hw[d.table[key].handle].packets) else None
  }

  /** The hardware holds the session's own entry, does not fail on it, and has counted so many packets. */
  ghost predicate CountIs(d: Daemon, key: string, packets: nat) {
    && key in d.table && d.table[key].handle in d.hw && d.table[key].handle !in d.faulty
    && d.hw[d.table[key].handle].packets == packets
  }

  /** The hardware does not answer for the session. */
  ghost predicate Silent(d: Daemon, key: string)
    requires key in d.table
  {
    d.table[key].handle !in d.hw || d.table[key].handle in d.faulty
  }

  /** The sweep decides to evict the key. */
  predicate Condemned(tracker: Tracker, d: Daemon, now: real, timeout: real, key: string) {
    && key in d.table
    && match Reading(d, key)
       case None => true
       case Some(packets) =>
         key in tracker && tracker[key].packets == packets && now - tracker[key].since >= timeout
  }

  function ToEvict(tracker: Tracker, d: Daemon, now: real, timeout: real): set<string> {
    set key | key in d.table && Condemned(tracker, d, now, timeout, key)
  }

  /** What the tracker holds for a key once the sweep has looked at it. */
  function Updated(tracker: Tracker, key: string, packets: nat, now: real): Idle {
    if key in tracker && tracker[key].packets == packets then tracker[key] else Idle(packets, now)
  }

  function NextTracker(tracker: Tracker, d: Daemon, now: real, timeout: real): Tracker {
    map key | key in d.table && !Condemned(tracker, d, now, timeout, key) && Reading(d, key).Some? ::
      Updated(tracker, key, Reading(d, key).value, now)
  }

  function Sweep(tracker: Tracker, d: Daemon, now: real, timeout: real): Daemon {
    RemoveKeys(d, ToEvict(tracker, d, now, timeout))
  }

  /** What is left once evicted keys and keys without a session are dropped from the tracker. */
  lemma ForgetGone(before: Tracker, d: Daemon, now: real, timeout: real, after: Tracker)
    requires forall key :: key in after ==> !Condemned(before, d, now, timeout, key)
    requires forall key :: key in d.table && Reading(d, key).Some? && !Condemned(before, d, now, timeout, key) ==>
               key in after && after[key] == Updated(before, key, Reading(d, key).value, now)
    ensures var table := d.table - ToEvict(before, d, now, timeout);
      (map key | key in after && key in table :: after[key]) == NextTracker(before, d, now, timeout)
  {
  }

  /** The tracker after looking at the keys in `seen`. */
  ghost predicate Inspected(before: Tracker, after: Tracker, d: Daemon, now: real, seen: seq<string>) {
    && (forall key :: key !in seen ==> (key in after <==> key in before))
    && (forall key :: key !in seen && key in after ==> after[key] == before[key])
    && (forall key :: key in seen && Reading(d, key).Some? ==>
          key in after && after[key] == Updated(before, key, Reading(d, key).value, now))
  }

  /** The tracker after looking at one more key. */
  function AfterInspecting(tracker: Tracker, d: Daemon, now: real, key: string): Tracker {
    match Reading(d, key)
    case None => tracker
    case Some(packets) => tracker[key := Updated(tracker, key, packets, now)]
  }

  lemma InspectedStep(first: Tracker, before: Tracker, after: Tracker, d: Daemon, now: real, seen: seq<string>, key: string)
    requires Inspected(first, before, d, now, seen) && key !in seen
    requires after == AfterInspecting(before, d, now, key)
    ensures Inspected(first, after, d, now, seen + [key])
  {
  }

  /** The keys among `seen` that the sweep condemns. */
  ghost predicate Listed(toEvict: seq<string>, tracker: Tracker, d: Daemon, now: real, timeout: real, seen: seq<string>) {
    && Distinct(toEvict)
    && forall key :: key in toEvict <==> key in seen && Condemned(tracker, d, now, timeout, key)
  }

  lemma ListedStep(toEvict: seq<string>, tracker: Tracker, d: Daemon, now: real, timeout: real, seen: seq<string>, key: string)
    requires Listed(toEvict, tracker, d, now, timeout, seen) && key !in seen
    ensures Listed(if Condemned(tracker, d, now, timeout, key) then toEvict + [key] else toEvict,
                   tracker, d, now, timeout, seen + [key])
  {
  }

  /** Keys not looked at yet are condemned by what the tracker held at first. */
  lemma CondemnedUnseen(first: Tracker, before: Tracker, d: Daemon, now: real, timeout: real, seen: seq<string>, key: string)
    requires Inspected(first, before, d, now, seen) && key !in seen
    ensures Condemned(before, d, now, timeout, key) <==> Condemned(first, d, now, timeout, key)
  {
  }

  // ---------------------------------------------------------------- the loop body

  class SessionAger {
    const idleTimeout: real
    var tracker: Tracker

    constructor (idleTimeout: real)
      ensures this.idleTimeout == idleTimeout && tracker == map[]
    {
      this.idleTimeout := idleTimeout;
      tracker := map[];
    }

    /** One pass of the loop: look at every session, evict, forget sessions that are gone. */
    method SweepOnce(service: OffloadService, now: real)
      modifies this, service.table, service.doca
      ensures service.View() == Sweep(old(tracker), old(service.View()), now, idleTimeout)
      ensures tracker == NextTracker(old(tracker), old(service.View()), now, idleTimeout)
    {
      ghost var d := service.View();
      var toEvict := Inspect(service, now);
      Evict(service, toEvict);
      assert Members(toEvict) == ToEvict(old(tracker), d, now, idleTimeout);
      ForgetGone(old(tracker), d, now, idleTimeout, tracker);
      tracker := map key | key in tracker && key in service.table.sessions :: tracker[key];
    }

    method Inspect(service: OffloadService, now: real) returns (toEvict: seq<string>)
      modifies this
      ensures forall key :: key in toEvict <==> key in ToEvict(old(tracker), service.View(), now, idleTimeout)
      ensures Distinct(toEvict)
      ensures forall key :: key in service.table.sessions && Reading(service.View(), key).Some? ==>
                key in tracker && tracker[key] == Updated(old(tracker), key, Reading(service.View(), key).value, now)
    {
      ghost var d := service.View();
      var keys := Elements(service.table.sessions.Keys);
      toEvict := [];
      for i := 0 to |keys|
        invariant Inspected(old(tracker), tracker, d, now, keys[..i])
        invariant Listed(toEvict, old(tracker), d, now, idleTimeout, keys[..i])
      {
        var key := keys[i];
        assert keys[..i + 1] == keys[..i] + [key];
        assert key !in keys[..i];
        ghost var before := tracker;
        CondemnedUnseen(old(tracker), before, d, now, idleTimeout, keys[..i], key);
        var evict := InspectOne(service, now, key);
        InspectedStep(old(tracker), before, tracker, d, now, keys[..i], key);
        ListedStep(toEvict, old(tracker), d, now, idleTimeout, keys[..i], key);
        if evict {
          toEvict := toEvict + [key];
        }
      }
      assert keys[..|keys|] == keys;
    }

    method InspectOne(service: OffloadService, now: real, key: string) returns (evict: bool)
      requires key in service.table.sessions
      modifies this
      ensures evict == Condemned(old(tracker), service.View(), now, idleTimeout, key)
      ensures tracker == AfterInspecting(old(tracker), service.View(), now, key)
    {
      var counters := service.doca.QueryCounters(service.table.sessions[key].handle);
      if counters.None? {
        return true;
      }
      var packets := counters.value.0;
      if key in tracker {
        if packets == tracker[key].packets {
          assert tracker == tracker[key := tracker[key]];
          return now - tracker[key].since >= idleTimeout;
        }
      }
      tracker := tracker[key := Idle(packets, now)];
      return false;
    }

    method Evict(service: OffloadService, toEvict: seq<string>)
      requires Distinct(toEvict) && forall key :: key in toEvict ==> key in service.table.sessions
      modifies this, service.table, service.doca
      ensures service.View() == RemoveKeys(old(service.View()), Members(toEvict))
      ensures tracker == old(tracker) - Members(toEvict)
    {
      ghost var d := service.View();
      ghost var gone: set<string> := {};
      NothingRemoved(d.table);
      for i := 0 to |toEvict|
        invariant gone <= Members(toEvict) && |gone| == i
        invariant forall j :: i <= j < |toEvict| ==> toEvict[j] !in gone
        invariant service.table.sessions == d.table - gone
        invariant service.doca.entries == d.hw - (HandlesAt(d.table, gone) - d.faulty)
        invariant service.doca.nextHandle == d.nextHandle && service.doca.faulty == d.faulty
        invariant tracker == old(tracker) - gone
      {
        var key := toEvict[i];
        EvictOne(service, d, gone, key);
        tracker := tracker - {key};
        gone := gone + {key};
      }
      DistinctSize(toEvict);
      SubsetOfFullSize(gone, Members(toEvict));
    }

    method EvictOne(service: OffloadService, ghost d: Daemon, ghost gone: set<string>, key: string)
      requires key in d.table && key !in gone
      requires service.table.sessions == d.table - gone
      requires service.doca.faulty == d.faulty
      requires service.doca.entries == d.hw - (HandlesAt(d.table, gone) - d.faulty)
      modifies service.table, service.doca`entries
      ensures service.table.sessions == d.table - (gone + {key})
      ensures service.doca.entries == d.hw - (HandlesAt(d.table, gone + {key}) - d.faulty)
    {
      HandlesAtGrows(d.table, gone, key);
      var entry := service.table.RemoveByKeyString(key);
      if entry.Some? {
        var _ := service.doca.RemoveSession(entry.value.handle);
        if entry.value.reverseHandle.Some? {
          var _ := service.doca.RemoveSession(entry.value.reverseHandle.value);
        }
      }
    }
  }

  // ---------------------------------------------------------------- what one sweep does to backing

  /** Every session the hardware does not answer for is gone after the sweep. */
  lemma SweepClearsUnbacked(tracker: Tracker, d: Daemon, now: real, timeout: real, key: string)
    requires key in d.table && !Answers(d, key)
    ensures key !in Sweep(tracker, d, now, timeout).table
  {
  }

  /** A session that loses its backing in a sweep is the partner of one evicted in it. */
  lemma SweepUnbacksOnlyPartners(tracker: Tracker, d: Daemon, now: real, timeout: real, key: string)
    requires Inv(d)
    requires var d' := Sweep(tracker, d, now, timeout); key in d'.table && !Backed(d', key)
    ensures Backed(d, key)
    ensures exists p :: p in ToEvict(tracker, d, now, timeout) && Partners(d.table, p, key)
  {
    var keys := ToEvict(tracker, d, now, timeout);
    if forall p :: p in keys ==> !Partners(d.table, p, key) {
      RemovalKeepsBacking(d, keys, key);
    }
  }

  // ---------------------------------------------------------------- many sweeps

  /** Sweep `i` starts at `times[i]` from the daemon state `views[i]`. Between sweeps the daemon may
      do anything: sessions come and go, counters move. */
  ghost predicate IsHistory(trackers: seq<Tracker>, views: seq<Daemon>, times: seq<real>, timeout: real) {
    && |views| == |times| && |trackers| == |views| + 1
    && trackers[0] == map[]
    && (forall i :: 0 <= i < |views| ==> trackers[i + 1] == NextTracker(trackers[i], views[i], times[i], timeout))
    && (forall i, j :: 0 <= i <= j < |times| ==> times[i] <= times[j])
  }

  ghost predicate EvictedAt(trackers: seq<Tracker>, views: seq<Daemon>, times: seq<real>, timeout: real, i: nat, key: string)
    requires i < |views| == |times| && |trackers| == |views| + 1
  {
    key in ToEvict(trackers[i], views[i], times[i], timeout)
  }

  /** Sweeps `j` to `m` all read `packets` for the key, and none before `m` evicted it. */
  ghost predicate UnchangedSpan(
    trackers: seq<Tracker>, views: seq<Daemon>, times: seq<real>, timeout: real,
    key: string, packets: nat, j: nat, m: nat)
    requires j <= m < |views| == |times| && |trackers| == |views| + 1
  {
    && (forall i :: j <= i <= m ==> CountIs(views[i], key, packets))
    && (forall i :: j <= i < m ==> !EvictedAt(trackers, views, times, timeout, i, key))
  }

  /** The tracker remembers the sweep at which the current unchanged span began. */
  lemma {:induction false} TrackerHoldsSpanStart(
    trackers: seq<Tracker>, views: seq<Daemon>, times: seq<real>, timeout: real, key: string, m: nat) returns (j: nat)
    requires IsHistory(trackers, views, times, timeout) && m < |views|
    requires key in trackers[m + 1]
    ensures j <= m && trackers[m + 1][key].since == times[j]
    ensures UnchangedSpan(trackers, views, times, timeout, key, trackers[m + 1][key].packets, j, m)
    ensures !EvictedAt(trackers, views, times, timeout, m, key)
    ensures j > 0 ==> Reading(views[j - 1], key) != Some(trackers[m + 1][key].packets)
                      || EvictedAt(trackers, views, times, timeout, j - 1, key)
  {
    var packets := trackers[m + 1][key].packets;
    assert trackers[m + 1] == NextTracker(trackers[m], views[m], times[m], timeout);
    if key in trackers[m] && trackers[m][key].packets == packets {
      assert m > 0;
      j := TrackerHoldsSpanStart(trackers, views, times, timeout, key, m - 1);
    } else {
      j := m;
      if m > 0 {
        assert trackers[m] == NextTracker(trackers[m - 1], views[m - 1], times[m - 1], timeout);
      }
    }
  }

  /** A span can only reach back to where the tracker says it began. */
  lemma {:induction false} SpanWithinTracked(
    trackers: seq<Tracker>, views: seq<Daemon>, times: seq<real>, timeout: real,
    key: string, packets: nat, j: nat, m: nat)
    requires IsHistory(trackers, views, times, timeout) && j <= m < |views|
    requires UnchangedSpan(trackers, views, times, timeout, key, packets, j, m)
    requires !EvictedAt(trackers, views, times, timeout, m, key)
    ensures key in trackers[m + 1] && trackers[m + 1][key].packets == packets
    ensures trackers[m + 1][key].since <= times[j]
    decreases m
  {
    assert trackers[m + 1] == NextTracker(trackers[m], views[m], times[m], timeout);
    if j < m {
      SpanWithinTracked(trackers, views, times, timeout, key, packets, j, m - 1);
    } else if m > 0 && key in trackers[m] {
      var start := TrackerHoldsSpanStart(trackers, views, times, timeout, key, m - 1);
    }
  }

  /** A session whose hardware entry answers is evicted exactly when its count was read unchanged by
      every sweep over a span of at least the idle timeout; one that does not answer is always
      evicted. */
  lemma EvictsExactlyTheIdle(
    trackers: seq<Tracker>, views: seq<Daemon>, times: seq<real>, timeout: real, key: string, m: nat)
    requires IsHistory(trackers, views, times, timeout) && m < |views|
    requires key in views[m].table
    ensures EvictedAt(trackers, views, times, timeout, m, key) <==>
      || Silent(views[m], key)
      || exists j: nat, packets: nat :: j < m && times[m] - times[j] >= timeout
                    && UnchangedSpan(trackers, views, times, timeout, key, packets, j, m)
  {
    var reading := Reading(views[m], key);
    if reading.Some? {
      var packets := reading.value;
      if EvictedAt(trackers, views, times, timeout, m, key) {
        assert m > 0;
        var j := TrackerHoldsSpanStart(trackers, views, times, timeout, key, m - 1);
        assert UnchangedSpan(trackers, views, times, timeout, key, packets, j, m);
      } else {
        forall j | 0 <= j < m && UnchangedSpan(trackers, views, times, timeout, key, packets, j, m)
          ensures times[m] - times[j] < timeout
        {
          SpanWithinTracked(trackers, views, times, timeout, key, packets, j, m - 1);
        }
      }
    }
  }
}
