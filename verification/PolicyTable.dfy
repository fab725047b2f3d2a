/** The policy table of the DOCA firewall: a fixed array of rules scanned in one pass, and its
    agreement with the sorted engine of the datapath. */
module PolicyTable {
  import opened Prelude
  import opened PriorityMatch

  const MAX_POLICY_RULES := 256
  const UINT32_MAX := 0xFFFF_FFFF

  type Port = n: nat | n <= 65535

  datatype Action = Allow | Deny

  /** Addresses and masks are words; an address of 0 and a protocol of 0 match anything. */
  datatype Rule = Rule(
    id: nat,
    srcIp: bv32, srcMask: bv32, dstIp: bv32, dstMask: bv32,
    srcPortMin: Port, srcPortMax: Port, dstPortMin: Port, dstPortMax: Port,
    protocol: nat,
    action: Action,
    priority: nat,
    enabled: bool
  )

  datatype Packet = Packet(srcIp: bv32, dstIp: bv32, srcPort: Port, dstPort: Port, protocol: nat)

  const DEFAULT_DENY := Rule(0, 0, 0, 0, 0, 0, 65535, 0, 65535, 0, Deny, UINT32_MAX, true)

  predicate Matches(r: Rule, p: Packet) {
    && r.enabled
    && (r.protocol == 0 || r.protocol == p.protocol)
    && (r.srcIp == 0 || (p.srcIp & r.srcMask) == (r.srcIp & r.srcMask))
    && (r.dstIp == 0 || (p.dstIp & r.dstMask) == (r.dstIp & r.dstMask))
    && ((r.srcPortMin == 0 && r.srcPortMax == 65535) || r.srcPortMin <= p.srcPort <= r.srcPortMax)
    && ((r.dstPortMin == 0 && r.dstPortMax == 65535) || r.dstPortMin <= p.dstPort <= r.dstPortMax)
  }

  /** The packet agrees with every field that the enabled rule gives: an address is the rule's under
      the mask, and a port lies in the range. */
  predicate Agrees(r: Rule, p: Packet) {
    && r.enabled
    && (r.protocol != 0 ==> p.protocol == r.protocol)
    && (r.srcIp != 0 ==> (p.srcIp & r.srcMask) == (r.srcIp & r.srcMask))
    && (r.dstIp != 0 ==> (p.dstIp & r.dstMask) == (r.dstIp & r.dstMask))
    && r.srcPortMin <= p.srcPort <= r.srcPortMax
    && r.dstPortMin <= p.dstPort <= r.dstPortMax
  }

  lemma MatchesExactly(r: Rule, p: Packet)
    ensures Matches(r, p) <==> Agrees(r, p)
  {
  }

  /** The rule at `i` agrees with the packet, every other that does has a greater priority number, or the
      same and stands later, and the scan's starting value does not hide it. */
  ghost predicate Decides(rules: seq<Rule>, p: Packet, i: nat) {
    && i < |rules| && Agrees(rules[i], p) && rules[i].priority < UINT32_MAX
    && forall j :: 0 <= j < |rules| && Agrees(rules[j], p) ==>
         rules[i].priority < rules[j].priority || (rules[i].priority == rules[j].priority && i <= j)
  }

  /** The verdict is the action of the rule that decides, and deny without one. */
  lemma VerdictIsOfDeciding(rules: seq<Rule>, p: Packet)
    ensures match Deciding(rules, p)
            case Some(i) => Decides(rules, p, i) && VerdictOf(rules, p) == rules[i].action
            case None => (forall i: nat :: !Decides(rules, p, i)) && VerdictOf(rules, p) == Deny
  {
    BestIsWinner(rules, PriorityOf(), Below(PriorityOf(), HitBy(p), UINT32_MAX));
    forall j | 0 <= j < |rules|
      ensures Matches(rules[j], p) <==> Agrees(rules[j], p)
    {
      MatchesExactly(rules[j], p);
    }
  }

  lemma OneDecides(rules: seq<Rule>, p: Packet)
    ensures forall i: nat, j: nat :: Decides(rules, p, i) && Decides(rules, p, j) ==> i == j
  {
  }

  /** The default rule agrees with every packet. */
  lemma DefaultAgrees(p: Packet)
    ensures Agrees(DEFAULT_DENY, p) && DEFAULT_DENY.action == Deny && DEFAULT_DENY.priority == 0xFFFF_FFFF
  {
  }

  function PriorityOf(): Rule -> int {
    (r: Rule) => r.priority
  }

  function HitBy(p: Packet): Rule -> bool {
    (r: Rule) => Matches(r, p)
  }

  /** The rule that decides a packet: the least (priority, position) among the matching rules whose
      priority beats the scan's starting value. */
  function Deciding(rules: seq<Rule>, p: Packet): Option<nat> {
    Best(rules, PriorityOf(), Below(PriorityOf(), HitBy(p), UINT32_MAX))
  }

  function VerdictOf(rules: seq<Rule>, p: Packet): Action {
    match Deciding(rules, p)
    case Some(i) => rules[i].action
    case None => Deny
  }

  /** Removing a rule changes the verdict only of packets that rule was deciding. */
  lemma RemovalOnlyAffectsItsPackets(rules: seq<Rule>, i: nat, p: Packet)
    requires i < |rules|
    ensures VerdictOf(Without(rules, i), p) != VerdictOf(rules, p) ==> Deciding(rules, p) == Some(i)
  {
    if Deciding(rules, p) != Some(i) {
      DeletingALoserKeepsTheWinner(rules, PriorityOf(), Below(PriorityOf(), HitBy(p), UINT32_MAX), i);
    }
  }

  /** Ids are handed out once, so an id names at most one rule; slot 0 is the default. */
  predicate WellFormed(rules: seq<Rule>, nextId: nat) {
    && 1 <= |rules| <= MAX_POLICY_RULES
    && rules[0] == DEFAULT_DENY
    && (forall i :: 1 <= i < |rules| ==> 0 < rules[i].id < nextId)
    && (forall i, j :: 0 <= i < j < |rules| ==> rules[i].id != rules[j].id)
  }

  lemma WithoutKeepsWellFormed(rules: seq<Rule>, nextId: nat, i: nat)
    requires WellFormed(rules, nextId) && 1 <= i < |rules|
    ensures WellFormed(Without(rules, i), nextId)
  {
    var rest := Without(rules, i);
    assert forall j :: 0 <= j < |rest| ==> rest[j] == rules[if j < i then j else j + 1];
  }

  class Table {
    const slots: array<Rule>
    var nrRules: nat
    var nextId: nat

    ghost predicate Valid()
      reads this, slots
    {
      && slots.Length == MAX_POLICY_RULES
      && nrRules <= MAX_POLICY_RULES
      && nextId >= 1
      && WellFormed(slots[..nrRules], nextId)
    }

    ghost function Contents(): seq<Rule>
      reads this, slots
      requires nrRules <= slots.Length
    {
      slots[..nrRules]
    }

    constructor ()
      ensures Valid() && fresh(slots) && Contents() == [DEFAULT_DENY]
    {
      slots := new Rule[MAX_POLICY_RULES](_ => DEFAULT_DENY);
      nrRules := 1;
      nextId := 1;
    }

    /** Returns the new rule's id, or None when the table is full. */
    method AddRule(rule: Rule) returns (r: Option<nat>)
      requires Valid()
      modifies this, slots
      ensures Valid()
      ensures r.None? <==> old(nrRules) == 256
      ensures r.None? ==> Contents() == old(Contents())
      ensures r.Some? ==> r.value == old(nextId) && Contents() == old(Contents()) + [rule.(id := r.value)]
    {
      if nrRules >= MAX_POLICY_RULES {
        return None;
      }
      var id := nextId;
      nextId := nextId + 1;
      slots[nrRules] := rule.(id := id);
      nrRules := nrRules + 1;
      assert Contents() == old(Contents()) + [rule.(id := id)];
      return Some(id);
    }

    /** Removes the rule with this id; the default rule and unknown ids are refused. */
    method RemoveRule(ruleId: nat) returns (removed: bool)
      requires Valid()
      modifies this, slots
      ensures Valid()
      ensures removed <==> ruleId != 0 && exists i :: 0 <= i < old(nrRules) && old(Contents())[i].id == ruleId
      ensures !removed ==> Contents() == old(Contents())
      ensures removed ==> forall i :: 0 <= i < nrRules ==> Contents()[i].id != ruleId
      ensures removed ==> exists i :: 0 <= i < old(nrRules) && old(Contents())[i].id == ruleId
                                      && Contents() == Without(old(Contents()), i)
    {
      ghost var before := Contents();
      var i := 0;
      while i < nrRules
        invariant i <= nrRules == old(nrRules) && Contents() == before
        invariant nextId == old(nextId)
        invariant forall j :: 0 <= j < i ==> before[j].id != ruleId
      {
        assert slots[i] == before[i];
        if slots[i].id == ruleId {
          if ruleId == 0 {
            return false;
          }
          WithoutKeepsWellFormed(before, nextId, i);
          ShiftDown(i);
          nrRules := nrRules - 1;
          assert Contents() == Without(before, i);
          return true;
        }
        i := i + 1;
      }
      return false;
    }

    method ShiftDown(i: nat)
      requires nrRules <= slots.Length && i < nrRules
      modifies slots
      ensures forall k :: 0 <= k < i ==> slots[k] == old(slots[k])
      ensures forall k :: i <= k < nrRules - 1 ==> slots[k] == old(slots[k + 1])
    {
      var j := i;
      while j < nrRules - 1
        invariant i <= j <= nrRules - 1
        invariant forall k :: 0 <= k < i ==> slots[k] == old(slots[k])
        invariant forall k :: i <= k < j ==> slots[k] == old(slots[k + 1])
        invariant forall k :: j <= k < nrRules ==> slots[k] == old(slots[k])
      {
        slots[j] := slots[j + 1];
        j := j + 1;
      }
    }

    method EvaluatePacket(p: Packet) returns (result: Action)
      requires Valid()
      ensures result == VerdictOf(Contents(), p)
      ensures result == Allow <==> exists i: nat :: Decides(Contents(), p, i) && Contents()[i].action == Allow
      ensures forall i: nat :: Decides(Contents(), p, i) ==> result == Contents()[i].action
    {
      ghost var hits := Below(PriorityOf(), HitBy(p), UINT32_MAX);
      ghost var best: Option<nat> := None;
      result := Deny;
      var bestPriority := UINT32_MAX;
      for i := 0 to nrRules
        invariant best == Best(Contents()[..i], PriorityOf(), hits)
        invariant bestPriority == if best.Some? then Contents()[best.value].priority else UINT32_MAX
        invariant bestPriority <= UINT32_MAX
        invariant result == if best.Some? then Contents()[best.value].action else Deny
      {
        assert Contents()[..i + 1][..i] == Contents()[..i];
        if Matches(slots[i], p) && slots[i].priority < bestPriority {
          bestPriority := slots[i].priority;
          result := slots[i].action;
          best := Some(i);
        }
      }
      assert Contents()[..nrRules] == Contents();
      VerdictIsOfDeciding(Contents(), p);
      OneDecides(Contents(), p);
    }
  }

  // ---------------------------------------------------------------- the two engines

  /** The action of sort-then-first-match over rules of any kind. */
  function SortedAction<R, A>(rules: seq<R>, prio: R -> int, hits: R -> bool, action: R -> A, deny: A): A {
    match FirstRule(StableSort(rules, prio), hits)
    case Some(r) => action(r)
    case None => deny
  }

  /** The action of the single-pass scan over rules of any kind. */
  function ScanAction<R, A>(rules: seq<R>, prio: R -> int, hits: R -> bool, action: R -> A, deny: A): A {
    match Best(rules, prio, Below(prio, hits, UINT32_MAX))
    case Some(i) => action(rules[i])
    case None => deny
  }

  /** With every priority below UINT32_MAX both engines pick the same rule. */
  lemma EnginesPickTheSameRule<R>(rules: seq<R>, prio: R -> int, hits: R -> bool)
    requires forall i :: 0 <= i < |rules| ==> prio(rules[i]) < UINT32_MAX
    ensures FirstRule(StableSort(rules, prio), hits)
         == match Best(rules, prio, Below(prio, hits, UINT32_MAX)) case Some(i) => Some(rules[i]) case None => None
  {
    SortedFirstRuleIsBest(rules, prio, hits);
    CeilingKeepsWinner(rules, prio, hits, UINT32_MAX);
  }

  /** In general they agree exactly when the winning rule's priority is below UINT32_MAX or it
      denies anyway: a rule at UINT32_MAX never wins the scan. */
  lemma EnginesAgreeExactly<R, A>(
    rules: seq<R>, prio: R -> int, hits: R -> bool, action: R -> A, deny: A)
    requires forall i :: 0 <= i < |rules| ==> prio(rules[i]) <= UINT32_MAX
    ensures SortedAction(rules, prio, hits, action, deny) == ScanAction(rules, prio, hits, action, deny)
       <==> match Best(rules, prio, hits)
            case None => true
            case Some(w) => prio(rules[w]) < UINT32_MAX || action(rules[w]) == deny
  {
    SortedFirstRuleIsBest(rules, prio, hits);
    CeilingKeepsWinner(rules, prio, hits, UINT32_MAX);
  }

  /** A list that disagrees: one rule at UINT32_MAX that allows everything. Sorted and matched it
      allows, the scan denies, with or without the default rule before it. */
  lemma CeilingRuleIsLost(p: Packet)
    ensures var r := Rule(1, 0, 0, 0, 0, 0, 65535, 0, 65535, 0, Allow, UINT32_MAX, true);
      var action := (rule: Rule) => rule.action;
      && SortedAction([r], PriorityOf(), HitBy(p), action, Deny) == Allow
      && ScanAction([r], PriorityOf(), HitBy(p), action, Deny) == Deny
      && VerdictOf([DEFAULT_DENY, r], p) == Deny
  {
    var r := Rule(1, 0, 0, 0, 0, 0, 65535, 0, 65535, 0, Allow, UINT32_MAX, true);
    assert [r][..0] == [];
    assert Best([r], PriorityOf(), HitBy(p)) == Some(0);
    SortedFirstRuleIsBest([r], PriorityOf(), HitBy(p));
    assert [DEFAULT_DENY, r][..1] == [DEFAULT_DENY] && [DEFAULT_DENY][..0] == [];
  }

  /** The table itself never disagrees with its own sorted rules: the default rule in slot 0 stands
      before every other rule at UINT32_MAX. */
  lemma TableAgreesWithItsSort(rules: seq<Rule>, nextId: nat, p: Packet)
    requires WellFormed(rules, nextId) && forall i :: 0 <= i < |rules| ==> rules[i].priority <= UINT32_MAX
    ensures SortedAction(rules, PriorityOf(), HitBy(p), (r: Rule) => r.action, Deny) == VerdictOf(rules, p)
  {
    var action := (r: Rule) => r.action;
    EnginesAgreeExactly(rules, PriorityOf(), HitBy(p), action, Deny);
    BestIsWinner(rules, PriorityOf(), HitBy(p));
    assert HitBy(p)(rules[0]);
  }
}
