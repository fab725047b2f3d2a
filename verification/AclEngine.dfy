/** The access-control engine of the Rust datapath: rules sorted once by priority, first match wins,
    default deny. */
module AclEngine {
  import opened Prelude
  import opened PriorityMatch

  type Ipv4 = n: nat | n < 0x1_0000_0000
  type Port = n: nat | n < 0x1_0000
  type Protocol = n: nat | n < 0x100
  type Priority = n: nat | n < 0x1_0000_0000
  type PrefixLen = n: nat | n <= 32

  datatype Action = Allow | Deny | RateLimit

  datatype FiveTuple = FiveTuple(srcIp: Ipv4, dstIp: Ipv4, srcPort: Port, dstPort: Port, protocol: Protocol)

  /** A CIDR string as parsed at evaluation time; text that does not parse matches nothing. */
  datatype Cidr = Malformed | Block(network: Ipv4, prefixLen: PrefixLen)

  datatype PortRange = PortRange(lo: Port, hi: Port)

  datatype Rule = Rule(
    id: string,
    priority: Priority,
    srcCidr: Option<Cidr>,
    dstCidr: Option<Cidr>,
    srcPorts: Option<PortRange>,
    dstPorts: Option<PortRange>,
    protocol: Option<Protocol>,
    action: Action,
    offloadEligible: bool
  )

  datatype Verdict = Verdict(action: Action, offloadEligible: bool, ruleIndex: Option<nat>)

  // ---------------------------------------------------------------- matching

  function Pow2(k: nat): (p: nat)
    ensures p >= 1
  {
    if k == 0 then 1 else 2 * Pow2(k - 1)
  }

  /** The conjunction of two words, bit by bit. */
  function And(a: nat, b: nat): nat {
    if a == 0 || b == 0 then 0 else a % 2 * (b % 2) + 2 * And(a / 2, b / 2)
  }

  /** A left shift of a 32-bit word; the bits shifted past the top are lost. */
  function ShiftLeft(a: nat, k: nat): nat {
    a * Pow2(k) % 0x1_0000_0000
  }

  const ALL_ONES := 0xFFFF_FFFF

  predicate IpMatchesCidr(ip: Ipv4, cidr: Cidr) {
    match cidr
    case Malformed => false
    case Block(network, prefixLen) =>
      prefixLen == 0 ||
      var mask := ShiftLeft(ALL_ONES, 32 - prefixLen);
      And(ip, mask) == And(network, mask)
  }

  lemma {:induction false} Pow2Monotone(k: nat, n: nat)
    requires k <= n
    ensures Pow2(k) <= Pow2(n)
    decreases n
  {
    if k < n {
      Pow2Monotone(k, n - 1);
    }
  }

  lemma {:induction false} AndAllOnes(a: nat, w: nat)
    requires a < Pow2(w)
    ensures And(a, Pow2(w) - 1) == a
  {
    if a > 0 {
      AndAllOnes(a / 2, w - 1);
      assert (Pow2(w) - 1) / 2 == Pow2(w - 1) - 1;
    }
  }

  lemma HalfThenDiv(n: nat, m: nat)
    requires m >= 1
    ensures n / 2 / m == n / (2 * m)
  {
    var q := n / (2 * m);
    DivMulBounds(n, 2 * m);
    var h := n / 2;
    assert q * m <= h < q * m + m;
    DivUnique(h, m, q);
  }

  lemma DivUnique(n: nat, m: nat, q: nat)
    requires m >= 1 && q * m <= n < q * m + m
    ensures n / m == q && n % m == n - q * m
  {
    DivMulBounds(n, m);
    var p := n / m;
    if p < q {
      MulMonotone(p + 1, q, m);
    } else if p > q {
      MulMonotone(q + 1, p, m);
    }
  }

  lemma DoubleBlock(a: nat, p: nat)
    requires p >= 1
    ensures 2 * (a / 2 / p * p) == a / (2 * p) * (2 * p)
  {
    HalfThenDiv(a, p);
    var q := a / (2 * p);
    assert 2 * (q * p) == q * (2 * p);
  }

  lemma AndEven(a: nat, half: nat)
    ensures And(a, 2 * half) == 2 * And(a / 2, half)
  {
  }

  /** Masking off the lowest `k` of `w` bits rounds down to a multiple of 2 to the `k`. */
  lemma {:induction false} AndHighOnes(a: nat, k: nat, w: nat)
    requires a < Pow2(w) && k <= w
    ensures Pow2(w) >= Pow2(k) && And(a, Pow2(w) - Pow2(k)) == a / Pow2(k) * Pow2(k)
  {
    Pow2Monotone(k, w);
    if k == 0 {
      AndAllOnes(a, w);
    } else {
      var p, v := Pow2(k - 1), Pow2(w - 1);
      AndHighOnes(a / 2, k - 1, w - 1);
      AndEven(a, v - p);
      assert Pow2(w) - Pow2(k) == 2 * (v - p);
      DoubleBlock(a, p);
    }
  }

  /** The mask of a prefix holds ones above the lowest `k` bits. */
  lemma MaskIsHighOnes(k: nat)
    requires k <= 32
    ensures 0x1_0000_0000 >= Pow2(k) && ShiftLeft(ALL_ONES, k) == 0x1_0000_0000 - Pow2(k)
  {
    SmallBelowPow2();
    Pow2Monotone(k, 32);
    var p := Pow2(k);
    assert ALL_ONES * p == (p - 1) * 0x1_0000_0000 + (0x1_0000_0000 - p);
    DivUnique(ALL_ONES * p, 0x1_0000_0000, p - 1);
  }

  lemma DivMulBounds(n: nat, m: nat)
    requires m >= 1
    ensures n / m * m <= n < n / m * m + m
  {
  }

  /** Two numbers have the same multiple of `m` below them exactly when one lies in the other's block. */
  lemma SameBlock(a: nat, b: nat, m: nat)
    requires m >= 1
    ensures a / m * m == b / m * m <==> b / m * m <= a < b / m * m + m
  {
    DivMulBounds(a, m);
    var p, q := a / m, b / m;
    if p < q {
      MulMonotone(p + 1, q, m);
    } else if p > q {
      MulMonotone(q + 1, p, m);
    }
  }

  lemma MulMonotone(a: nat, b: nat, m: nat)
    requires a <= b
    ensures a * m <= b * m
    ensures a * m == (a - 1) * m + m
  {
  }

  lemma {:induction false} SmallBelowPow2()
    ensures Pow2(32) == 0x1_0000_0000
  {
    assert Pow2(8) == 256;
    assert Pow2(16) == 65536 by { assert Pow2(12) == 4096; }
    assert Pow2(24) == 16777216 by { assert Pow2(20) == 1048576; }
    assert Pow2(28) == 268435456;
  }

  lemma MaskedIsBlockBase(ip: Ipv4, k: nat)
    requires k <= 32
    ensures And(ip, ShiftLeft(ALL_ONES, k)) == ip / Pow2(k) * Pow2(k)
  {
    SmallBelowPow2();
    MaskIsHighOnes(k);
    AndHighOnes(ip, k, 32);
  }

  /** A prefix matches exactly one contiguous block of addresses, of the size the prefix leaves
      (section 3.1 of RFC 4632). The zero-length prefix, handled by a branch of its own because the
      shift would overflow, is the block of all addresses. */
  lemma CidrIsBlock(ip: Ipv4, network: Ipv4, prefixLen: PrefixLen)
    ensures var size := Pow2(32 - prefixLen); var base := network / size * size;
            IpMatchesCidr(ip, Block(network, prefixLen)) <==> base <= ip < base + size
  {
    var k := 32 - prefixLen;
    MaskedIsBlockBase(ip, k);
    MaskedIsBlockBase(network, k);
    SameBlock(ip, network, Pow2(k));
    if prefixLen == 0 {
      SmallBelowPow2();
      NothingBelow(network, 0x1_0000_0000);
    }
  }

  lemma NothingBelow(n: nat, m: nat)
    requires n < m
    ensures n / m * m == 0
  {
  }

  predicate PortInRange(port: Port, range: Option<PortRange>) {
    range.Some? ==> range.value.lo <= port <= range.value.hi
  }

  predicate MatchesRule(rule: Rule, t: FiveTuple) {
    && (rule.srcCidr.Some? ==> IpMatchesCidr(t.srcIp, rule.srcCidr.value))
    && (rule.dstCidr.Some? ==> IpMatchesCidr(t.dstIp, rule.dstCidr.value))
    && PortInRange(t.srcPort, rule.srcPorts)
    && PortInRange(t.dstPort, rule.dstPorts)
    && (rule.protocol.Some? ==> t.protocol == rule.protocol.value)
  }

  function PriorityOf(): Rule -> int {
    (r: Rule) => r.priority
  }

  function HitBy(t: FiveTuple): Rule -> bool {
    (r: Rule) => MatchesRule(r, t)
  }

  // ---------------------------------------------------------------- evaluation

  /** The verdict of an engine holding `sorted`. */
  function Evaluate(sorted: seq<Rule>, t: FiveTuple): Verdict {
    var i := FirstHit(sorted, HitBy(t));
    if i < |sorted| then Verdict(sorted[i].action, sorted[i].offloadEligible, Some(i))
    else Verdict(Deny, false, None)
  }

  // ---------------------------------------------------------------- what a rule is about

  /** The address lies in the block of addresses that the CIDR names, if one is given. */
  predicate InBlock(address: Ipv4, cidr: Option<Cidr>) {
    cidr.None? ||
    match cidr.value
    case Malformed => false
    case Block(network, prefixLen) =>
      var size := Pow2(32 - prefixLen);
      var base := network / size * size;
      base <= address < base + size
  }

  /** The tuple agrees with every field that the rule gives. */
  predicate Agrees(rule: Rule, t: FiveTuple) {
    && InBlock(t.srcIp, rule.srcCidr)
    && InBlock(t.dstIp, rule.dstCidr)
    && (rule.srcPorts.Some? ==> rule.srcPorts.value.lo <= t.srcPort <= rule.srcPorts.value.hi)
    && (rule.dstPorts.Some? ==> rule.dstPorts.value.lo <= t.dstPort <= rule.dstPorts.value.hi)
    && (rule.protocol.Some? ==> rule.protocol.value == t.protocol)
  }

  lemma MatchesExactly(rule: Rule, t: FiveTuple)
    ensures MatchesRule(rule, t) <==> Agrees(rule, t)
  {
    CidrAgrees(t.srcIp, rule.srcCidr);
    CidrAgrees(t.dstIp, rule.dstCidr);
  }

  lemma CidrAgrees(address: Ipv4, cidr: Option<Cidr>)
    ensures (cidr.Some? ==> IpMatchesCidr(address, cidr.value)) <==> InBlock(address, cidr)
  {
    if cidr.Some? && cidr.value.Block? {
      CidrIsBlock(address, cidr.value.network, cidr.value.prefixLen);
    }
  }

  /** The rule at `i` agrees with the tuple, and every other that does has a greater priority number, or
      the same and stands later. */
  ghost predicate Decides(rules: seq<Rule>, t: FiveTuple, i: nat) {
    && i < |rules| && Agrees(rules[i], t)
    && forall j :: 0 <= j < |rules| && Agrees(rules[j], t) ==>
         rules[i].priority < rules[j].priority || (rules[i].priority == rules[j].priority && i <= j)
  }

  /** The verdict an engine built from `rules` must give: that of the agreeing rule of least
      (priority, position) in the given list, and deny when none agrees. */
  lemma EvaluateIsLeastMatch(rules: seq<Rule>, t: FiveTuple)
    ensures var v := Evaluate(StableSort(rules, PriorityOf()), t);
      match Best(rules, PriorityOf(), HitBy(t))
      case Some(i) =>
        && Decides(rules, t, i)
        && v.action == rules[i].action && v.offloadEligible == rules[i].offloadEligible
        && v.ruleIndex.Some? && StableSort(rules, PriorityOf())[v.ruleIndex.value] == rules[i]
      case None =>
        && (forall j :: 0 <= j < |rules| ==> !Agrees(rules[j], t))
        && v == Verdict(Deny, false, None)
  {
    SortedFirstRuleIsBest(rules, PriorityOf(), HitBy(t));
    BestDecides(rules, t);
  }

  lemma HitsAgree(rules: seq<Rule>, t: FiveTuple)
    ensures forall j :: 0 <= j < |rules| ==> (HitBy(t)(rules[j]) <==> Agrees(rules[j], t))
  {
    forall j | 0 <= j < |rules|
      ensures HitBy(t)(rules[j]) <==> Agrees(rules[j], t)
    {
      MatchesExactly(rules[j], t);
    }
  }

  lemma BestDecides(rules: seq<Rule>, t: FiveTuple)
    ensures match Best(rules, PriorityOf(), HitBy(t))
            case Some(i) => Decides(rules, t, i)
            case None => forall j :: 0 <= j < |rules| ==> !Agrees(rules[j], t)
  {
    BestIsWinner(rules, PriorityOf(), HitBy(t));
    HitsAgree(rules, t);
  }

  /** An engine of one rule gives that rule's verdict exactly when the source lies in the source block,
      the destination in the destination block, and ports and protocol are the rule's. */
  lemma OneRuleDecides(rule: Rule, t: FiveTuple)
    requires rule.srcCidr.Some? ==> rule.srcCidr.value.Block?
    requires rule.dstCidr.Some? ==> rule.dstCidr.value.Block?
    ensures Evaluate([rule], t) ==
      if (rule.srcCidr.Some? ==>
            var size := Pow2(32 - rule.srcCidr.value.prefixLen);
            var base := rule.srcCidr.value.network / size * size;
            base <= t.srcIp < base + size)
         && (rule.dstCidr.Some? ==>
               var size := Pow2(32 - rule.dstCidr.value.prefixLen);
               var base := rule.dstCidr.value.network / size * size;
               base <= t.dstIp < base + size)
         && (rule.srcPorts.Some? ==> rule.srcPorts.value.lo <= t.srcPort <= rule.srcPorts.value.hi)
         && (rule.dstPorts.Some? ==> rule.dstPorts.value.lo <= t.dstPort <= rule.dstPorts.value.hi)
         && (rule.protocol.Some? ==> rule.protocol.value == t.protocol)
      then Verdict(rule.action, rule.offloadEligible, Some(0))
      else Verdict(Deny, false, None)
  {
    MatchesExactly(rule, t);
    assert [rule][0] == rule && [rule][1..] == [];
  }

  class Engine {
    const rules: seq<Rule>

    /** The source sorts with the library's stable sort; `StableSortIsUnique` says there is no other. */
    constructor (rules: seq<Rule>)
      ensures this.rules == StableSort(rules, PriorityOf())
      ensures multiset(this.rules) == multiset(rules)
      ensures forall i, j :: 0 <= i < j < |this.rules| ==> this.rules[i].priority <= this.rules[j].priority
    {
      SortSorts(rules, PriorityOf());
      SortPermutes(rules, PriorityOf());
      this.rules := StableSort(rules, PriorityOf());
    }

    /** The first rule that agrees with the tuple decides; without one it is denied. */
    method EvaluatePacket(t: FiveTuple) returns (v: Verdict)
      ensures v == Evaluate(rules, t)
      ensures match v.ruleIndex
              case Some(i) =>
                && i < |rules| && Agrees(rules[i], t) && (forall j :: 0 <= j < i ==> !Agrees(rules[j], t))
                && v.action == rules[i].action && v.offloadEligible == rules[i].offloadEligible
              case None =>
                && (forall j :: 0 <= j < |rules| ==> !Agrees(rules[j], t))
                && v.action == Deny && !v.offloadEligible
    {
      var idx := 0;
      while idx < |rules|
        invariant idx <= |rules|
        invariant forall j :: 0 <= j < idx ==> !MatchesRule(rules[j], t) && !Agrees(rules[j], t)
      {
        MatchesExactly(rules[idx], t);
        if MatchesRule(rules[idx], t) {
          FirstHitAt(rules, HitBy(t), idx);
          return Verdict(rules[idx].action, rules[idx].offloadEligible, Some(idx));
        }
        idx := idx + 1;
      }
      return Verdict(Deny, false, None);
    }
  }

  lemma FirstHitAt(rules: seq<Rule>, hits: Rule -> bool, i: nat)
    requires i < |rules| && hits(rules[i])
    requires forall j :: 0 <= j < i ==> !hits(rules[j])
    ensures FirstHit(rules, hits) == i
  {
  }
}
