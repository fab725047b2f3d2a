/** The text keys of the session table: how the datapath renders a flow, and why distinct flows
    never share a key. */
module SessionKeys {
  import opened Prelude
  import opened AclEngine
  import opened Text

  datatype SessionKey = SessionKey(
    vni: nat, srcIp: string, dstIp: string, srcPort: nat, dstPort: nat, protocol: int)

  /** A flow as the datapath knows it. */
  datatype Flow = Flow(vni: nat, tuple: FiveTuple)

  // ---------------------------------------------------------------- rendering

  function Octets(ip: Ipv4): seq<string> {
    [Decimal(ip / 0x100_0000), Decimal(ip / 0x1_0000 % 0x100), Decimal(ip / 0x100 % 0x100), Decimal(ip % 0x100)]
  }

  function DottedQuad(ip: Ipv4): string {
    Join(Octets(ip), '.')
  }

  /** The wire protocol number: TCP, UDP and ICMP have one each, everything else shares one. */
  function WireProtocol(protocol: Protocol): nat {
    match protocol
    case 6 => 1
    case 17 => 2
    case 1 => 3
    case _ => 0
  }

  function ToSessionKey(f: Flow): SessionKey {
    SessionKey(f.vni, DottedQuad(f.tuple.srcIp), DottedQuad(f.tuple.dstIp),
               f.tuple.srcPort, f.tuple.dstPort, WireProtocol(f.tuple.protocol))
  }

  function KeyParts(key: SessionKey): seq<string> {
    [Decimal(key.vni), key.srcIp, key.dstIp, Decimal(key.srcPort), Decimal(key.dstPort), Numeral(key.protocol)]
  }

  function KeyString(key: SessionKey): string {
    Join(KeyParts(key), ':')
  }

  /** Swaps the two ends of a session. */
  function ReverseKey(key: SessionKey): SessionKey {
    SessionKey(key.vni, key.dstIp, key.srcIp, key.dstPort, key.srcPort, key.protocol)
  }

  function ReverseFlow(f: Flow): Flow {
    Flow(f.vni, FiveTuple(f.tuple.dstIp, f.tuple.srcIp, f.tuple.dstPort, f.tuple.srcPort, f.tuple.protocol))
  }

  // ---------------------------------------------------------------- reading back

  lemma OctetsHoldOnlyDigits(ip: Ipv4, c: char)
    requires !IsDigit(c)
    ensures forall i :: 0 <= i < |Octets(ip)| ==> c !in Octets(ip)[i]
  {
    DecimalIsDigits(ip / 0x100_0000);
    DecimalIsDigits(ip / 0x1_0000 % 0x100);
    DecimalIsDigits(ip / 0x100 % 0x100);
    DecimalIsDigits(ip % 0x100);
  }

  lemma DottedQuadHasNoColon(ip: Ipv4)
    ensures ':' !in DottedQuad(ip)
  {
    OctetsHoldOnlyDigits(ip, ':');
    if ':' in DottedQuad(ip) {
      JoinChars(Octets(ip), '.', ':');
    }
  }

  lemma DivTwice(n: nat)
    ensures n / 0x1_0000 == n / 0x100 / 0x100
  {
  }

  lemma LowByte(n: nat)
    ensures n == n / 0x100 * 0x100 + n % 0x100
  {
  }

  lemma FourBytes(ip: Ipv4)
    ensures ip == ip / 0x100_0000 * 0x100_0000 + ip / 0x1_0000 % 0x100 * 0x1_0000
                  + ip / 0x100 % 0x100 * 0x100 + ip % 0x100
  {
    var high, higher := ip / 0x100, ip / 0x1_0000;
    DivTwice(ip);
    DivTwice(high);
    LowByte(ip);
    LowByte(high);
    LowByte(higher);
    assert high / 0x1_0000 == ip / 0x100_0000;
  }

  lemma DottedQuadInjective(a: Ipv4, b: Ipv4)
    requires DottedQuad(a) == DottedQuad(b)
    ensures a == b
  {
    OctetsHoldOnlyDigits(a, '.');
    OctetsHoldOnlyDigits(b, '.');
    JoinInjective(Octets(a), Octets(b), '.');
    var x, y := Octets(a), Octets(b);
    assert x[0] == y[0] && x[1] == y[1] && x[2] == y[2] && x[3] == y[3];
    DecimalInjective(a / 0x100_0000, b / 0x100_0000);
    DecimalInjective(a / 0x1_0000 % 0x100, b / 0x1_0000 % 0x100);
    DecimalInjective(a / 0x100 % 0x100, b / 0x100 % 0x100);
    DecimalInjective(a % 0x100, b % 0x100);
    FourBytes(a);
    FourBytes(b);
  }

  /** The two addresses as they stand in the key string. */
  function Addresses(key: SessionKey): string {
    key.srcIp + ":" + key.dstIp
  }

  lemma FirstThree(key: SessionKey)
    ensures Join(KeyParts(key)[..3], ':') == Decimal(key.vni) + [':'] + Addresses(key)
  {
    JoinStep(Decimal(key.vni), [key.srcIp, key.dstIp], ':');
    JoinStep(key.srcIp, [key.dstIp], ':');
    assert KeyParts(key)[..3] == [Decimal(key.vni)] + ([key.srcIp] + [key.dstIp]);
  }

  /** Two keys share a string exactly when they agree in all numbers and their addresses, joined by
      a colon, read the same. */
  lemma KeyStringsCollideExactly(a: SessionKey, b: SessionKey)
    ensures KeyString(a) == KeyString(b) <==>
      && a.vni == b.vni && a.srcPort == b.srcPort && a.dstPort == b.dstPort && a.protocol == b.protocol
      && Addresses(a) == Addresses(b)
  {
    NumbersHaveNoColon(a);
    NumbersHaveNoColon(b);
    var x, y := KeyParts(a), KeyParts(b);
    JoinsEqualExactly(x, y, 3, ':');
    FirstThree(a);
    FirstThree(b);
    if KeyString(a) == KeyString(b) {
      SplitAtFirst(Decimal(a.vni), Addresses(a), Decimal(b.vni), Addresses(b), ':');
      assert x[3..][0] == y[3..][0] && x[3..][1] == y[3..][1] && x[3..][2] == y[3..][2];
      DecimalInjective(a.vni, b.vni);
      DecimalInjective(a.srcPort, b.srcPort);
      DecimalInjective(a.dstPort, b.dstPort);
      NumeralInjective(a.protocol, b.protocol);
    }
  }

  lemma NumbersHaveNoColon(key: SessionKey)
    ensures ':' !in Decimal(key.vni) && ':' !in Decimal(key.srcPort)
    ensures ':' !in Decimal(key.dstPort) && ':' !in Numeral(key.protocol)
  {
    DecimalIsDigits(key.vni);
    DecimalIsDigits(key.srcPort);
    DecimalIsDigits(key.dstPort);
    NumeralChars(key.protocol);
  }

  predicate NoColons(key: SessionKey) {
    ':' !in key.srcIp && ':' !in key.dstIp
  }

  /** Among keys whose addresses hold no colon, the key string determines the key. */
  lemma KeyStringInjective(a: SessionKey, b: SessionKey)
    requires NoColons(a) && NoColons(b)
    requires KeyString(a) == KeyString(b)
    ensures a == b
  {
    KeyStringsCollideExactly(a, b);
    SplitAtFirst(a.srcIp, a.dstIp, b.srcIp, b.dstIp, ':');
  }

  /** Two sessions between different IPv6 addresses share a string. */
  lemma ColonsCollide(vni: nat, srcPort: nat, dstPort: nat, protocol: int)
    ensures var a, b := SessionKey(vni, "2001:db8::2", "3:4::5", srcPort, dstPort, protocol),
                        SessionKey(vni, "2001:db8::2:3", "4::5", srcPort, dstPort, protocol);
            a != b && KeyString(a) == KeyString(b)
  {
    var a, b := SessionKey(vni, "2001:db8::2", "3:4::5", srcPort, dstPort, protocol),
                SessionKey(vni, "2001:db8::2:3", "4::5", srcPort, dstPort, protocol);
    assert |a.srcIp| != |b.srcIp|;
    assert Addresses(a) == "2001:db8::2:3:4::5" == Addresses(b);
    KeyStringsCollideExactly(a, b);
  }

  /** The key string of a flow. */
  function FlowString(f: Flow): string {
    KeyString(ToSessionKey(f))
  }

  /** Two flows share a key string exactly when they differ at most in the protocol, and then only
      between protocols the wire format does not tell apart. */
  lemma FlowStringsCollideExactly(f: Flow, g: Flow)
    ensures FlowString(f) == FlowString(g) <==>
              g == f.(tuple := f.tuple.(protocol := g.tuple.protocol))
              && WireProtocol(f.tuple.protocol) == WireProtocol(g.tuple.protocol)
  {
    if FlowString(f) == FlowString(g) {
      DottedQuadHasNoColon(f.tuple.srcIp);
      DottedQuadHasNoColon(f.tuple.dstIp);
      DottedQuadHasNoColon(g.tuple.srcIp);
      DottedQuadHasNoColon(g.tuple.dstIp);
      KeyStringInjective(ToSessionKey(f), ToSessionKey(g));
      DottedQuadInjective(f.tuple.srcIp, g.tuple.srcIp);
      DottedQuadInjective(f.tuple.dstIp, g.tuple.dstIp);
    }
  }

  /** The text of an address is its four bytes in decimal, highest first, with dots between them. */
  lemma DottedQuadReads(a: nat, b: nat, c: nat, d: nat)
    requires a < 0x100 && b < 0x100 && c < 0x100 && d < 0x100
    ensures DottedQuad(a * 0x100_0000 + b * 0x1_0000 + c * 0x100 + d)
         == Decimal(a) + "." + Decimal(b) + "." + Decimal(c) + "." + Decimal(d)
  {
    BytesOf(a, b, c, d);
    JoinFour(Decimal(a), Decimal(b), Decimal(c), Decimal(d));
  }

  lemma JoinFour(a: string, b: string, c: string, d: string)
    ensures Join([a, b, c, d], '.') == a + "." + b + "." + c + "." + d
  {
    JoinStep(a, [b, c, d], '.');
    JoinStep(b, [c, d], '.');
    JoinStep(c, [d], '.');
    assert [a, b, c, d] == [a] + [b, c, d] && [b, c, d] == [b] + [c, d] && [c, d] == [c] + [d];
    assert a + ['.'] + (b + ['.'] + (c + ['.'] + d)) == a + "." + b + "." + c + "." + d;
  }

  lemma BytesOf(a: nat, b: nat, c: nat, d: nat)
    requires a < 0x100 && b < 0x100 && c < 0x100 && d < 0x100
    ensures var ip := a * 0x100_0000 + b * 0x1_0000 + c * 0x100 + d;
      ip / 0x100_0000 == a && ip / 0x1_0000 % 0x100 == b && ip / 0x100 % 0x100 == c && ip % 0x100 == d
  {
    var ip := a * 0x100_0000 + b * 0x1_0000 + c * 0x100 + d;
    assert ip / 0x100 == a * 0x1_0000 + b * 0x100 + c;
    assert ip / 0x1_0000 == a * 0x100 + b;
  }

  /** The key string of a flow, part by part: network, source and destination address, source and
      destination port, and 1 for TCP, 2 for UDP, 3 for ICMP, 0 for anything else. */
  lemma FlowStringReads(f: Flow)
    ensures FlowString(f) == Decimal(f.vni) + ":" + DottedQuad(f.tuple.srcIp) + ":" + DottedQuad(f.tuple.dstIp)
      + ":" + Decimal(f.tuple.srcPort) + ":" + Decimal(f.tuple.dstPort)
      + ":" + (if f.tuple.protocol == 6 then "1" else if f.tuple.protocol == 17 then "2"
               else if f.tuple.protocol == 1 then "3" else "0")
  {
    var vni, src, dst := Decimal(f.vni), DottedQuad(f.tuple.srcIp), DottedQuad(f.tuple.dstIp);
    var sp, dp := Decimal(f.tuple.srcPort), Decimal(f.tuple.dstPort);
    var proto := Numeral(WireProtocol(f.tuple.protocol));
    JoinStep(vni, [src, dst, sp, dp, proto], ':');
    JoinStep(src, [dst, sp, dp, proto], ':');
    JoinStep(dst, [sp, dp, proto], ':');
    JoinStep(sp, [dp, proto], ':');
    JoinStep(dp, [proto], ':');
    assert KeyParts(ToSessionKey(f)) == [vni] + ([src] + ([dst] + ([sp] + ([dp] + [proto]))));
    assert [vni] + [src, dst, sp, dp, proto] == KeyParts(ToSessionKey(f));
    RightNested(vni, src, dst, sp, dp, proto);
    WireTexts(f.tuple.protocol);
  }

  lemma RightNested(a: string, b: string, c: string, d: string, e: string, f: string)
    ensures a + [':'] + (b + [':'] + (c + [':'] + (d + [':'] + (e + [':'] + f))))
         == a + ":" + b + ":" + c + ":" + d + ":" + e + ":" + f
  {
  }

  lemma WireTexts(protocol: Protocol)
    ensures Numeral(WireProtocol(protocol)) ==
      if protocol == 6 then "1" else if protocol == 17 then "2" else if protocol == 1 then "3" else "0"
  {
  }

  /** The flow's protocol has a wire number of its own. */
  predicate Supported(f: Flow): (r: bool)
    ensures r <==> WireProtocol(f.tuple.protocol) != 0
  {
    f.tuple.protocol == 6 || f.tuple.protocol == 17 || f.tuple.protocol == 1
  }

  lemma SupportedFlowsHaveDistinctKeys(f: Flow, g: Flow)
    requires Supported(f) && Supported(g) && f != g
    ensures FlowString(f) != FlowString(g)
  {
    FlowStringsCollideExactly(f, g);
  }

  /** The restriction is needed: two protocols without a wire number of their own collide. */
  lemma OtherProtocolsCollide(f: Flow)
    ensures FlowString(f.(tuple := f.tuple.(protocol := 47))) == FlowString(f.(tuple := f.tuple.(protocol := 50)))
  {
  }

  // ---------------------------------------------------------------- a table keyed by flow

  /** The text-keyed table holds, for every supported flow, what the flow-keyed table holds. */
  ghost predicate Represents<E>(table: map<string, E>, flows: map<Flow, E>) {
    && (forall f :: f in flows ==> Supported(f))
    && (forall f :: Supported(f) ==> (f in flows <==> FlowString(f) in table))
    && (forall f :: f in flows ==> table[FlowString(f)] == flows[f])
  }

  /** Inserting and removing by key string acts on one flow only. */
  lemma TableRefinesFlowMap<E>(table: map<string, E>, flows: map<Flow, E>, f: Flow, e: E)
    requires Represents(table, flows) && Supported(f)
    ensures Represents(table[FlowString(f) := e], flows[f := e])
    ensures Represents(table - {FlowString(f)}, flows - {f})
  {
    InsertRefines(table, flows, f, e);
    RemoveRefines(table, flows, f);
  }

  lemma OthersHaveOtherKeys(f: Flow)
    requires Supported(f)
    ensures forall g :: Supported(g) && g != f ==> FlowString(g) != FlowString(f)
  {
    forall g | Supported(g) && g != f
      ensures FlowString(g) != FlowString(f)
    {
      SupportedFlowsHaveDistinctKeys(f, g);
    }
  }

  lemma InsertRefines<E>(table: map<string, E>, flows: map<Flow, E>, f: Flow, e: E)
    requires Represents(table, flows) && Supported(f)
    ensures Represents(table[FlowString(f) := e], flows[f := e])
  {
    OthersHaveOtherKeys(f);
  }

  lemma RemoveRefines<E>(table: map<string, E>, flows: map<Flow, E>, f: Flow)
    requires Represents(table, flows) && Supported(f)
    ensures Represents(table - {FlowString(f)}, flows - {f})
  {
    OthersHaveOtherKeys(f);
  }

  /** The daemon's reverse key is the key of the reversed flow. */
  lemma ReverseKeyIsReverseFlow(f: Flow)
    ensures ReverseKey(ToSessionKey(f)) == ToSessionKey(ReverseFlow(f))
    ensures ReverseKey(ReverseKey(ToSessionKey(f))) == ToSessionKey(f)
  {
  }
}
