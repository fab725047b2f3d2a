/** The signature text of a firewall rule: what is joined and hashed to recognise an equivalent
    request, and which different requests share a text. */
module RuleSignatures {
  import opened Prelude
  import opened Text
  import opened TcFilters

  datatype Protocol = Tcp | Udp | Icmp | Any

  datatype Action = Allow | Deny

  /** What a signature is made of: a tenant and what its rule says. */
  datatype Subject = Subject(tenant: string, fields: Fields, protocol: Protocol, action: Action, priority: int)

  function TextOr(s: Option<string>): string {
    if s.Some? then s.value else ""
  }

  function PortOr(n: Option<int>): int {
    if n.Some? then n.value else 0
  }

  /** An absent port and port 0 are both left out. */
  function PortText(n: Option<int>): string {
    if PortOr(n) == 0 then "" else Numeral(PortOr(n))
  }

  function ProtocolName(p: Protocol): string {
    match p
    case Tcp => "tcp"
    case Udp => "udp"
    case Icmp => "icmp"
    case Any => "any"
  }

  function ActionName(a: Action): string {
    match a
    case Allow => "ALLOW"
    case Deny => "DENY"
  }

  function Parts(x: Subject): seq<string> {
    [x.tenant, TextOr(x.fields.src), TextOr(x.fields.dst), PortText(x.fields.srcPort), PortText(x.fields.dstPort),
     ProtocolName(x.protocol), ActionName(x.action), Numeral(x.priority)]
  }

  function SignatureOf(x: Subject): string {
    Join(Parts(x), '|')
  }

  // ---------------------------------------------------------------- when two texts are equal

  /** Tenant and addresses as they stand in the text. */
  function Origin(x: Subject): string {
    x.tenant + "|" + TextOr(x.fields.src) + "|" + TextOr(x.fields.dst)
  }

  /** Neither port is given, where 0 counts as not given, or both are and they are equal. */
  predicate SamePort(m: Option<int>, n: Option<int>) {
    if m.None? || m.value == 0 then n.None? || n.value == 0 else n == m
  }

  /** Everything else is the same, and tenant and addresses read the same when joined. */
  predicate ReadsAlike(x: Subject, y: Subject) {
    && SamePort(x.fields.srcPort, y.fields.srcPort) && SamePort(x.fields.dstPort, y.fields.dstPort)
    && x.protocol == y.protocol && x.action == y.action && x.priority == y.priority
    && Origin(x) == Origin(y)
  }

  lemma FirstThree(x: Subject)
    ensures Join(Parts(x)[..3], '|') == Origin(x)
  {
    var src, dst := TextOr(x.fields.src), TextOr(x.fields.dst);
    JoinStep(x.tenant, [src, dst], '|');
    JoinStep(src, [dst], '|');
    assert Parts(x)[..3] == [x.tenant] + ([src] + [dst]);
  }

  lemma PortTextInjective(m: Option<int>, n: Option<int>)
    ensures PortText(m) == PortText(n) <==> SamePort(m, n)
    ensures '|' !in PortText(m)
  {
    NumeralChars(PortOr(m));
    NumeralChars(PortOr(n));
    if PortText(m) == PortText(n) && PortOr(m) != 0 {
      NumeralInjective(PortOr(m), PortOr(n));
    }
  }

  lemma NamesInjective(p: Protocol, q: Protocol, a: Action, b: Action)
    ensures ProtocolName(p) == ProtocolName(q) <==> p == q
    ensures ActionName(a) == ActionName(b) <==> a == b
    ensures '|' !in ProtocolName(p) && '|' !in ActionName(a)
  {
    assert ProtocolName(p)[0] == ProtocolName(q)[0] <==> p == q;
    assert ActionName(a)[0] == ActionName(b)[0] <==> a == b;
  }

  lemma LastFiveHaveNoBar(x: Subject)
    ensures forall i :: 3 <= i < 8 ==> '|' !in Parts(x)[i]
  {
    PortTextInjective(x.fields.srcPort, x.fields.srcPort);
    PortTextInjective(x.fields.dstPort, x.fields.dstPort);
    NamesInjective(x.protocol, x.protocol, x.action, x.action);
    NumeralChars(x.priority);
  }

  lemma LastFiveInjective(x: Subject, y: Subject)
    ensures Parts(x)[3..] == Parts(y)[3..] <==>
      && SamePort(x.fields.srcPort, y.fields.srcPort) && SamePort(x.fields.dstPort, y.fields.dstPort)
      && x.protocol == y.protocol && x.action == y.action && x.priority == y.priority
  {
    PortTextInjective(x.fields.srcPort, y.fields.srcPort);
    PortTextInjective(x.fields.dstPort, y.fields.dstPort);
    NamesInjective(x.protocol, y.protocol, x.action, y.action);
    var a, b := Parts(x)[3..], Parts(y)[3..];
    if a == b {
      assert a[0] == b[0] && a[1] == b[1] && a[2] == b[2] && a[3] == b[3] && a[4] == b[4];
      NumeralInjective(x.priority, y.priority);
    }
  }

  /** Two subjects share a text exactly when they agree in ports, protocol, action and priority, and
      tenant, source and destination, joined by bars, read the same. */
  lemma SignaturesEqualExactly(x: Subject, y: Subject)
    ensures SignatureOf(x) == SignatureOf(y) <==> ReadsAlike(x, y)
  {
    LastFiveHaveNoBar(x);
    LastFiveHaveNoBar(y);
    JoinsEqualExactly(Parts(x), Parts(y), 3, '|');
    FirstThree(x);
    FirstThree(y);
    LastFiveInjective(x, y);
  }

  /** The text, part by part: tenant, addresses, ports (left out when absent or 0), protocol, action and
      priority, joined by bars. */
  lemma SignatureReads(x: Subject)
    ensures SignatureOf(x) ==
      x.tenant + "|" + (if x.fields.src.Some? then x.fields.src.value else "") + "|"
      + (if x.fields.dst.Some? then x.fields.dst.value else "") + "|"
      + (if x.fields.srcPort.Some? && x.fields.srcPort.value != 0 then Numeral(x.fields.srcPort.value) else "") + "|"
      + (if x.fields.dstPort.Some? && x.fields.dstPort.value != 0 then Numeral(x.fields.dstPort.value) else "") + "|"
      + (if x.protocol == Tcp then "tcp" else if x.protocol == Udp then "udp" else if x.protocol == Icmp then "icmp" else "any")
      + "|" + (if x.action == Allow then "ALLOW" else "DENY") + "|" + Numeral(x.priority)
  {
    JoinEight(x.tenant, TextOr(x.fields.src), TextOr(x.fields.dst), PortText(x.fields.srcPort), PortText(x.fields.dstPort),
              ProtocolName(x.protocol), ActionName(x.action), Numeral(x.priority));
  }

  lemma JoinEight(a: string, b: string, c: string, d: string, e: string, f: string, g: string, h: string)
    ensures Join([a, b, c, d, e, f, g, h], '|')
         == a + "|" + b + "|" + c + "|" + d + "|" + e + "|" + f + "|" + g + "|" + h
  {
    JoinSnoc([a], b, '|');
    JoinSnoc([a, b], c, '|');
    JoinSnoc([a, b, c], d, '|');
    JoinSnoc([a, b, c, d], e, '|');
    JoinSnoc([a, b, c, d, e], f, '|');
    JoinSnoc([a, b, c, d, e, f], g, '|');
    JoinSnoc([a, b, c, d, e, f, g], h, '|');
    assert [a] + [b] == [a, b] && [a, b] + [c] == [a, b, c] && [a, b, c] + [d] == [a, b, c, d];
    assert [a, b, c, d] + [e] == [a, b, c, d, e] && [a, b, c, d, e] + [f] == [a, b, c, d, e, f];
    assert [a, b, c, d, e, f] + [g] == [a, b, c, d, e, f, g] && [a, b, c, d, e, f, g] + [h] == [a, b, c, d, e, f, g, h];
  }

  /** Tenant and addresses hold no bar. */
  predicate NoBars(x: Subject) {
    '|' !in x.tenant && '|' !in TextOr(x.fields.src) && '|' !in TextOr(x.fields.dst)
  }

  /** A subject without bars shares its text only with those of the same tenant and addresses. */
  lemma NoBarsNoMixup(x: Subject, y: Subject)
    requires NoBars(x) && SignatureOf(x) == SignatureOf(y)
    ensures x.tenant == y.tenant
    ensures TextOr(x.fields.src) == TextOr(y.fields.src) && TextOr(x.fields.dst) == TextOr(y.fields.dst)
  {
    SignaturesEqualExactly(x, y);
    var a, b := [x.tenant, TextOr(x.fields.src), TextOr(x.fields.dst)], [y.tenant, TextOr(y.fields.src), TextOr(y.fields.dst)];
    assert Parts(x)[..3] == a && Parts(y)[..3] == b;
    FirstThree(x);
    FirstThree(y);
    JoinOfCleanIsOwn(a, b, '|');
    assert a[0] == b[0] && a[1] == b[1] && a[2] == b[2];
  }
}
