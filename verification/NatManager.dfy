/** The NAT rules of tc-firewall: a dictionary of entries, its signature index, and the two filter
    bands (priority 20) that removal flushes and renders anew. */
module NatManager {
  import opened Prelude
  import opened Text
  import opened TcFilters

  /** What a NAT rule says. Its signature text holds exactly this, without the SNAT mode. */
  datatype NatSpec =
    | Snat(privateIp: string, publicIp: string)
    | Dnat(publicIp: string, publicPort: int, privateIp: string, privatePort: int, protocol: string)
    | PortForward(publicIp: string, publicPort: int, privateIp: string, privatePort: int, protocol: string)

  datatype NatEntry = NatEntry(id: string, spec: NatSpec, mode: string, tenant: Option<string>)

  datatype Rewrite = SetSrc(ip: string) | SetDst(ip: string) | SetDstPort(protocol: string, port: int)

  /** A filter of the NAT band: what it matches and what it rewrites before redirecting. */
  datatype NatFilter = NatFilter(keys: seq<FilterKey>, rewrites: seq<Rewrite>)

  /** `order` is the insertion order of the dictionary of entries. */
  datatype Nat = Nat(
    db: map<string, NatEntry>,
    order: seq<string>,
    index: map<string, string>,
    clientBand: seq<NatFilter>,
    internetBand: seq<NatFilter>)

  const NO_NAT := Nat(map[], [], map[], [], [])

  datatype NatReply = InvalidMode | PoolExhausted | CommandFailed | Accepted(id: string)

  // ---------------------------------------------------------------- the signature text

  function NatParts(spec: NatSpec): seq<string> {
    match spec
    case Snat(privateIp, publicIp) => ["snat", privateIp, publicIp]
    case Dnat(publicIp, publicPort, privateIp, privatePort, protocol) =>
      ["dnat", publicIp, Numeral(publicPort), privateIp, Numeral(privatePort), protocol]
    case PortForward(publicIp, publicPort, privateIp, privatePort, protocol) =>
      ["forward", publicIp, Numeral(publicPort), privateIp, Numeral(privatePort), protocol]
  }

  function NatText(spec: NatSpec): string {
    Join(NatParts(spec), '|')
  }

  /** The kind is the text up to the first bar. */
  lemma NatKind(spec: NatSpec)
    ensures NatText(spec) == NatParts(spec)[0] + ['|'] + Join(NatParts(spec)[1..], '|')
    ensures '|' !in NatParts(spec)[0]
  {
    assert NatParts(spec) == [NatParts(spec)[0]] + NatParts(spec)[1..];
    JoinStep(NatParts(spec)[0], NatParts(spec)[1..], '|');
  }

  lemma KindsDiffer(a: NatSpec, b: NatSpec)
    requires NatParts(a)[0] == NatParts(b)[0]
    ensures |NatParts(a)| == |NatParts(b)| && (a.Snat? <==> b.Snat?) && (a.Dnat? <==> b.Dnat?)
  {
    assert NatParts(a)[0][0] == NatParts(b)[0][0];
  }

  predicate NoBars(spec: NatSpec) {
    match spec
    case Snat(privateIp, publicIp) => '|' !in privateIp && '|' !in publicIp
    case Dnat(publicIp, _, privateIp, _, protocol) => '|' !in publicIp && '|' !in privateIp && '|' !in protocol
    case PortForward(publicIp, _, privateIp, _, protocol) => '|' !in publicIp && '|' !in privateIp && '|' !in protocol
  }

  lemma NoBarsInParts(spec: NatSpec)
    requires NoBars(spec)
    ensures forall i :: 0 <= i < |NatParts(spec)| ==> '|' !in NatParts(spec)[i]
  {
    NatKind(spec);
    if !spec.Snat? {
      NumeralChars(spec.publicPort);
      NumeralChars(spec.privatePort);
    }
  }

  /** The parts determine the rule. */
  lemma NatPartsInjective(a: NatSpec, b: NatSpec)
    requires NatParts(a) == NatParts(b)
    ensures a == b
  {
    KindsDiffer(a, b);
    var x, y := NatParts(a), NatParts(b);
    assert x[1] == y[1] && x[2] == y[2];
    if !a.Snat? {
      assert x[3] == y[3] && x[4] == y[4] && x[5] == y[5];
      NumeralInjective(a.publicPort, b.publicPort);
      NumeralInjective(a.privatePort, b.privatePort);
    }
  }

  /** A rule without bars shares its text with no other rule, whatever that one holds. */
  lemma NatTextIsOwn(a: NatSpec, b: NatSpec)
    requires NoBars(a) && NatText(a) == NatText(b)
    ensures a == b
  {
    NatKind(a);
    NatKind(b);
    SplitAtFirst(NatParts(a)[0], Join(NatParts(a)[1..], '|'), NatParts(b)[0], Join(NatParts(b)[1..], '|'), '|');
    KindsDiffer(a, b);
    NoBarsInParts(a);
    JoinOfCleanIsOwn(NatParts(a), NatParts(b), '|');
    NatPartsInjective(a, b);
  }

  /** Two rules for different addresses, with bars, share a text. */
  lemma NatBarsCollide()
    ensures var a, b := Snat("10.0.0.1|x", "y"), Snat("10.0.0.1", "x|y"); a != b && NatText(a) == NatText(b)
  {
    var a, b := Snat("10.0.0.1|x", "y"), Snat("10.0.0.1", "x|y");
    assert |a.privateIp| != |b.privateIp|;
    JoinStep("snat", ["10.0.0.1|x", "y"], '|');
    JoinStep("10.0.0.1|x", ["y"], '|');
    JoinStep("snat", ["10.0.0.1", "x|y"], '|');
    JoinStep("10.0.0.1", ["x|y"], '|');
    assert NatParts(a) == ["snat"] + (["10.0.0.1|x"] + ["y"]) && NatParts(b) == ["snat"] + (["10.0.0.1"] + ["x|y"]);
    assert "10.0.0.1|x" + ['|'] + "y" == "10.0.0.1" + ['|'] + "x|y";
  }

  // ---------------------------------------------------------------- rendering

  /** The filter installed when the rule is added. */
  function AddFilter(spec: NatSpec): NatFilter {
    match spec
    case Snat(privateIp, publicIp) => NatFilter([SrcIp(privateIp)], [SetSrc(publicIp)])
    case Dnat(publicIp, publicPort, privateIp, _, protocol) =>
      NatFilter([DstIp(publicIp), IpProto(protocol), DstPort(publicPort)], [SetDst(privateIp)])
    case PortForward(publicIp, publicPort, privateIp, privatePort, protocol) =>
      NatFilter([DstIp(publicIp), IpProto(protocol), DstPort(publicPort)],
                [SetDst(privateIp), SetDstPort(protocol, privatePort)])
  }

  /** The filter installed when a removal re-applies the rule. */
  function ReapplyFilter(spec: NatSpec): NatFilter {
    match spec
    case Snat(privateIp, publicIp) => NatFilter([SrcIp(privateIp)], [SetSrc(publicIp)])
    case Dnat(publicIp, publicPort, privateIp, _, protocol) =>
      NatFilter([DstIp(publicIp), IpProto(OrTcp(protocol)), DstPort(publicPort)], [SetDst(privateIp)])
    case PortForward(publicIp, publicPort, privateIp, privatePort, protocol) =>
      NatFilter([DstIp(publicIp), IpProto(OrTcp(protocol)), DstPort(publicPort)],
                if publicPort != 0 && privatePort != 0 then [SetDst(privateIp), SetDstPort(OrTcp(protocol), privatePort)]
                else [SetDst(privateIp)])
  }

  function OrTcp(protocol: string): string {
    if protocol != "" then protocol else "tcp"
  }

  /** Re-applying a rule installs the filter that adding it did. */
  predicate Faithful(spec: NatSpec) {
    match spec
    case Snat(_, _) => true
    case Dnat(_, _, _, _, protocol) => protocol != ""
    case PortForward(_, publicPort, _, privatePort, protocol) => protocol != "" && publicPort != 0 && privatePort != 0
  }

  lemma ReapplyIsFaithfulExactly(spec: NatSpec)
    ensures ReapplyFilter(spec) == AddFilter(spec) <==> Faithful(spec)
  {
    match spec
    case Snat(_, _) =>
    case Dnat(_, _, _, _, protocol) => assert ReapplyFilter(spec).keys[1] == IpProto(OrTcp(protocol));
    case PortForward(_, _, _, _, protocol) =>
      assert ReapplyFilter(spec).keys[1] == IpProto(OrTcp(protocol));
      if !Faithful(spec) && protocol != "" {
        assert |ReapplyFilter(spec).rewrites| == 1 && |AddFilter(spec).rewrites| == 2;
      }
  }

  /** Which re-applications of a removal succeed, by entry; nobody looks at the outcome. */
  type Reapplied = string -> bool

  /** What the commands of one removal do: whether the band is flushed, and what is re-applied. */
  datatype Refill = Refill(flushed: bool, ok: Reapplied)

  /** The filters that re-applying the entries of one port really installs. */
  function Restored(order: seq<string>, db: map<string, NatEntry>, onClient: bool, ok: Reapplied): seq<NatFilter> {
    if order == [] then []
    else
      var last := order[|order| - 1];
      var front := Restored(order[..|order| - 1], db, onClient, ok);
      if last in db && db[last].spec.Snat? == onClient && ok(last) then front + [ReapplyFilter(db[last].spec)] else front
  }

  /** The filters of the entries on one port, in insertion order. */
  function Rendered(order: seq<string>, db: map<string, NatEntry>, onClient: bool, render: NatSpec -> NatFilter): seq<NatFilter> {
    if order == [] then []
    else
      var last := order[|order| - 1];
      var front := Rendered(order[..|order| - 1], db, onClient, render);
      if last in db && db[last].spec.Snat? == onClient then front + [render(db[last].spec)] else front
  }

  // ---------------------------------------------------------------- translation

  function Rewritten(p: Packet, rewrites: seq<Rewrite>): Packet
    decreases |rewrites|
  {
    if rewrites == [] then p
    else
      var q := match rewrites[0]
        case SetSrc(ip) => p.(src := ip)
        case SetDst(ip) => p.(dst := ip)
        case SetDstPort(_, port) => p.(dstPort := port);
      Rewritten(q, rewrites[1..])
  }

  /** What the band makes of a packet: the first matching filter rewrites and redirects it. */
  function Translate(band: seq<NatFilter>, covers: Covers, p: Packet): Option<Packet> {
    if band == [] then None
    else if AllHit(covers, band[0].keys, p) then Some(Rewritten(p, band[0].rewrites))
    else Translate(band[1..], covers, p)
  }

  // ---------------------------------------------------------------- operations

  predicate Finds(n: Nat, spec: NatSpec) {
    NatText(spec) in n.index && n.index[NatText(spec)] in n.db
  }

  predicate ValidMode(mode: string) {
    mode == "static" || mode == "masquerade"
  }

  /** `exhausted` is the state of the public IP's port pool, `ok` the outcome of the `tc` command. */
  function AddReply(n: Nat, spec: NatSpec, mode: string, id: string, exhausted: bool, ok: bool): NatReply {
    if spec.Snat? && !ValidMode(mode) then InvalidMode
    else if Finds(n, spec) then Accepted(n.index[NatText(spec)])
    else if spec.Snat? && mode == "masquerade" && exhausted then PoolExhausted
    else if !ok then CommandFailed
    else Accepted(id)
  }

  function Append(n: Nat, e: NatEntry): Nat {
    Nat(n.db[e.id := e], n.order + [e.id], n.index[NatText(e.spec) := e.id],
        if e.spec.Snat? then n.clientBand + [AddFilter(e.spec)] else n.clientBand,
        if e.spec.Snat? then n.internetBand else n.internetBand + [AddFilter(e.spec)])
  }

  function Add(n: Nat, spec: NatSpec, mode: string, id: string, exhausted: bool, ok: bool): Nat {
    if Finds(n, spec) || AddReply(n, spec, mode, id, exhausted, ok) != Accepted(id) then n
    else Append(n, NatEntry(id, spec, if spec.Snat? then mode else "", None))
  }

  /** A request in plain terms. Only a new rule that is in a valid mode, finds room in its pool and whose
      command succeeds is stored, under the given id, saying what was asked for; the rule of an equal text
      answers otherwise, or the request is refused, and nothing changes. */
  lemma AddMeans(n: Nat, spec: NatSpec, mode: string, id: string, exhausted: bool, ok: bool)
    ensures var reply, t := AddReply(n, spec, mode, id, exhausted, ok), Add(n, spec, mode, id, exhausted, ok);
      var badMode := spec.Snat? && mode != "static" && mode != "masquerade";
      var known := NatText(spec) in n.index && n.index[NatText(spec)] in n.db;
      var full := spec.Snat? && mode == "masquerade" && exhausted;
      && (badMode ==> reply == InvalidMode && t == n)
      && (!badMode && known ==> reply == Accepted(n.index[NatText(spec)]) && t == n)
      && (!badMode && !known && full ==> reply == PoolExhausted && t == n)
      && (!badMode && !known && !full && !ok ==> reply == CommandFailed && t == n)
      && (!badMode && !known && !full && ok ==>
            && reply == Accepted(id)
            && t.db == n.db[id := NatEntry(id, spec, if spec.Snat? then mode else "", None)]
            && t.order == n.order + [id] && t.index == n.index[NatText(spec) := id]
            && |t.clientBand| == |n.clientBand| + (if spec.Snat? then 1 else 0)
            && |t.internetBand| == |n.internetBand| + (if spec.Snat? then 0 else 1))
  {
  }

  function WithoutId(order: seq<string>, id: string): seq<string> {
    if order == [] then []
    else
      var last := order[|order| - 1];
      if last == id then WithoutId(order[..|order| - 1], id) else WithoutId(order[..|order| - 1], id) + [last]
  }

  function Flushed(band: seq<NatFilter>, refill: Refill): seq<NatFilter> {
    if refill.flushed then [] else band
  }

  /** Removes the entry, flushes the band of its port and re-applies what remains on that port. */
  function Remove(n: Nat, id: string, refill: Refill): Nat {
    if id !in n.db then n
    else
      var db, order := n.db - {id}, WithoutId(n.order, id);
      var onClient := n.db[id].spec.Snat?;
      Nat(db, order,
          Unindexed(n.index, id),
          if onClient then Flushed(n.clientBand, refill) + Restored(order, db, true, refill.ok) else n.clientBand,
          if onClient then n.internetBand else Flushed(n.internetBand, refill) + Restored(order, db, false, refill.ok))
  }

  // ---------------------------------------------------------------- the invariant

  ghost predicate Ordered(n: Nat) {
    && Distinct(n.order) && (forall id :: id in n.order <==> id in n.db)
    && (forall id :: id in n.db ==> n.db[id].id == id)
  }

  /** The signature index is the inverse of the dictionary. */
  ghost predicate Indexed(n: Nat) {
    && (forall id :: id in n.db ==> NatText(n.db[id].spec) in n.index && n.index[NatText(n.db[id].spec)] == id)
    && (forall text :: text in n.index ==> n.index[text] in n.db && NatText(n.db[n.index[text]].spec) == text)
  }

  ghost predicate AllFaithful(n: Nat) {
    forall id :: id in n.db ==> Faithful(n.db[id].spec)
  }

  /** Each band holds what adding the live entries, in insertion order, would install. */
  ghost predicate BandsExact(n: Nat) {
    && n.clientBand == Rendered(n.order, n.db, true, AddFilter)
    && n.internetBand == Rendered(n.order, n.db, false, AddFilter)
  }

  /** Rendering looks only at the entries named. */
  lemma {:induction false} RenderedSame(
    order: seq<string>, a: map<string, NatEntry>, b: map<string, NatEntry>, onClient: bool,
    f: NatSpec -> NatFilter, g: NatSpec -> NatFilter)
    requires forall id :: id in order ==> (id in a <==> id in b)
    requires forall id :: id in order && id in a ==> a[id].spec == b[id].spec && f(a[id].spec) == g(b[id].spec)
    ensures Rendered(order, a, onClient, f) == Rendered(order, b, onClient, g)
  {
    if order != [] {
      RenderedSame(order[..|order| - 1], a, b, onClient, f, g);
    }
  }

  lemma {:induction false} WithoutIdMembers(order: seq<string>, id: string)
    requires Distinct(order)
    ensures Distinct(WithoutId(order, id))
    ensures forall x :: x in WithoutId(order, id) <==> x in order && x != id
  {
    if order != [] {
      WithoutIdMembers(order[..|order| - 1], id);
      assert order == order[..|order| - 1] + [order[|order| - 1]];
      assert order[|order| - 1] !in order[..|order| - 1];
    }
  }

  /** Leaving out an entry of the other port does not change a port's rendering. */
  lemma {:induction false} RenderedWithoutOther(
    order: seq<string>, db: map<string, NatEntry>, onClient: bool, f: NatSpec -> NatFilter, id: string)
    requires id in db && db[id].spec.Snat? != onClient
    ensures Rendered(WithoutId(order, id), db - {id}, onClient, f) == Rendered(order, db, onClient, f)
  {
    if order != [] {
      RenderedWithoutOther(order[..|order| - 1], db, onClient, f, id);
      var rest := WithoutId(order[..|order| - 1], id) + [order[|order| - 1]];
      assert rest[..|rest| - 1] == WithoutId(order[..|order| - 1], id);
    }
  }

  /** Leaving out an entry of the port shortens its rendering. */
  lemma {:induction false} RenderedWithoutOwn(
    order: seq<string>, db: map<string, NatEntry>, onClient: bool, f: NatSpec -> NatFilter, id: string)
    requires id in db && db[id].spec.Snat? == onClient
    ensures |Rendered(WithoutId(order, id), db - {id}, onClient, f)| <= |Rendered(order, db, onClient, f)|
    ensures id in order ==> |Rendered(WithoutId(order, id), db - {id}, onClient, f)| < |Rendered(order, db, onClient, f)|
  {
    if order != [] {
      var front, last := order[..|order| - 1], order[|order| - 1];
      RenderedWithoutOwn(front, db, onClient, f, id);
      assert order == front + [last];
      var rest := WithoutId(front, id) + [last];
      assert rest[..|rest| - 1] == WithoutId(front, id);
    }
  }

  lemma AppendKeepsOrder(n: Nat, e: NatEntry)
    requires Ordered(n) && Indexed(n) && e.id !in n.db && !Finds(n, e.spec)
    ensures Ordered(Append(n, e)) && Indexed(Append(n, e))
  {
    AppendKeepsIndexed(n, e, NatText(e.spec));
  }

  lemma AppendKeepsIndexed(n: Nat, e: NatEntry, text: string)
    requires Indexed(n) && e.id !in n.db && text == NatText(e.spec) && text !in n.index
    ensures Indexed(Append(n, e))
  {
    assert forall id :: id in n.db ==> NatText(n.db[id].spec) != text;
  }

  lemma AppendKeepsBands(n: Nat, e: NatEntry)
    requires Ordered(n) && e.id !in n.db && BandsExact(n)
    ensures BandsExact(Append(n, e))
  {
    var n' := Append(n, e);
    assert n'.order[..|n'.order| - 1] == n.order;
    RenderedSame(n.order, n.db, n'.db, true, AddFilter, AddFilter);
    RenderedSame(n.order, n.db, n'.db, false, AddFilter, AddFilter);
  }

  lemma AddKeeps(n: Nat, spec: NatSpec, mode: string, id: string, exhausted: bool, ok: bool)
    requires Ordered(n) && Indexed(n) && id !in n.db
    ensures var n' := Add(n, spec, mode, id, exhausted, ok);
      && Ordered(n') && Indexed(n')
      && (BandsExact(n) ==> BandsExact(n'))
      && (AllFaithful(n) && Faithful(spec) ==> AllFaithful(n'))
  {
    if Add(n, spec, mode, id, exhausted, ok) != n {
      var e := NatEntry(id, spec, if spec.Snat? then mode else "", None);
      AppendKeepsOrder(n, e);
      AppendKeepsFaithful(n, e);
      if BandsExact(n) {
        AppendKeepsBands(n, e);
      }
    }
  }

  lemma AppendKeepsFaithful(n: Nat, e: NatEntry)
    ensures AllFaithful(n) && Faithful(e.spec) ==> AllFaithful(Append(n, e))
  {
  }

  lemma RemoveKeepsOrder(n: Nat, id: string, refill: Refill)
    requires Ordered(n) && Indexed(n)
    ensures Ordered(Remove(n, id, refill)) && Indexed(Remove(n, id, refill))
  {
    WithoutIdMembers(n.order, id);
  }

  /** The entries on one port are all re-applied as they were added. */
  ghost predicate FaithfulOn(db: map<string, NatEntry>, order: seq<string>, onClient: bool) {
    forall id :: id in order && id in db && db[id].spec.Snat? == onClient ==> Faithful(db[id].spec)
  }

  /** Re-applying succeeds for all entries on one port. */
  ghost predicate RestoredOn(db: map<string, NatEntry>, order: seq<string>, onClient: bool, ok: Reapplied) {
    forall id :: id in order && id in db && db[id].spec.Snat? == onClient ==> ok(id)
  }

  lemma {:induction false} ReapplyRendersExactly(order: seq<string>, db: map<string, NatEntry>, onClient: bool, ok: Reapplied)
    ensures |Restored(order, db, onClient, ok)| <= |Rendered(order, db, onClient, AddFilter)|
    ensures |Restored(order, db, onClient, ok)| == |Rendered(order, db, onClient, AddFilter)| <==> RestoredOn(db, order, onClient, ok)
    ensures Restored(order, db, onClient, ok) == Rendered(order, db, onClient, AddFilter)
       <==> RestoredOn(db, order, onClient, ok) && FaithfulOn(db, order, onClient)
  {
    if order != [] {
      var front, last := order[..|order| - 1], order[|order| - 1];
      assert order == front + [last];
      ReapplyRendersExactly(front, db, onClient, ok);
      if last in db && db[last].spec.Snat? == onClient && ok(last) {
        ReapplyIsFaithfulExactly(db[last].spec);
        AppendsEqualExactly(Restored(front, db, onClient, ok), ReapplyFilter(db[last].spec),
                            Rendered(front, db, onClient, AddFilter), AddFilter(db[last].spec));
      }
    }
  }

  lemma AppendsEqualExactly(a: seq<NatFilter>, x: NatFilter, b: seq<NatFilter>, y: NatFilter)
    ensures a + [x] == b + [y] <==> a == b && x == y
  {
    assert (a + [x])[..|a|] == a && (b + [y])[..|b|] == b;
    assert (a + [x])[|a|] == x && (b + [y])[|b|] == y;
  }

  /** The removal flushes the band and brings back every remaining entry of its port as it was added. */
  ghost predicate BringsBack(n: Nat, id: string, refill: Refill)
    requires id in n.db
  {
    var n', onClient := Remove(n, id, refill), n.db[id].spec.Snat?;
    refill.flushed && RestoredOn(n'.db, n'.order, onClient, refill.ok) && FaithfulOn(n'.db, n'.order, onClient)
  }

  /** Removing a rule leaves each port's band the in-order rendering of the remaining entries, exactly
      when re-applying those on the removed rule's port succeeds and installs what adding them did. */
  lemma RemoveRendersRestExactly(n: Nat, id: string, refill: Refill)
    requires Ordered(n) && BandsExact(n) && id in n.db
    ensures BandsExact(Remove(n, id, refill)) <==> BringsBack(n, id, refill)
  {
    var onClient := n.db[id].spec.Snat?;
    OwnBandExactly(n.order, n.db, onClient, id, refill, if onClient then n.clientBand else n.internetBand);
    RenderedWithoutOther(n.order, n.db, !onClient, AddFilter, id);
    RemovedBands(n, id, refill);
  }

  lemma RemovedBands(n: Nat, id: string, refill: Refill)
    requires id in n.db
    ensures var n', onClient, order, db := Remove(n, id, refill), n.db[id].spec.Snat?, WithoutId(n.order, id), n.db - {id};
      && n'.order == order && n'.db == db
      && n'.clientBand == (if onClient then Flushed(n.clientBand, refill) + Restored(order, db, true, refill.ok) else n.clientBand)
      && n'.internetBand == (if onClient then n.internetBand else Flushed(n.internetBand, refill) + Restored(order, db, false, refill.ok))
  {
  }

  lemma OwnBandExactly(
    order: seq<string>, db: map<string, NatEntry>, onClient: bool, id: string, refill: Refill, band: seq<NatFilter>)
    requires id in order && id in db && db[id].spec.Snat? == onClient
    requires band == Rendered(order, db, onClient, AddFilter)
    ensures var rest, left := WithoutId(order, id), db - {id};
      Flushed(band, refill) + Restored(rest, left, onClient, refill.ok) == Rendered(rest, left, onClient, AddFilter)
      <==> refill.flushed && RestoredOn(left, rest, onClient, refill.ok) && FaithfulOn(left, rest, onClient)
  {
    var rest, left := WithoutId(order, id), db - {id};
    ReapplyRendersExactly(rest, left, onClient, refill.ok);
    RenderedWithoutOwn(order, db, onClient, AddFilter, id);
    if refill.flushed {
      assert [] + Restored(rest, left, onClient, refill.ok) == Restored(rest, left, onClient, refill.ok);
    }
  }

  lemma RemoveKeepsBands(n: Nat, id: string, refill: Refill)
    requires Ordered(n) && BandsExact(n) && AllFaithful(n)
    requires refill.flushed && forall x :: x in n.db && x != id ==> refill.ok(x)
    ensures BandsExact(Remove(n, id, refill)) && AllFaithful(Remove(n, id, refill))
  {
    if id in n.db {
      RemoveRendersRestExactly(n, id, refill);
    }
  }

  // ---------------------------------------------------------------- as if never added

  /** An empty manager to which the entries of `order` are added one after another. */
  function Rebuilt(order: seq<string>, db: map<string, NatEntry>): Nat {
    if order == [] then NO_NAT
    else
      var last := order[|order| - 1];
      var front := Rebuilt(order[..|order| - 1], db);
      if last in db then Add(front, db[last].spec, "static", last, false, true) else front
  }

  ghost predicate SpecsDistinct(order: seq<string>, db: map<string, NatEntry>) {
    && (forall id :: id in order ==> id in db)
    && (forall a, b :: a in order && b in order && NatText(db[a].spec) == NatText(db[b].spec) ==> a == b)
  }

  /** The rebuilt manager holds the given entries, in the given order. */
  ghost predicate HoldsExactly(r: Nat, order: seq<string>, db: map<string, NatEntry>) {
    && Ordered(r) && Indexed(r) && BandsExact(r) && r.order == order
    && forall id :: id in r.db ==> id in db && r.db[id].spec == db[id].spec
  }

  lemma {:induction false} RebuiltHolds(order: seq<string>, db: map<string, NatEntry>)
    requires Distinct(order) && SpecsDistinct(order, db)
    ensures HoldsExactly(Rebuilt(order, db), order, db)
  {
    if order != [] {
      var front, last := order[..|order| - 1], order[|order| - 1];
      assert order == front + [last];
      assert last !in front;
      RebuiltHolds(front, db);
      RebuiltOneMore(front, last, db, Rebuilt(front, db));
    }
  }

  lemma RebuiltOneMore(front: seq<string>, last: string, db: map<string, NatEntry>, r: Nat)
    requires last !in front && SpecsDistinct(front + [last], db) && HoldsExactly(r, front, db)
    ensures last in db && HoldsExactly(Add(r, db[last].spec, "static", last, false, true), front + [last], db)
  {
    assert last in front + [last];
    forall x | x in r.db
      ensures x in front + [last] && NatText(r.db[x].spec) != NatText(db[last].spec)
    {
      assert x in front;
    }
    RebuildOneMore(r, db[last].spec, last);
  }

  lemma RebuildOneMore(r: Nat, spec: NatSpec, id: string)
    requires Ordered(r) && Indexed(r) && BandsExact(r) && id !in r.db
    requires forall x :: x in r.db ==> NatText(r.db[x].spec) != NatText(spec)
    ensures var t := Add(r, spec, "static", id, false, true);
      && Ordered(t) && Indexed(t) && BandsExact(t) && t.order == r.order + [id]
      && t.db == r.db[id := NatEntry(id, spec, if spec.Snat? then "static" else "", None)]
  {
    var e := NatEntry(id, spec, if spec.Snat? then "static" else "", None);
    assert !Finds(r, spec);
    AddIsAppend(r, spec, id);
    AppendKeepsOrder(r, e);
    AppendKeepsBands(r, e);
  }

  lemma AddIsAppend(r: Nat, spec: NatSpec, id: string)
    requires !Finds(r, spec)
    ensures Add(r, spec, "static", id, false, true) == Append(r, NatEntry(id, spec, if spec.Snat? then "static" else "", None))
  {
  }

  /** After a removal both bands are those of a manager that was only ever given the remaining rules,
      exactly when the removal brings back what remains; then every packet, on either port, is
      translated as by that manager. */
  lemma RemovedAsIfNeverAdded(n: Nat, id: string, refill: Refill, covers: Covers, p: Packet)
    requires Ordered(n) && Indexed(n) && BandsExact(n) && id in n.db
    ensures var removed := Remove(n, id, refill);
      var scratch := Rebuilt(removed.order, removed.db);
      && (removed.clientBand == scratch.clientBand && removed.internetBand == scratch.internetBand <==> BringsBack(n, id, refill))
      && (BringsBack(n, id, refill) ==>
            && Translate(removed.clientBand, covers, p) == Translate(scratch.clientBand, covers, p)
            && Translate(removed.internetBand, covers, p) == Translate(scratch.internetBand, covers, p))
  {
    var n' := Remove(n, id, refill);
    RemoveKeepsOrder(n, id, refill);
    RemoveRendersRestExactly(n, id, refill);
    RebuiltHolds(n'.order, n'.db);
    var r := Rebuilt(n'.order, n'.db);
    RenderedSame(n'.order, n'.db, r.db, true, AddFilter, AddFilter);
    RenderedSame(n'.order, n'.db, r.db, false, AddFilter, AddFilter);
  }

  lemma {:induction false} WithoutAbsentId(order: seq<string>, id: string)
    requires id !in order
    ensures WithoutId(order, id) == order
  {
    if order != [] {
      WithoutAbsentId(order[..|order| - 1], id);
      assert order == order[..|order| - 1] + [order[|order| - 1]];
    }
  }

  /** Adding a new rule and removing it again restores dictionary and index, and the bands exactly when
      the entries that were there on its port are all brought back. */
  lemma AddThenRemoveRestoresExactly(n: Nat, spec: NatSpec, mode: string, id: string, refill: Refill)
    requires Ordered(n) && Indexed(n) && BandsExact(n)
    requires id !in n.db && !Finds(n, spec) && AddReply(n, spec, mode, id, false, true) == Accepted(id)
    ensures Remove(Add(n, spec, mode, id, false, true), id, refill) == n
       <==> refill.flushed && RestoredOn(n.db, n.order, spec.Snat?, refill.ok) && FaithfulOn(n.db, n.order, spec.Snat?)
  {
    AppendThenRemoveRestores(n, NatEntry(id, spec, if spec.Snat? then mode else "", None), refill);
  }

  lemma AppendThenRemoveRestores(n: Nat, e: NatEntry, refill: Refill)
    requires Ordered(n) && Indexed(n) && BandsExact(n) && e.id !in n.db && !Finds(n, e.spec)
    ensures Remove(Append(n, e), e.id, refill) == n
       <==> refill.flushed && RestoredOn(n.db, n.order, e.spec.Snat?, refill.ok) && FaithfulOn(n.db, n.order, e.spec.Snat?)
  {
    var n' := Append(n, e);
    AppendKeepsOrder(n, e);
    AppendKeepsBands(n, e);
    RemoveRendersRestExactly(n', e.id, refill);
    AppendThenRemove(n, e, refill);
    if BandsExact(Remove(n', e.id, refill)) {
      DeterminedByEntries(Remove(n', e.id, refill), n);
    }
  }

  lemma DeterminedByEntries(a: Nat, b: Nat)
    requires BandsExact(a) && BandsExact(b)
    requires a.db == b.db && a.order == b.order && a.index == b.index
    ensures a == b
  {
  }

  function Unindexed(index: map<string, string>, id: string): map<string, string> {
    map text | text in index && index[text] != id :: index[text]
  }

  lemma UnindexedRestores(index: map<string, string>, text: string, id: string)
    requires text !in index && forall t :: t in index ==> index[t] != id
    ensures Unindexed(index[text := id], id) == index
  {
  }

  lemma AppendThenRemove(n: Nat, e: NatEntry, refill: Refill)
    requires Ordered(n) && Indexed(n) && e.id !in n.db && !Finds(n, e.spec)
    ensures var n' := Remove(Append(n, e), e.id, refill);
      n'.db == n.db && n'.order == n.order && n'.index == n.index
  {
    assert NatText(e.spec) !in n.index;
    UnindexedRestores(n.index, NatText(e.spec), e.id);
    AppendWithoutId(n.order, e.id);
    EntryAddedAndTaken(n.db, e);
  }

  lemma AppendWithoutId(order: seq<string>, id: string)
    requires id !in order
    ensures WithoutId(order + [id], id) == order
  {
    WithoutAbsentId(order, id);
    assert (order + [id])[..|order|] == order;
  }

  lemma EntryAddedAndTaken(db: map<string, NatEntry>, e: NatEntry)
    requires e.id !in db
    ensures db[e.id := e] - {e.id} == db
  {
  }

  // ---------------------------------------------------------------- what the bands do

  /** What one rule means for a packet: None when the rule is not about it. */
  function Means(spec: NatSpec, covers: Covers, p: Packet): Option<Packet> {
    match spec
    case Snat(privateIp, publicIp) =>
      if covers(privateIp, p.src) then Some(p.(src := publicIp)) else None
    case Dnat(publicIp, publicPort, privateIp, _, protocol) =>
      if covers(publicIp, p.dst) && p.protocol == protocol && p.dstPort == publicPort then Some(p.(dst := privateIp))
      else None
    case PortForward(publicIp, publicPort, privateIp, privatePort, protocol) =>
      if covers(publicIp, p.dst) && p.protocol == protocol && p.dstPort == publicPort
      then Some(p.(dst := privateIp, dstPort := privatePort)) else None
  }

  /** The oldest rule of a port that is about the packet decides it. */
  function FirstMeaning(order: seq<string>, db: map<string, NatEntry>, onClient: bool, covers: Covers, p: Packet): Option<Packet> {
    if order == [] then None
    else
      var last := order[|order| - 1];
      var earlier := FirstMeaning(order[..|order| - 1], db, onClient, covers, p);
      if earlier.Some? then earlier
      else if last in db && db[last].spec.Snat? == onClient then Means(db[last].spec, covers, p)
      else None
  }

  lemma OneFilterMeans(spec: NatSpec, covers: Covers, p: Packet)
    ensures Translate([AddFilter(spec)], covers, p) == Means(spec, covers, p)
  {
    var f := AddFilter(spec);
    assert Translate([f], covers, p) == if AllHit(covers, f.keys, p) then Some(Rewritten(p, f.rewrites)) else None by {
      assert [f][0] == f && [f][1..] == [];
    }
    match spec
    case Snat(privateIp, publicIp) =>
      assert AllHit(covers, f.keys, p) <==> covers(privateIp, p.src) by {
        assert f.keys[0] == SrcIp(privateIp);
      }
      assert Rewritten(p, f.rewrites) == Rewritten(p.(src := publicIp), f.rewrites[1..]);
      assert f.rewrites[1..] == [];
    case Dnat(publicIp, publicPort, privateIp, _, protocol) =>
      DestinationHit(covers, publicIp, protocol, publicPort, p);
      assert Rewritten(p, f.rewrites) == Rewritten(p.(dst := privateIp), f.rewrites[1..]);
      assert f.rewrites[1..] == [];
    case PortForward(publicIp, publicPort, privateIp, privatePort, protocol) =>
      DestinationHit(covers, publicIp, protocol, publicPort, p);
      var q, rest := p.(dst := privateIp), f.rewrites[1..];
      assert Rewritten(p, f.rewrites) == Rewritten(q, rest);
      assert rest == [SetDstPort(protocol, privatePort)];
      assert Rewritten(q, rest) == Rewritten(q.(dstPort := privatePort), rest[1..]);
      assert rest[1..] == [];
  }

  /** What a re-applied rule does to a packet: what the rule means with TCP for an unnamed protocol, and,
      for a forwarding rule with a port 0, without the new port. */
  lemma ReappliedMeans(spec: NatSpec, covers: Covers, p: Packet)
    ensures Translate([ReapplyFilter(spec)], covers, p) ==
      match spec
      case Snat(_, _) => Means(spec, covers, p)
      case Dnat(publicIp, publicPort, privateIp, privatePort, protocol) =>
        Means(Dnat(publicIp, publicPort, privateIp, privatePort, if protocol == "" then "tcp" else protocol), covers, p)
      case PortForward(publicIp, publicPort, privateIp, privatePort, protocol) =>
        var named := if protocol == "" then "tcp" else protocol;
        if publicPort == 0 || privatePort == 0 then Means(Dnat(publicIp, publicPort, privateIp, privatePort, named), covers, p)
        else Means(PortForward(publicIp, publicPort, privateIp, privatePort, named), covers, p)
  {
    match spec
    case Snat(_, _) => OneFilterMeans(spec, covers, p);
    case Dnat(publicIp, publicPort, privateIp, privatePort, protocol) =>
      OneFilterMeans(Dnat(publicIp, publicPort, privateIp, privatePort, OrTcp(protocol)), covers, p);
    case PortForward(publicIp, publicPort, privateIp, privatePort, protocol) =>
      OneFilterMeans(Dnat(publicIp, publicPort, privateIp, privatePort, OrTcp(protocol)), covers, p);
      OneFilterMeans(PortForward(publicIp, publicPort, privateIp, privatePort, OrTcp(protocol)), covers, p);
  }

  lemma DestinationHit(covers: Covers, ip: string, protocol: string, port: int, p: Packet)
    ensures AllHit(covers, [DstIp(ip), IpProto(protocol), DstPort(port)], p)
       <==> covers(ip, p.dst) && p.protocol == protocol && p.dstPort == port
  {
    var keys := [DstIp(ip), IpProto(protocol), DstPort(port)];
    assert keys[0] == DstIp(ip) && keys[1] == IpProto(protocol) && keys[2] == DstPort(port);
  }

  lemma {:induction false} TranslateAppend(a: seq<NatFilter>, b: seq<NatFilter>, covers: Covers, p: Packet)
    ensures Translate(a + b, covers, p)
         == if Translate(a, covers, p).Some? then Translate(a, covers, p) else Translate(b, covers, p)
  {
    if a == [] {
      assert a + b == b;
    } else {
      TranslateAppend(a[1..], b, covers, p);
      assert (a + b)[1..] == a[1..] + b;
    }
  }

  /** The rendered band of a port translates every packet by the oldest rule that is about it. */
  lemma {:induction false} BandMeansOldestRule(
    order: seq<string>, db: map<string, NatEntry>, onClient: bool, covers: Covers, p: Packet)
    ensures Translate(Rendered(order, db, onClient, AddFilter), covers, p) == FirstMeaning(order, db, onClient, covers, p)
  {
    if order != [] {
      var last := order[|order| - 1];
      BandMeansOldestRule(order[..|order| - 1], db, onClient, covers, p);
      if last in db && db[last].spec.Snat? == onClient {
        TranslateAppend(Rendered(order[..|order| - 1], db, onClient, AddFilter), [AddFilter(db[last].spec)], covers, p);
        OneFilterMeans(db[last].spec, covers, p);
      }
    }
  }

  // ---------------------------------------------------------------- a rule that changes

  const NO_PROTOCOL := Dnat("192.0.2.1", 80, "10.0.0.1", 80, "")

  /** What re-applying makes of it. */
  const AS_TCP := Dnat("192.0.2.1", 80, "10.0.0.1", 80, "tcp")

  const OTHER_PORT := Dnat("192.0.2.1", 81, "10.0.0.2", 81, "tcp")

  lemma FirstNat(d: NatSpec)
    requires !d.Snat?
    ensures Add(NO_NAT, d, "", "d", false, true)
         == Nat(map["d" := NatEntry("d", d, "", None)], ["d"], map[NatText(d) := "d"], [], [AddFilter(d)])
  {
  }

  lemma TwoRules(d: NatSpec, e: NatSpec, refill: Refill)
    requires !d.Snat? && !e.Snat? && NatText(d) != NatText(e) && refill.flushed
    ensures var n := Add(Add(NO_NAT, d, "", "d", false, true), e, "", "e", false, true);
      && n.internetBand == [AddFilter(d)] + [AddFilter(e)]
      && Remove(n, "e", refill).db.Keys == {"d"}
      && Remove(n, "e", refill).internetBand == if refill.ok("d") then [ReapplyFilter(d)] else []
  {
    var first := Add(NO_NAT, d, "", "d", false, true);
    var n := Add(first, e, "", "e", false, true);
    FirstNat(d);
    assert "d" != "e" by {
      assert "d"[0] != "e"[0];
    }
    var order := ["d", "e"];
    assert n.order == order && order[..1] == ["d"];
    assert ["d"][..0] == [];
    assert WithoutId(order, "e") == ["d"];
    assert Restored(["d"], n.db - {"e"}, false, refill.ok) == if refill.ok("d") then [ReapplyFilter(d)] else [];
  }

  /** Faithfulness is needed: a TCP packet that no rule translates is translated once the removal of
      another rule has re-applied a rule without protocol as a TCP rule. */
  lemma EmptyProtocolChangesOnReapply(covers: Covers)
    requires covers("192.0.2.1", "192.0.2.1")
    ensures var n := Add(Add(NO_NAT, NO_PROTOCOL, "", "d", false, true), OTHER_PORT, "", "e", false, true);
      var p := Packet("198.51.100.7", "192.0.2.1", 9, 80, "tcp");
      && Translate(n.internetBand, covers, p) == None
      && Translate(Remove(n, "e", Refill(true, _ => true)).internetBand, covers, p) == Some(p.(dst := "10.0.0.1"))
  {
    var p := Packet("198.51.100.7", "192.0.2.1", 9, 80, "tcp");
    DifferentTexts(NO_PROTOCOL, OTHER_PORT);
    TwoRules(NO_PROTOCOL, OTHER_PORT, Refill(true, _ => true));
    TranslateAppend([AddFilter(NO_PROTOCOL)], [AddFilter(OTHER_PORT)], covers, p);
    OneFilterMeans(NO_PROTOCOL, covers, p);
    OneFilterMeans(OTHER_PORT, covers, p);
    OneFilterMeans(AS_TCP, covers, p);
    assert ReapplyFilter(NO_PROTOCOL) == AddFilter(AS_TCP);
  }

  lemma DifferentTexts(a: NatSpec, b: NatSpec)
    requires NoBars(a) && a != b
    ensures NatText(a) != NatText(b)
  {
    if NatText(a) == NatText(b) {
      NatTextIsOwn(a, b);
    }
  }

  /** So is success: a rule whose re-application fails is live, but no packet is translated any more. */
  lemma FailedReapplyLosesRule(covers: Covers, p: Packet)
    ensures var n := Add(Add(NO_NAT, AS_TCP, "", "d", false, true), OTHER_PORT, "", "e", false, true);
      var removed := Remove(n, "e", Refill(true, _ => false));
      "d" in removed.db && Translate(removed.internetBand, covers, p) == None
  {
    DifferentTexts(AS_TCP, OTHER_PORT);
    TwoRules(AS_TCP, OTHER_PORT, Refill(true, _ => false));
  }

  // ---------------------------------------------------------------- the object

  class Manager {
    var db: map<string, NatEntry>
    var order: seq<string>
    var index: map<string, string>
    var clientBand: seq<NatFilter>
    var internetBand: seq<NatFilter>

    ghost function View(): Nat
      reads this
    {
      Nat(db, order, index, clientBand, internetBand)
    }

    constructor ()
      ensures View() == NO_NAT
    {
      db, order, index, clientBand, internetBand := map[], [], map[], [], [];
    }

    method FindExisting(spec: NatSpec) returns (r: Option<string>)
      ensures r == if Finds(View(), spec) then Some(index[NatText(spec)]) else None
    {
      var text := NatText(spec);
      if text in index && index[text] in db {
        return Some(index[text]);
      }
      return None;
    }

    method Store(entry: NatEntry)
      modifies this`db, this`order, this`index
      ensures db == old(db)[entry.id := entry] && order == old(order) + [entry.id]
      ensures index == old(index)[NatText(entry.spec) := entry.id]
    {
      db := db[entry.id := entry];
      order := order + [entry.id];
      index := index[NatText(entry.spec) := entry.id];
    }

    method AddSnat(privateIp: string, publicIp: string, mode: string, id: string, exhausted: bool, ok: bool)
      returns (r: NatReply)
      modifies this
      ensures View() == Add(old(View()), Snat(privateIp, publicIp), mode, id, exhausted, ok)
      ensures r == AddReply(old(View()), Snat(privateIp, publicIp), mode, id, exhausted, ok)
      ensures mode != "static" && mode != "masquerade" <==> r == InvalidMode
      ensures r == Accepted(id) && id !in old(db) ==> ok && db == old(db)[id := NatEntry(id, Snat(privateIp, publicIp), mode, None)]
      ensures !ok ==> unchanged(this)
    {
      AddMeans(View(), Snat(privateIp, publicIp), mode, id, exhausted, ok);
      if mode != "static" && mode != "masquerade" {
        return InvalidMode;
      }
      var existing := FindExisting(Snat(privateIp, publicIp));
      if existing.Some? {
        return Accepted(existing.value);
      }
      if mode == "masquerade" && exhausted {
        return PoolExhausted;
      }
      if !ok {
        return CommandFailed;
      }
      clientBand := clientBand + [NatFilter([SrcIp(privateIp)], [SetSrc(publicIp)])];
      Store(NatEntry(id, Snat(privateIp, publicIp), mode, None));
      return Accepted(id);
    }

    method AddDnat(publicIp: string, publicPort: int, privateIp: string, privatePort: int, protocol: string,
                   id: string, ok: bool)
      returns (r: NatReply)
      modifies this
      ensures var spec := Dnat(publicIp, publicPort, privateIp, privatePort, protocol);
        && View() == Add(old(View()), spec, "", id, false, ok)
        && r == AddReply(old(View()), spec, "", id, false, ok)
      ensures r == Accepted(id) && id !in old(db) ==>
        ok && db == old(db)[id := NatEntry(id, Dnat(publicIp, publicPort, privateIp, privatePort, protocol), "", None)]
      ensures !ok ==> unchanged(this)
    {
      AddMeans(View(), Dnat(publicIp, publicPort, privateIp, privatePort, protocol), "", id, false, ok);
      var spec := Dnat(publicIp, publicPort, privateIp, privatePort, protocol);
      var existing := FindExisting(spec);
      if existing.Some? {
        return Accepted(existing.value);
      }
      if !ok {
        return CommandFailed;
      }
      internetBand := internetBand
        + [NatFilter([DstIp(publicIp), IpProto(protocol), DstPort(publicPort)], [SetDst(privateIp)])];
      Store(NatEntry(id, spec, "", None));
      return Accepted(id);
    }

    method AddPortForward(publicIp: string, publicPort: int, privateIp: string, privatePort: int, protocol: string,
                          id: string, ok: bool)
      returns (r: NatReply)
      modifies this
      ensures var spec := PortForward(publicIp, publicPort, privateIp, privatePort, protocol);
        && View() == Add(old(View()), spec, "", id, false, ok)
        && r == AddReply(old(View()), spec, "", id, false, ok)
      ensures r == Accepted(id) && id !in old(db) ==>
        ok && db == old(db)[id := NatEntry(id, PortForward(publicIp, publicPort, privateIp, privatePort, protocol), "", None)]
      ensures !ok ==> unchanged(this)
    {
      AddMeans(View(), PortForward(publicIp, publicPort, privateIp, privatePort, protocol), "", id, false, ok);
      var spec := PortForward(publicIp, publicPort, privateIp, privatePort, protocol);
      var existing := FindExisting(spec);
      if existing.Some? {
        return Accepted(existing.value);
      }
      if !ok {
        return CommandFailed;
      }
      internetBand := internetBand
        + [NatFilter([DstIp(publicIp), IpProto(protocol), DstPort(publicPort)],
                     [SetDst(privateIp), SetDstPort(protocol, privatePort)])];
      Store(NatEntry(id, spec, "", None));
      return Accepted(id);
    }

    /** Installs a remaining rule again, if it stands on the flushed port and the command succeeds. */
    method Reapply(spec: NatSpec, onClient: bool, ok: bool)
      modifies this`clientBand, this`internetBand
      ensures clientBand == if spec.Snat? && onClient && ok then old(clientBand) + [ReapplyFilter(spec)] else old(clientBand)
      ensures internetBand == if !spec.Snat? && !onClient && ok then old(internetBand) + [ReapplyFilter(spec)] else old(internetBand)
    {
      if !ok {
        return;
      }
      if spec.Snat? && onClient {
        clientBand := clientBand + [ReapplyFilter(spec)];
      } else if !spec.Snat? && !onClient {
        internetBand := internetBand + [ReapplyFilter(spec)];
      }
    }

    /** Re-applies every remaining rule of a port. */
    method ReapplyRemaining(onClient: bool, ok: Reapplied)
      modifies this`clientBand, this`internetBand
      ensures clientBand == if onClient then old(clientBand) + Restored(order, db, true, ok) else old(clientBand)
      ensures internetBand == if onClient then old(internetBand) else old(internetBand) + Restored(order, db, false, ok)
    {
      for i := 0 to |order|
        invariant clientBand == if onClient then old(clientBand) + Restored(order[..i], db, true, ok) else old(clientBand)
        invariant internetBand == if onClient then old(internetBand) else old(internetBand) + Restored(order[..i], db, false, ok)
      {
        assert order[..i + 1][..i] == order[..i];
        if order[i] in db {
          Reapply(db[order[i]].spec, onClient, ok(order[i]));
        }
      }
      assert order[..|order|] == order;
    }

    /** False when there is no such rule. */
    method RemoveNat(id: string, refill: Refill) returns (found: bool)
      modifies this
      ensures found == (id in old(db))
      ensures View() == Remove(old(View()), id, refill)
    {
      if id !in db {
        return false;
      }
      var onClient := db[id].spec.Snat?;
      index := map text | text in index && index[text] != id :: index[text];
      db := db - {id};
      order := WithoutId(order, id);
      if refill.flushed {
        if onClient {
          clientBand := [];
        } else {
          internetBand := [];
        }
      }
      ReapplyRemaining(onClient, refill.ok);
      return true;
    }

    /** The endpoints hold the same entry object as the manager; writing its tenant shows in both. */
    method SetTenant(id: string, tenant: string)
      requires id in db
      modifies this`db
      ensures db == old(db)[id := old(db)[id].(tenant := Some(tenant))]
    {
      db := db[id := db[id].(tenant := Some(tenant))];
    }
  }
}
