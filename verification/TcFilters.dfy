/** The traffic-control filters of tc-firewall: how a rule becomes one filter on each port, and when
    a packet is redirected. The kernel is an ordered filter list per port. */
module TcFilters {
  import opened Prelude
  import opened PriorityMatch

  datatype FilterKey =
    | IpProto(protocol: string)
    | SrcIp(address: string)
    | DstIp(address: string)
    | SrcPort(port: int)
    | DstPort(port: int)

  datatype FilterAction = Redirect | DropPacket

  /** A filter matches a packet that satisfies all its keys. */
  datatype Filter = Filter(handle: nat, priority: int, keys: seq<FilterKey>, action: FilterAction)

  datatype Packet = Packet(src: string, dst: string, srcPort: int, dstPort: int, protocol: string)

  /** The fields a rule is matched on. */
  datatype Fields = Fields(src: Option<string>, dst: Option<string>, srcPort: Option<int>, dstPort: Option<int>)

  function Reversed(p: Packet): Packet {
    Packet(p.dst, p.src, p.dstPort, p.srcPort, p.protocol)
  }

  function Swapped(f: Fields): Fields {
    Fields(f.dst, f.src, f.dstPort, f.srcPort)
  }

  // ---------------------------------------------------------------- building a filter

  predicate GivenText(s: Option<string>) {
    s.Some? && s.value != ""
  }

  predicate GivenPort(n: Option<int>) {
    n.Some? && n.value != 0
  }

  predicate HasPorts(protocol: string) {
    protocol == "tcp" || protocol == "udp"
  }

  predicate NamesProtocol(protocol: string) {
    protocol != "" && protocol != "any" && protocol != "ip"
  }

  function FlowerKeys(f: Fields, protocol: string): seq<FilterKey> {
    (if NamesProtocol(protocol) then [IpProto(protocol)] else [])
    + (if GivenText(f.src) then [SrcIp(f.src.value)] else [])
    + (if GivenText(f.dst) then [DstIp(f.dst.value)] else [])
    + (if GivenPort(f.srcPort) && HasPorts(protocol) then [SrcPort(f.srcPort.value)] else [])
    + (if GivenPort(f.dstPort) && HasPorts(protocol) then [DstPort(f.dstPort.value)] else [])
  }

  /** The command is built by appending one key after another. */
  method BuildFlowerCmd(f: Fields, protocol: string) returns (cmd: seq<FilterKey>)
    ensures cmd == FlowerKeys(f, protocol)
  {
    cmd := [];
    if NamesProtocol(protocol) {
      cmd := cmd + [IpProto(protocol)];
    }
    if GivenText(f.src) {
      cmd := cmd + [SrcIp(f.src.value)];
    }
    if GivenText(f.dst) {
      cmd := cmd + [DstIp(f.dst.value)];
    }
    if GivenPort(f.srcPort) && HasPorts(protocol) {
      cmd := cmd + [SrcPort(f.srcPort.value)];
    }
    if GivenPort(f.dstPort) && HasPorts(protocol) {
      cmd := cmd + [DstPort(f.dstPort.value)];
    }
  }

  // ---------------------------------------------------------------- matching

  /** Whether an address pattern covers an address is left to the kernel: any relation will do. */
  type Covers = (string, string) -> bool

  predicate KeyHit(covers: Covers, key: FilterKey, p: Packet) {
    match key
    case IpProto(protocol) => p.protocol == protocol
    case SrcIp(address) => covers(address, p.src)
    case DstIp(address) => covers(address, p.dst)
    case SrcPort(port) => p.srcPort == port
    case DstPort(port) => p.dstPort == port
  }

  predicate AllHit(covers: Covers, keys: seq<FilterKey>, p: Packet) {
    forall i :: 0 <= i < |keys| ==> KeyHit(covers, keys[i], p)
  }

  /** A packet hits a rule's keys when it agrees with every field the keys take from the rule. */
  predicate FieldsHit(covers: Covers, f: Fields, protocol: string, p: Packet) {
    && (NamesProtocol(protocol) ==> p.protocol == protocol)
    && (GivenText(f.src) ==> covers(f.src.value, p.src))
    && (GivenText(f.dst) ==> covers(f.dst.value, p.dst))
    && (GivenPort(f.srcPort) && HasPorts(protocol) ==> p.srcPort == f.srcPort.value)
    && (GivenPort(f.dstPort) && HasPorts(protocol) ==> p.dstPort == f.dstPort.value)
  }

  lemma AllHitAppend(covers: Covers, a: seq<FilterKey>, b: seq<FilterKey>, p: Packet)
    ensures AllHit(covers, a + b, p) <==> AllHit(covers, a, p) && AllHit(covers, b, p)
  {
    if AllHit(covers, a + b, p) {
      assert forall i :: 0 <= i < |a| ==> (a + b)[i] == a[i];
      assert forall i :: 0 <= i < |b| ==> (a + b)[|a| + i] == b[i];
    }
  }

  lemma FlowerKeysMatchFields(covers: Covers, f: Fields, protocol: string, p: Packet)
    ensures AllHit(covers, FlowerKeys(f, protocol), p) <==> FieldsHit(covers, f, protocol, p)
  {
    var a := if NamesProtocol(protocol) then [IpProto(protocol)] else [];
    var b := if GivenText(f.src) then [SrcIp(f.src.value)] else [];
    var c := if GivenText(f.dst) then [DstIp(f.dst.value)] else [];
    var d := if GivenPort(f.srcPort) && HasPorts(protocol) then [SrcPort(f.srcPort.value)] else [];
    var e := if GivenPort(f.dstPort) && HasPorts(protocol) then [DstPort(f.dstPort.value)] else [];
    assert AllHit(covers, a, p) <==> (NamesProtocol(protocol) ==> p.protocol == protocol) by {
      assert NamesProtocol(protocol) ==> a[0] == IpProto(protocol);
    }
    assert AllHit(covers, b, p) <==> (GivenText(f.src) ==> covers(f.src.value, p.src)) by {
      assert GivenText(f.src) ==> b[0] == SrcIp(f.src.value);
    }
    assert AllHit(covers, c, p) <==> (GivenText(f.dst) ==> covers(f.dst.value, p.dst)) by {
      assert GivenText(f.dst) ==> c[0] == DstIp(f.dst.value);
    }
    assert AllHit(covers, d, p) <==> (GivenPort(f.srcPort) && HasPorts(protocol) ==> p.srcPort == f.srcPort.value) by {
      assert GivenPort(f.srcPort) && HasPorts(protocol) ==> d[0] == SrcPort(f.srcPort.value);
    }
    assert AllHit(covers, e, p) <==> (GivenPort(f.dstPort) && HasPorts(protocol) ==> p.dstPort == f.dstPort.value) by {
      assert GivenPort(f.dstPort) && HasPorts(protocol) ==> e[0] == DstPort(f.dstPort.value);
    }
    AllHitAppend(covers, a, b, p);
    AllHitAppend(covers, a + b, c, p);
    AllHitAppend(covers, a + b + c, d, p);
    AllHitAppend(covers, a + b + c + d, e, p);
  }

  /** The keys of the swapped fields hit a reversed packet exactly when the keys hit the packet. */
  lemma SwappedKeysHitReversed(covers: Covers, f: Fields, protocol: string, p: Packet)
    ensures AllHit(covers, FlowerKeys(Swapped(f), protocol), Reversed(p))
       <==> AllHit(covers, FlowerKeys(f, protocol), p)
  {
    FlowerKeysMatchFields(covers, f, protocol, p);
    FlowerKeysMatchFields(covers, Swapped(f), protocol, Reversed(p));
  }

  // ---------------------------------------------------------------- classification

  function FilterPriority(): Filter -> int {
    (f: Filter) => f.priority
  }

  function HitBy(covers: Covers, p: Packet): Filter -> bool {
    (f: Filter) => AllHit(covers, f.keys, p)
  }

  /** The filter that decides a packet: least priority, then installation order. */
  function Deciding(filters: seq<Filter>, covers: Covers, p: Packet): Option<nat> {
    Best(filters, FilterPriority(), HitBy(covers, p))
  }

  predicate Redirected(filters: seq<Filter>, covers: Covers, p: Packet) {
    var i := Deciding(filters, covers, p);
    i.Some? && filters[i.value].action == Redirect
  }

  /** Two filter lists, position by position of the same priority and action, and the second
      hitting the reverse of what the first hits. */
  ghost predicate Mirrored(a: seq<Filter>, b: seq<Filter>) {
    && |a| == |b|
    && forall i :: 0 <= i < |a| ==>
         && a[i].priority == b[i].priority && a[i].action == b[i].action
         && forall covers: Covers, p: Packet :: AllHit(covers, a[i].keys, p) <==> AllHit(covers, b[i].keys, Reversed(p))
  }

  lemma MirroredDecideAlike(a: seq<Filter>, b: seq<Filter>, covers: Covers, p: Packet)
    requires Mirrored(a, b)
    ensures Deciding(a, covers, p) == Deciding(b, covers, Reversed(p))
  {
    BestDependsOnPriorityAndMatch(a, FilterPriority(), HitBy(covers, p), b, FilterPriority(), HitBy(covers, Reversed(p)));
  }

  lemma MirroredRedirectAlike(a: seq<Filter>, b: seq<Filter>, covers: Covers, p: Packet)
    requires Mirrored(a, b)
    ensures Redirected(a, covers, p) <==> Redirected(b, covers, Reversed(p))
  {
    MirroredDecideAlike(a, b, covers, p);
  }

  // ---------------------------------------------------------------- deleting by handle

  /** The list without the filters of this handle and priority. */
  function Deleted(filters: seq<Filter>, handle: nat, priority: int): seq<Filter> {
    if filters == [] then []
    else
      var last := filters[|filters| - 1];
      var front := Deleted(filters[..|filters| - 1], handle, priority);
      if last.handle == handle && last.priority == priority then front else front + [last]
  }

  predicate HandleFree(filters: seq<Filter>, handle: nat, priority: int) {
    forall i :: 0 <= i < |filters| ==> !(filters[i].handle == handle && filters[i].priority == priority)
  }

  lemma {:induction false} DeletedFree(filters: seq<Filter>, handle: nat, priority: int)
    requires HandleFree(filters, handle, priority)
    ensures Deleted(filters, handle, priority) == filters
  {
    if filters != [] {
      DeletedFree(filters[..|filters| - 1], handle, priority);
      assert filters == filters[..|filters| - 1] + [filters[|filters| - 1]];
    }
  }
}
