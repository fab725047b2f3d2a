/** One high-availability node: the `HAManager` of tc-firewall.
    The functions say what every operation does to a node's state as a value; the class is the
    manager itself, with each method proved against the matching function. */
module HaNode {
  import opened Prelude

  datatype Role = Active | Standby | Fencing

  datatype Action = NoAction | PeerMustDemote | SelfDemoted | FencingEqualGeneration

  /** What an attempt to write the generation file did: either the new value is on disk, or the
      write failed and the file now holds `left` (None when it is missing or unreadable). */
  datatype DiskWrite = Written | Failed(left: Option<int>)

  /** `hooked` says whether a demotion callback is set. */
  datatype Node = Node(
    timeoutMs: int,
    hooked: bool,
    role: Role,
    generation: int,
    peerGeneration: int,
    peerRole: Option<Role>,
    lastHeartbeat: real,     // 0.0 until the first heartbeat arrives
    disk: Option<int>,       // the generation file, None when it cannot be read as a number
    flushes: nat             // calls of the demotion callback since the process started
  )

  function LoadGeneration(disk: Option<int>): int {
    if disk.Some? then disk.value else 1
  }

  function Boot(peered: bool, timeoutMs: int, hooked: bool, disk: Option<int>): Node {
    Node(timeoutMs, hooked, if peered then Standby else Active, LoadGeneration(disk), 0, None, 0.0, disk, 0)
  }

  function ParseRole(s: string): Option<Role> {
    if s == "ACTIVE" then Some(Active)
    else if s == "STANDBY" then Some(Standby)
    else if s == "FENCING" then Some(Fencing)
    else None
  }

  /** The role as a heartbeat spells it. */
  function RoleText(r: Role): string {
    match r
    case Active => "ACTIVE"
    case Standby => "STANDBY"
    case Fencing => "FENCING"
  }

  lemma RoleTextReads(r: Role)
    ensures ParseRole(RoleText(r)) == Some(r)
  {
    assert "ACTIVE"[0] != "STANDBY"[0] && "ACTIVE"[0] != "FENCING"[0] && "STANDBY"[0] != "FENCING"[0];
  }

  function DemoteNow(n: Node): Node {
    n.(role := Standby, flushes := n.flushes + if n.hooked then 1 else 0)
  }

  /** The verdict of split-brain resolution on a heartbeat claiming ACTIVE at `peerGeneration`. */
  function Verdict(n: Node, peerGeneration: int, peerRole: Role): Action {
    if n.role != Active || peerRole != Active then NoAction
    else if n.generation > peerGeneration then PeerMustDemote
    else if n.generation < peerGeneration then SelfDemoted
    else FencingEqualGeneration
  }

  function Receive(n: Node, now: real, peerGeneration: int, peerRole: Role): Node {
    var heard := n.(lastHeartbeat := now, peerGeneration := peerGeneration, peerRole := Some(peerRole));
    match Verdict(n, peerGeneration, peerRole)
    case SelfDemoted => DemoteNow(heard)
    case FencingEqualGeneration => heard.(role := Fencing)
    case _ => heard
  }

  /** A heartbeat as it arrives. An unknown role is rejected, but only after the time and generation
      were stored. */
  function Hear(n: Node, now: real, peerGeneration: int, peerRole: string): Node {
    match ParseRole(peerRole)
    case Some(role) => Receive(n, now, peerGeneration, role)
    case None => n.(lastHeartbeat := now, peerGeneration := peerGeneration)
  }

  function Promote(n: Node, write: DiskWrite): Node {
    if n.role == Active then n
    else n.(generation := n.generation + 1,
            role := Active,
            disk := if write.Written? then Some(n.generation + 1) else write.left)
  }

  function Demote(n: Node): Node {
    if n.role == Standby then n else DemoteNow(n)
  }

  predicate PeerAlive(n: Node, now: real) {
    n.lastHeartbeat != 0.0 && (now - n.lastHeartbeat) * 1000.0 < n.timeoutMs as real
  }

  predicate TimedOut(n: Node, now: real) {
    n.role == Standby && !PeerAlive(n, now) && n.lastHeartbeat > 0.0
  }

  /** One pass of the monitor loop. */
  function Tick(n: Node, now: real, write: DiskWrite): Node {
    if TimedOut(n, now) then Promote(n, write) else n
  }

  /** The manager object. The clock, the generation file and the outcome of writing it are
      arguments of the operations that consult them. */
  class HAManager {
    const timeoutMs: int
    const hooked: bool
    var role: Role
    var generation: int
    var peerGeneration: int
    var peerRole: Option<Role>
    var lastHeartbeat: real
    var disk: Option<int>
    var flushes: nat

    ghost function View(): Node
      reads this
    {
      Node(timeoutMs, hooked, role, generation, peerGeneration, peerRole, lastHeartbeat, disk, flushes)
    }

    constructor (peered: bool, timeoutMs: int, hooked: bool, disk: Option<int>)
      ensures View() == Boot(peered, timeoutMs, hooked, disk)
      ensures role == if peered then Standby else Active
      ensures generation == if disk.Some? then disk.value else 1
      ensures lastHeartbeat == 0.0 && peerGeneration == 0 && peerRole == None && flushes == 0
      ensures this.timeoutMs == timeoutMs && this.hooked == hooked && this.disk == disk
    {
      this.timeoutMs := timeoutMs;
      this.hooked := hooked;
      if peered {
        role := Standby;
      } else {
        role := Active;
      }
      this.disk := disk;
      generation := LoadGeneration(disk);
      lastHeartbeat := 0.0;
      peerGeneration := 0;
      peerRole := None;
      flushes := 0;
    }

    /** An ACTIVE node that hears ACTIVE compares generations: above its own it yields, at its own it is
        fenced, below its own the peer must yield. Any other heartbeat leaves the role alone. */
    method ReceiveHeartbeat(now: real, peerGeneration: int, peerRole: string) returns (r: Option<Action>)
      modifies this
      ensures View() == Hear(old(View()), now, peerGeneration, peerRole)
      ensures lastHeartbeat == now && this.peerGeneration == peerGeneration && generation == old(generation) && disk == old(disk)
      ensures peerRole == "ACTIVE" ==> this.peerRole == Some(Active)
      ensures peerRole == "STANDBY" ==> this.peerRole == Some(Standby)
      ensures peerRole == "FENCING" ==> this.peerRole == Some(Fencing)
      ensures r == None <==> peerRole != "ACTIVE" && peerRole != "STANDBY" && peerRole != "FENCING"
      ensures r == None ==> this.peerRole == old(this.peerRole)
      ensures old(role) == Active && peerRole == "ACTIVE" && peerGeneration > generation ==>
                r == Some(SelfDemoted) && role == Standby && flushes == old(flushes) + if hooked then 1 else 0
      ensures old(role) == Active && peerRole == "ACTIVE" && peerGeneration == generation ==>
                r == Some(FencingEqualGeneration) && role == Fencing && flushes == old(flushes)
      ensures old(role) == Active && peerRole == "ACTIVE" && peerGeneration < generation ==>
                r == Some(PeerMustDemote) && role == Active && flushes == old(flushes)
      ensures old(role) != Active || peerRole != "ACTIVE" ==>
                (r == None || r == Some(NoAction)) && role == old(role) && flushes == old(flushes)
    {
      lastHeartbeat := now;
      this.peerGeneration := peerGeneration;
      var parsed := ParseRole(peerRole);
      if parsed.None? {
        return None;
      }
      this.peerRole := parsed;
      if role == Active && parsed.value == Active {
        var action := ResolveSplitBrain(peerGeneration);
        return Some(action);
      }
      return Some(NoAction);
    }

    method ResolveSplitBrain(peerGeneration: int) returns (action: Action)
      requires role == Active
      modifies this
      ensures action == Verdict(old(View()), peerGeneration, Active)
      ensures View() == match action
                        case SelfDemoted => DemoteNow(old(View()))
                        case FencingEqualGeneration => old(View()).(role := Fencing)
                        case _ => old(View())
    {
      if generation > peerGeneration {
        return PeerMustDemote;
      } else if generation < peerGeneration {
        DemoteInternal();
        return SelfDemoted;
      } else {
        role := Fencing;
        return FencingEqualGeneration;
      }
    }

    /** What the sender loop posts to the peer. */
    method HeartbeatToSend() returns (generation: int, role: string)
      ensures generation == this.generation
      ensures role == if this.role == Active then "ACTIVE" else if this.role == Standby then "STANDBY" else "FENCING"
    {
      generation := this.generation;
      role := RoleText(this.role);
    }

    /** Returns whether the node was promoted; false means it was already active. */
    method PromoteNow(write: DiskWrite) returns (promoted: bool)
      modifies this
      ensures promoted == (old(role) != Active)
      ensures View() == Promote(old(View()), write)
      ensures role == Active && generation == old(generation) + if promoted then 1 else 0
      ensures promoted && write.Written? ==> disk == Some(generation)
      ensures promoted && write.Failed? ==> disk == write.left
      ensures !promoted ==> disk == old(disk)
      ensures unchanged(this`peerGeneration, this`peerRole, this`lastHeartbeat, this`flushes)
    {
      if role == Active {
        return false;
      }
      generation := generation + 1;
      role := Active;
      PersistGeneration(write);
      return true;
    }

    method PersistGeneration(write: DiskWrite)
      modifies this`disk
      ensures disk == if write.Written? then Some(generation) else write.left
    {
      if write.Written? {
        disk := Some(generation);
      } else {
        disk := write.left;
      }
    }

    method DemoteByOperator() returns (demoted: bool)
      modifies this
      ensures demoted == (old(role) != Standby)
      ensures View() == Demote(old(View()))
      ensures role == Standby && flushes == old(flushes) + if demoted && hooked then 1 else 0
      ensures unchanged(this`generation, this`disk, this`peerGeneration, this`peerRole, this`lastHeartbeat)
    {
      if role == Standby {
        return false;
      }
      DemoteInternal();
      return true;
    }

    method DemoteInternal()
      modifies this
      ensures View() == DemoteNow(old(View()))
    {
      role := Standby;
      if hooked {
        flushes := flushes + 1;
      }
    }

    /** Promotes a STANDBY node that has heard from its peer, but not for the whole timeout. */
    method MonitorOnce(now: real, write: DiskWrite)
      modifies this
      ensures View() == Tick(old(View()), now, write)
      ensures var due := old(role) == Standby && lastHeartbeat > 0.0 && (now - lastHeartbeat) * 1000.0 >= timeoutMs as real;
        role == (if due then Active else old(role)) && generation == old(generation) + if due then 1 else 0
      ensures unchanged(this`peerGeneration, this`peerRole, this`lastHeartbeat, this`flushes)
    {
      var alive := lastHeartbeat != 0.0 && (now - lastHeartbeat) * 1000.0 < timeoutMs as real;
      if role == Standby && !alive {
        if lastHeartbeat > 0.0 {
          var _ := PromoteNow(write);
        }
      }
    }
  }
}
