/// An OSPF interface as the daemon keeps it (section 9 of RFC 2328): its configuration, its
/// state and DR/BDR view, and its neighbours keyed by address (by router id on point-to-point
/// and virtual links). The transport sender, the listening task and the timers' tasks are not
/// part of this model; a timer is modelled by whether it is armed.
module Interfaces {
  import opened Common
  import opened Util
  import opened Neighbors

  datatype NetType = P2P | Broadcast | Nbma | P2MP | Virtual

  /// `InterfaceState`, ordered by declaration.
  datatype InterfaceState = IfDown | Loopback | Waiting | PointToPoint | DrOther | Backup | Dr

  class Interface {
    var interfaceName: string
    var netType: NetType
    var state: InterfaceState
    var ipAddr: Ipv4Addr
    var ipMask: Ipv4Addr
    var areaId: Ipv4Addr
    var helloInterval: nat
    var deadInterval: nat
    var infTransDelay: nat
    var routerPriority: nat
    var externalRouting: bool
    var helloTimer: bool
    var waitTimer: bool
    var neighbors: map<Ipv4Addr, Neighbor>
    var dr: Ipv4Addr
    var bdr: Ipv4Addr
    var cost: nat
    var rxmtInterval: nat
    var auType: nat
    var auKey: nat

    /// `Interface::new`: a broadcast interface, Down, hello 10 s, dead 40 s, transmission delay
    /// 1 s, priority 1, external routing, no timers, no neighbours, no DR or BDR, cost 0,
    /// retransmission 1 s, no authentication.
    constructor(areaId: Ipv4Addr, interfaceName: string, ipAddr: Ipv4Addr, ipMask: Ipv4Addr)
      ensures this.areaId == areaId && this.interfaceName == interfaceName
      ensures this.ipAddr == ipAddr && this.ipMask == ipMask
      ensures netType == Broadcast && state == IfDown
      ensures helloInterval == 10 && deadInterval == 40 && infTransDelay == 1 && routerPriority == 1
      ensures externalRouting && !helloTimer && !waitTimer && neighbors == map[]
      ensures dr == Unspecified && bdr == Unspecified && cost == 0 && rxmtInterval == 1 && auType == 0 && auKey == 0
    {
      this.interfaceName := interfaceName;
      netType := Broadcast;
      state := IfDown;
      this.ipAddr := ipAddr;
      this.ipMask := ipMask;
      this.areaId := areaId;
      helloInterval := 10;
      deadInterval := 40;
      infTransDelay := 1;
      routerPriority := 1;
      externalRouting := true;
      helloTimer := false;
      waitTimer := false;
      neighbors := map[];
      dr := Unspecified;
      bdr := Unspecified;
      cost := 0;
      rxmtInterval := 1;
      auType := 0;
      auKey := 0;
    }

    /// `Interface::reset`: both timers stopped, no DR or BDR, cost 0; an interface with an
    /// address is then DROther.
    method Reset()
      modifies this`helloTimer, this`waitTimer, this`dr, this`bdr, this`cost
      ensures !helloTimer && !waitTimer && dr == Unspecified && bdr == Unspecified && cost == 0
      ensures ipAddr != Unspecified ==> IsDrOther()
    {
      helloTimer := false;
      waitTimer := false;
      dr := Unspecified;
      bdr := Unspecified;
      cost := 0;
    }

    predicate IsDr()
      reads this
    {
      dr == ipAddr
    }

    predicate IsBdr()
      reads this
    {
      bdr == ipAddr
    }

    /// `is_drother`: neither DR nor BDR.
    predicate IsDrOther()
      reads this
    {
      !IsDr() && !IsBdr()
    }

    /// `shrink_neighbors`: exactly the neighbours not in Down stay, under the same keys.
    method ShrinkNeighbors()
      modifies this`neighbors
      ensures neighbors.Keys == set k | k in old(neighbors) && old(neighbors)[k].state != Down
      ensures forall k | k in neighbors :: neighbors[k] == old(neighbors)[k] && neighbors[k].state != Down
    {
      neighbors := map k | k in neighbors && neighbors[k].state != Down :: neighbors[k];
    }

    /// Distinct keys hold distinct neighbours (each is created on its own).
    ghost predicate Distinct()
      reads this
    {
      forall a, b | a in neighbors && b in neighbors && a != b :: neighbors[a] != neighbors[b]
    }
  }
}
