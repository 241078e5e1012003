/// The receive side of an interface (section 8.2 of RFC 2328): the checks an OSPF packet header
/// must pass, the keying and creation of the neighbour that sent it, the choice of the message
/// handler, and the Link State Acknowledgment handler (section 13.7 of RFC 2328). The Hello,
/// Database Description, Link State Request and Link State Update handlers are not part of
/// this model; the dispatch names the one that runs.
module Handler {
  import opened Common
  import opened Util
  import opened Constants
  import opened LsaView
  import opened Neighbors
  import opened Interfaces

  /// The fixed fields of an OSPF packet header the handler reads (`router_id` and `area_id` are
  /// the raw big-endian words).
  datatype OspfHeader = OspfHeader(version: nat, messageType: nat, routerId: bv32, areaId: bv32, auType: nat)

  /// The message handler a type selects.
  datatype MessageKind = HelloKind | DbDescriptionKind | LsRequestKind | LsUpdateKind | LsAcknowledgeKind | UnknownKind

  function KindOf(messageType: nat): (k: MessageKind)
    ensures k.UnknownKind? <==> messageType < 1 || messageType > 5
    ensures k.LsAcknowledgeKind? <==> messageType == 5
  {
    if messageType == 1 then HelloKind
    else if messageType == 2 then DbDescriptionKind
    else if messageType == 3 then LsRequestKind
    else if messageType == 4 then LsUpdateKind
    else if messageType == 5 then LsAcknowledgeKind
    else UnknownKind
  }

  /// The area check: the packet's area is the interface's, or it is the backbone (0) while the
  /// router is DR or BDR on the interface.
  predicate AreaAccepted(packetArea: bv32, ifaceArea: Ipv4Addr, isDr: bool, isBdr: bool)
  {
    packetArea == Ip2Hex(ifaceArea) || (packetArea == 0 && (isDr || isBdr))
  }

  /// What the header checks decide before a neighbour is looked at.
  datatype Screen = Drop | AuthUnsupported | Proceed

  /// The checks of `ospf_handler_maker` and `ospf_handle`, in their order: checksum and version,
  /// area, destination AllDRouters on a DROther interface, then the authentication type (any
  /// type but null authentication reaches a `todo!()` panic).
  function ScreenPacket(checksumOk: bool, h: OspfHeader, dest: Ipv4Addr,
                        ifaceArea: Ipv4Addr, isDr: bool, isBdr: bool): (s: Screen)
    ensures s.Drop? <==> !checksumOk || h.version != 2 || !AreaAccepted(h.areaId, ifaceArea, isDr, isBdr)
                         || (dest == AllDRouters && !isDr && !isBdr)
    ensures s.AuthUnsupported? <==> !s.Drop? && h.auType != 0
    ensures s.Proceed? ==> h.version == 2 && h.auType == 0
  {
    if !checksumOk || h.version != 2 then Drop
    else if !AreaAccepted(h.areaId, ifaceArea, isDr, isBdr) then Drop
    else if dest == AllDRouters && !isDr && !isBdr then Drop
    else if h.auType != 0 then AuthUnsupported
    else Proceed
  }

  /// On an interface outside the backbone, a packet claiming the backbone gets through exactly
  /// when the router is DR or BDR there; a packet from the interface's own area always passes
  /// the area check.
  lemma BackboneOnlyViaDrOrBdr(ifaceArea: Ipv4Addr, isDr: bool, isBdr: bool)
    requires ifaceArea != BackboneArea
    ensures AreaAccepted(0, ifaceArea, isDr, isBdr) <==> isDr || isBdr
    ensures AreaAccepted(Ip2Hex(ifaceArea), ifaceArea, isDr, isBdr)
  {
    Ip2HexInjective(ifaceArea, BackboneArea);
    assert Ip2Hex(BackboneArea) == 0;
  }

  /// A DROther interface never handles a packet sent to AllDRouters, and a packet that passes
  /// every check on one interface state passes it as DR too.
  lemma AllDRoutersNeedsDrOrBdr(checksumOk: bool, h: OspfHeader, ifaceArea: Ipv4Addr, isDr: bool, isBdr: bool)
    ensures ScreenPacket(checksumOk, h, AllDRouters, ifaceArea, false, false).Drop?
    ensures ScreenPacket(checksumOk, h, AllDRouters, ifaceArea, isDr, isBdr).Proceed? ==>
              ScreenPacket(checksumOk, h, AllDRouters, ifaceArea, true, isBdr).Proceed?
  {
  }

  /// The neighbour key and router id: the source address and the header's router id, swapped on
  /// point-to-point and virtual links, where neighbours are keyed by router id.
  function NeighborKey(netType: NetType, packetRouterId: Ipv4Addr, src: Ipv4Addr): (r: (Ipv4Addr, Ipv4Addr))
    ensures (netType == P2P || netType == Virtual) ==> r.0 == packetRouterId
    ensures !(netType == P2P || netType == Virtual) ==> r.0 == src
    ensures {r.0, r.1} == {packetRouterId, src}
  {
    if netType == P2P || netType == Virtual then (packetRouterId, src) else (src, packetRouterId)
  }

  /// The outcome of `ospf_handle`.
  datatype Handled = Dropped | AuthPanic | Dispatched(key: Ipv4Addr, kind: MessageKind)

  /// `ospf_handle` behind `ospf_handler_maker`'s checksum and version test: a packet that passes
  /// the checks has its neighbour created if absent (an existing neighbour is kept as it is),
  /// and is handed to the handler of its type; an unknown type is ignored once the neighbour
  /// exists.
  method OspfHandle(iface: Interface, checksumOk: bool, h: OspfHeader, src: Ipv4Addr, dest: Ipv4Addr)
    returns (v: Handled)
    requires iface.Distinct()
    modifies iface`neighbors
    ensures var s := ScreenPacket(checksumOk, h, dest, iface.areaId, iface.IsDr(), iface.IsBdr());
            (v.Dropped? <==> s.Drop?) && (v.AuthPanic? <==> s.AuthUnsupported?)
    ensures !v.Dispatched? ==> iface.neighbors == old(iface.neighbors)
    ensures v.Dispatched? ==> v.key == NeighborKey(iface.netType, Hex2Ip(h.routerId), src).0 && v.kind == KindOf(h.messageType)
    ensures v.Dispatched? ==> v.key in iface.neighbors && iface.neighbors.Keys == old(iface.neighbors).Keys + {v.key}
    ensures v.Dispatched? && v.key in old(iface.neighbors) ==> iface.neighbors == old(iface.neighbors)
    ensures v.Dispatched? && v.key !in old(iface.neighbors) ==>
              && iface.neighbors == old(iface.neighbors)[v.key := iface.neighbors[v.key]]
              && fresh(iface.neighbors[v.key])
              && iface.neighbors[v.key].ipAddr == v.key
              && iface.neighbors[v.key].routerId == NeighborKey(iface.netType, Hex2Ip(h.routerId), src).1
              && iface.neighbors[v.key].state == Down
    ensures iface.Distinct()
  {
    var s := ScreenPacket(checksumOk, h, dest, iface.areaId, iface.IsDr(), iface.IsBdr());
    if s.Drop? {
      return Dropped;
    }
    if s.AuthUnsupported? {
      return AuthPanic;
    }
    var routerId := Hex2Ip(h.routerId);
    var ip := src;
    if iface.netType == P2P || iface.netType == Virtual {
      routerId, ip := ip, routerId;
    }
    assert (ip, routerId) == NeighborKey(iface.netType, Hex2Ip(h.routerId), src);
    InsertNeighbor(iface, ip, routerId);
    v := Dispatched(ip, KindOf(h.messageType));
  }

  /// The neighbour under `ip` is created, Down, if there is none; an existing one is kept.
  method InsertNeighbor(iface: Interface, ip: Ipv4Addr, routerId: Ipv4Addr)
    requires iface.Distinct()
    modifies iface`neighbors
    ensures ip in iface.neighbors && iface.neighbors.Keys == old(iface.neighbors).Keys + {ip}
    ensures ip in old(iface.neighbors) ==> iface.neighbors == old(iface.neighbors)
    ensures ip !in old(iface.neighbors) ==>
              && iface.neighbors == old(iface.neighbors)[ip := iface.neighbors[ip]]
              && fresh(iface.neighbors[ip])
              && iface.neighbors[ip].ipAddr == ip && iface.neighbors[ip].routerId == routerId
              && iface.neighbors[ip].state == Down
    ensures iface.Distinct()
  {
    if ip !in iface.neighbors {
      var n := new Neighbor(routerId, ip);
      iface.neighbors := iface.neighbors[ip := n];
    }
  }

  // ---------------------------------------------------------------------------
  // Link State Acknowledgment

  /// The indices the acknowledged headers name.
  function AckedIndices(acks: seq<LsaHeader>): set<LsaIndex>
  {
    set a | a in acks :: IndexOf(a)
  }

  /// The retransmission list after removing, one acknowledgment after the other, each
  /// acknowledged index.
  function WithoutAcked(list: set<LsaIndex>, acks: seq<LsaHeader>): (r: set<LsaIndex>)
    ensures r == list - AckedIndices(acks)
  {
    if acks == [] then list
    else
      assert AckedIndices(acks) == AckedIndices(acks[..|acks| - 1]) + {IndexOf(acks[|acks| - 1])};
      WithoutAcked(list, acks[..|acks| - 1]) - {IndexOf(acks[|acks| - 1])}
  }

  /// Acknowledging twice is acknowledging once, and the order of acknowledgment packets does
  /// not matter.
  lemma AcksCommute(list: set<LsaIndex>, a: seq<LsaHeader>, b: seq<LsaHeader>)
    ensures WithoutAcked(WithoutAcked(list, a), b) == WithoutAcked(WithoutAcked(list, b), a)
    ensures WithoutAcked(WithoutAcked(list, a), a) == WithoutAcked(list, a)
  {
  }

  /// `ack::handle`: nothing happens below Exchange; otherwise every acknowledged index leaves
  /// the retransmission list, indices not acknowledged stay, and nothing else of the neighbour
  /// changes.
  method HandleAck(n: Neighbor, acks: seq<LsaHeader>)
    modifies n`lsRetransmissionList
    ensures !AtLeast(n.state, Exchange) ==> n.lsRetransmissionList == old(n.lsRetransmissionList)
    ensures AtLeast(n.state, Exchange) ==> n.lsRetransmissionList == WithoutAcked(old(n.lsRetransmissionList), acks)
  {
    if !AtLeast(n.state, Exchange) {
      return;
    }
    var i := 0;
    while i < |acks|
      invariant 0 <= i <= |acks|
      invariant n.lsRetransmissionList == WithoutAcked(old(n.lsRetransmissionList), acks[..i])
    {
      assert acks[..i + 1][..i] == acks[..i];
      n.lsRetransmissionList := n.lsRetransmissionList - {IndexOf(acks[i])};
      i := i + 1;
    }
    assert acks[..i] == acks;
  }
}
