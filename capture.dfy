/// The capture daemon's filter (section 8.2 of RFC 2328, "locally originated packets" and
/// "destination address" checks): which captured Ethernet frames reach the OSPF handler. A
/// frame is already split into its ethertype and, when its payload parses as an IPv4 header,
/// that header; the channel and the receive loop are not part of this model.
module Capture {
  import opened Common
  import opened Util
  import opened Constants

  /// An address of a network interface, as the link layer lists it.
  datatype IpAddr = V4(v4: Ipv4Addr) | V6(v6: seq<bv8>)

  /// The interface's IPv4 addresses, in the order listed; IPv6 ones are dropped.
  function Ipv4Only(addrs: seq<IpAddr>): (ips: seq<Ipv4Addr>)
    ensures |ips| <= |addrs|
  {
    if addrs == [] then []
    else
      Ipv4Only(addrs[..|addrs| - 1])
        + (match addrs[|addrs| - 1] case V4(ip) => [ip] case V6(_) => [])
  }

  /// An address is kept exactly when it is listed as an IPv4 address.
  lemma {:induction false} Ipv4OnlyMembers(addrs: seq<IpAddr>, ip: Ipv4Addr)
    ensures ip in Ipv4Only(addrs) <==> V4(ip) in addrs
  {
    if addrs != [] {
      var pre := addrs[..|addrs| - 1];
      Ipv4OnlyMembers(pre, ip);
      assert addrs == pre + [addrs[|addrs| - 1]];
    }
  }

  /// A list of IPv4 addresses alone is kept as it is.
  lemma {:induction false} Ipv4OnlyKeepsV4(ips: seq<Ipv4Addr>)
    ensures Ipv4Only(seq(|ips|, i requires 0 <= i < |ips| => V4(ips[i]))) == ips
  {
    if ips != [] {
      var pre := ips[..|ips| - 1];
      Ipv4OnlyKeepsV4(pre);
      var addrs := seq(|ips|, i requires 0 <= i < |ips| => V4(ips[i]));
      assert addrs[..|addrs| - 1] == seq(|pre|, i requires 0 <= i < |pre| => V4(pre[i]));
      assert ips == pre + [ips[|ips| - 1]];
    }
  }

  /// `check_ip` against a given AllSPFRouters group: the group, AllDRouters, or one of the
  /// interface's own addresses.
  predicate CheckIpWith(allSpf: Ipv4Addr, ips: seq<Ipv4Addr>, ip: Ipv4Addr)
  {
    ip == allSpf || ip == AllDRouters || ip in ips
  }

  /// `check_ip` as written, with AllSPFRouters declared as 244.0.0.5.
  predicate CheckIpAsWritten(ips: seq<Ipv4Addr>, ip: Ipv4Addr)
  {
    CheckIpWith(AllSpfRoutersAsWritten, ips, ip)
  }

  /// `check_ip` with the RFC's AllSPFRouters, 224.0.0.5.
  predicate CheckIp(ips: seq<Ipv4Addr>, ip: Ipv4Addr)
  {
    CheckIpWith(AllSpfRouters, ips, ip)
  }

  const Ipv4EtherType: nat := 0x0800
  /// IP protocol number 89.
  const OspfProtocol: nat := 89
  /// The fixed part of the OSPF packet header: version, type, length, router id, area id,
  /// checksum, authentication type and authentication, 24 bytes.
  const OspfHeaderLength: nat := 24

  datatype Ipv4Header = Ipv4Header(source: Ipv4Addr, destination: Ipv4Addr, protocol: nat, payload: seq<bv8>)

  datatype Frame = Frame(etherType: nat, ipv4: Option<Ipv4Header>)

  /// What `handle_packet` does with a frame: nothing, a panic on an OSPF payload shorter than
  /// the OSPF header, or a call of the handler with source, destination and OSPF packet.
  datatype Delivery = Ignored | BadOspfPanic | Deliver(source: Ipv4Addr, destination: Ipv4Addr, packet: seq<bv8>)

  /// `handle_packet` with `check` as its address test.
  function HandlePacketWith(allSpf: Ipv4Addr, ips: seq<Ipv4Addr>, f: Frame): (d: Delivery)
    ensures !d.Ignored? ==> f.etherType == Ipv4EtherType && f.ipv4.Some? && f.ipv4.value.protocol == OspfProtocol
    ensures !d.Ignored? ==> !CheckIpWith(allSpf, ips, f.ipv4.value.source) && CheckIpWith(allSpf, ips, f.ipv4.value.destination)
    ensures d.BadOspfPanic? <==> !d.Ignored? && |f.ipv4.value.payload| < OspfHeaderLength
    ensures d.Deliver? ==> d == Deliver(f.ipv4.value.source, f.ipv4.value.destination, f.ipv4.value.payload)
  {
    if f.etherType != Ipv4EtherType then Ignored
    else match f.ipv4
      case None => Ignored
      case Some(h) =>
        if CheckIpWith(allSpf, ips, h.source) then Ignored
        else if !CheckIpWith(allSpf, ips, h.destination) then Ignored
        else if h.protocol != OspfProtocol then Ignored
        else if |h.payload| < OspfHeaderLength then BadOspfPanic
        else Deliver(h.source, h.destination, h.payload)
  }

  function HandlePacketAsWritten(ips: seq<Ipv4Addr>, f: Frame): Delivery
  {
    HandlePacketWith(AllSpfRoutersAsWritten, ips, f)
  }

  function HandlePacket(ips: seq<Ipv4Addr>, f: Frame): Delivery
  {
    HandlePacketWith(AllSpfRouters, ips, f)
  }

  /// A well-formed OSPF frame from another router to one of the router's addresses or to a
  /// group it listens to is delivered unchanged; a frame the router sent itself never is.
  lemma DeliveredFrames(ips: seq<Ipv4Addr>, f: Frame)
    requires f.etherType == Ipv4EtherType && f.ipv4.Some? && f.ipv4.value.protocol == OspfProtocol
    requires |f.ipv4.value.payload| >= OspfHeaderLength
    ensures HandlePacket(ips, f).Deliver? <==> !CheckIp(ips, f.ipv4.value.source) && CheckIp(ips, f.ipv4.value.destination)
    ensures f.ipv4.value.source in ips ==> HandlePacket(ips, f).Ignored?
  {
  }

  /// With AllSPFRouters declared as 244.0.0.5, a Hello sent by a neighbour to the RFC group
  /// 224.0.0.5 is dropped by the destination check (unless that group is one of the
  /// interface's own addresses).
  lemma AllSpfRoutersFrameDroppedAsWritten(ips: seq<Ipv4Addr>, src: Ipv4Addr, payload: seq<bv8>)
    requires AllSpfRouters !in ips && !CheckIpAsWritten(ips, src)
    ensures HandlePacketAsWritten(ips, Frame(Ipv4EtherType, Some(Ipv4Header(src, AllSpfRouters, OspfProtocol, payload)))).Ignored?
  {
    assert AllSpfRouters != AllSpfRoutersAsWritten;
  }

  /// With the RFC group the same frame reaches the handler, when it is long enough and its
  /// source is not one of the router's own or group addresses.
  lemma AllSpfRoutersFrameDelivered(ips: seq<Ipv4Addr>, src: Ipv4Addr, payload: seq<bv8>)
    requires !CheckIp(ips, src) && |payload| >= OspfHeaderLength
    ensures HandlePacket(ips, Frame(Ipv4EtherType, Some(Ipv4Header(src, AllSpfRouters, OspfProtocol, payload))))
              == Deliver(src, AllSpfRouters, payload)
  {
  }
}
