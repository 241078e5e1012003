/// Origination of the router's own LSAs (sections 12.4.1, 12.4.2 and 12.4 of RFC 2328): the
/// router-LSA built from the interfaces of an area, the network-LSA of a designated router, the
/// sequence numbering of a new instance and the rule that suppresses an instance identical to
/// the installed one. The database lookup, the install, the flooding and the routing
/// recalculation that follow are the operations of `AreaDb` and `Flooding`; here the installed
/// copy is a parameter and the outcome says whether a new instance is to be installed.
/// `gen_lsa_impl` obtains that copy through `m_get_lsa`, which in an area without external
/// routing capability finds nothing (`AreaDb.LookupAsWrittenMissesAreaLsa`): there the installed
/// copy is always absent, so every re-origination starts again at InitialSequenceNumber and is
/// never suppressed as unchanged.
module GenLsa {
  import opened Common
  import opened Util
  import opened Constants
  import opened LsaView
  import opened Neighbors
  import opened Interfaces
  import opened AreaDb

  // ---------------------------------------------------------------------------
  // Router-LSA links

  /// What the link builder reads of one interface.
  datatype IfaceView = IfaceView(areaId: Ipv4Addr, state: InterfaceState, netType: NetType,
                                 ipAddr: Ipv4Addr, ipMask: Ipv4Addr, dr: Ipv4Addr, isDr: bool,
                                 hasNeighbors: bool, fullWithDr: bool)

  function ViewOf(iface: Interface): IfaceView
    reads iface, iface.neighbors.Values
  {
    IfaceView(iface.areaId, iface.state, iface.netType, iface.ipAddr, iface.ipMask, iface.dr,
              iface.IsDr(), |iface.neighbors| > 0,
              iface.dr in iface.neighbors && iface.neighbors[iface.dr].state == Full)
  }

  /// The views of the interfaces, one per interface in iteration order.
  function ViewsOf(ifaces: seq<Interface>): (vs: seq<IfaceView>)
    reads set x | x in ifaces
    reads set x, n | x in ifaces && n in x.neighbors.Values :: n
    ensures |vs| == |ifaces|
    ensures forall i | 0 <= i < |ifaces| :: vs[i] == ViewOf(ifaces[i])
  {
    if ifaces == [] then [] else ViewsOf(ifaces[..|ifaces| - 1]) + [ViewOf(ifaces[|ifaces| - 1])]
  }

  /// An interface the router-LSA describes: in the area and neither Down nor Loopback.
  predicate Described(v: IfaceView, area: Ipv4Addr)
  {
    v.areaId == area && v.state != IfDown && v.state != Loopback
  }

  /// The network types the link builder handles; any other one stops it with a panic.
  predicate MultiAccess(v: IfaceView)
  {
    v.netType == Broadcast || v.netType == Nbma
  }

  /// The router is the DR with at least one neighbour, or is fully adjacent to the DR.
  predicate TransitUp(v: IfaceView)
  {
    (v.isDr && v.hasNeighbors) || v.fullWithDr
  }

  /// A stub link (type 3) to the interface's own network, metric 0.
  function StubLinkOf(v: IfaceView): RouterLink
  {
    RouterLink(v.ipAddr, v.ipMask, StubLink, 0, 0)
  }

  /// A transit link (type 2) to the DR's address, metric 1.
  function TransitLinkOf(v: IfaceView): RouterLink
  {
    RouterLink(v.dr, v.ipAddr, TransitLink, 0, 1)
  }

  /// What one interface contributes to the router-LSA.
  datatype Step = Skip | Add(link: RouterLink) | Panic

  function LinkStep(v: IfaceView, area: Ipv4Addr): (s: Step)
    ensures s.Panic? <==> Described(v, area) && !MultiAccess(v)
    ensures s.Add? ==> Described(v, area) && MultiAccess(v)
    ensures s == Add(StubLinkOf(v)) <==> Described(v, area) && MultiAccess(v) && v.state == Waiting
    ensures s == Add(TransitLinkOf(v)) <==> Described(v, area) && MultiAccess(v) && v.state != Waiting && TransitUp(v)
    ensures s.Add? ==> s.link == StubLinkOf(v) || s.link == TransitLinkOf(v)
  {
    if v.areaId != area || v.state == IfDown then Skip
    else if v.state == Loopback then Skip
    else if !MultiAccess(v) then Panic
    else if v.state == Waiting then Add(StubLinkOf(v))
    else if TransitUp(v) then Add(TransitLinkOf(v))
    else Skip
  }

  /// The links of the area's router-LSA, in interface order; `None` where an interface of the
  /// area is of a network type the builder does not handle.
  function RouterLinks(vs: seq<IfaceView>, area: Ipv4Addr): (r: Option<seq<RouterLink>>)
    ensures r.Some? ==> |r.value| <= |vs|
  {
    if vs == [] then Some([])
    else
      match RouterLinks(vs[..|vs| - 1], area)
      case None => None
      case Some(links) =>
        match LinkStep(vs[|vs| - 1], area)
        case Skip => Some(links)
        case Add(l) => Some(links + [l])
        case Panic => None
  }

  /// The builder panics exactly when some interface panics.
  lemma {:induction false} RouterLinksPanic(vs: seq<IfaceView>, area: Ipv4Addr)
    ensures RouterLinks(vs, area).None? <==> exists i | 0 <= i < |vs| :: LinkStep(vs[i], area).Panic?
  {
    if vs != [] {
      var pre := vs[..|vs| - 1];
      RouterLinksPanic(pre, area);
      assert forall i | 0 <= i < |pre| :: pre[i] == vs[i];
      if exists i | 0 <= i < |pre| :: LinkStep(pre[i], area).Panic? {
        var i :| 0 <= i < |pre| && LinkStep(pre[i], area).Panic?;
        assert LinkStep(vs[i], area).Panic?;
      }
    }
  }

  /// A link is in the router-LSA exactly when some interface contributes it.
  lemma {:induction false} RouterLinksMembers(vs: seq<IfaceView>, area: Ipv4Addr, l: RouterLink)
    requires RouterLinks(vs, area).Some?
    ensures l in RouterLinks(vs, area).value <==> exists i | 0 <= i < |vs| :: LinkStep(vs[i], area) == Add(l)
  {
    if vs != [] {
      var pre := vs[..|vs| - 1];
      RouterLinksMembers(pre, area, l);
      assert forall i | 0 <= i < |pre| :: pre[i] == vs[i];
      if exists i | 0 <= i < |pre| :: LinkStep(pre[i], area) == Add(l) {
        var i :| 0 <= i < |pre| && LinkStep(pre[i], area) == Add(l);
        assert LinkStep(vs[i], area) == Add(l);
      }
      if exists i | 0 <= i < |vs| :: LinkStep(vs[i], area) == Add(l) {
        var i :| 0 <= i < |vs| && LinkStep(vs[i], area) == Add(l);
        if i < |pre| {
          assert LinkStep(pre[i], area) == Add(l);
        }
      }
    }
  }

  /// Every Waiting interface of the area has its stub link in the router-LSA, and every other
  /// described interface that is DR with a neighbour or Full with the DR has its transit link.
  lemma InterfaceLinkPresent(vs: seq<IfaceView>, area: Ipv4Addr, i: nat)
    requires RouterLinks(vs, area).Some? && i < |vs| && Described(vs[i], area)
    ensures vs[i].state == Waiting ==> StubLinkOf(vs[i]) in RouterLinks(vs, area).value
    ensures vs[i].state != Waiting && TransitUp(vs[i]) ==> TransitLinkOf(vs[i]) in RouterLinks(vs, area).value
  {
    RouterLinksPanic(vs, area);
    RouterLinksMembers(vs, area, StubLinkOf(vs[i]));
    RouterLinksMembers(vs, area, TransitLinkOf(vs[i]));
  }

  /// No interface outside the area, Down or Loopback contributes a link: every link is the stub
  /// or transit link of a described interface.
  lemma LinksFromDescribed(vs: seq<IfaceView>, area: Ipv4Addr, l: RouterLink)
    requires RouterLinks(vs, area).Some? && l in RouterLinks(vs, area).value
    ensures exists i | 0 <= i < |vs| :: Described(vs[i], area) && (l == StubLinkOf(vs[i]) || l == TransitLinkOf(vs[i]))
  {
    RouterLinksMembers(vs, area, l);
    var i :| 0 <= i < |vs| && LinkStep(vs[i], area) == Add(l);
    assert Described(vs[i], area);
  }

  /// The loop of `gen_router_lsa` over the interfaces; `None` where its assertion on the network
  /// type panics.
  method BuildLinks(ifaces: seq<Interface>, area: Ipv4Addr) returns (r: Option<seq<RouterLink>>)
    ensures r == RouterLinks(ViewsOf(ifaces), area)
  {
    ghost var vs := ViewsOf(ifaces);
    var links: seq<RouterLink> := [];
    var i := 0;
    while i < |ifaces|
      invariant 0 <= i <= |ifaces|
      invariant RouterLinks(vs[..i], area) == Some(links)
    {
      var iface := ifaces[i];
      assert vs[i] == ViewOf(iface);
      ghost var pre := vs[..i + 1];
      assert pre[..i] == vs[..i] && pre[i] == vs[i];
      if iface.areaId != area || iface.state == IfDown {
        assert LinkStep(vs[i], area) == Skip;
      } else if iface.state == Loopback {
        assert LinkStep(vs[i], area) == Skip;
      } else if !(iface.netType == Broadcast || iface.netType == Nbma) {
        RouterLinksPanic(vs, area);
        assert LinkStep(vs[i], area).Panic?;
        return None;
      } else if iface.state == Waiting {
        assert LinkStep(vs[i], area) == Add(StubLinkOf(vs[i]));
        links := links + [RouterLink(iface.ipAddr, iface.ipMask, StubLink, 0, 0)];
      } else if (iface.IsDr() && |iface.neighbors| > 0)
             || (iface.dr in iface.neighbors && iface.neighbors[iface.dr].state == Full) {
        assert LinkStep(vs[i], area) == Add(TransitLinkOf(vs[i]));
        links := links + [RouterLink(iface.dr, iface.ipAddr, TransitLink, 0, 1)];
      } else {
        assert LinkStep(vs[i], area) == Skip;
      }
      i := i + 1;
    }
    assert vs[..i] == vs;
    r := Some(links);
  }

  /// The router-LSA body: B iff the router is in more than one area, E iff it has external
  /// routes, no V bit, and the link count truncated to 16 bits.
  function RouterBody(areaCount: nat, hasExternalRoutes: bool, links: seq<RouterLink>): (b: RouterLsa)
    ensures b.b <==> areaCount > 1
    ensures b.e <==> hasExternalRoutes
    ensures !b.v && b.links == links
    ensures b.numLinks < 0x10000 && (|links| < 0x10000 ==> b.numLinks == |links|)
  {
    RouterLsa(areaCount > 1, hasExternalRoutes, false, |links| % 0x10000, links)
  }

  // ---------------------------------------------------------------------------
  // Header, sequence number, identical instances

  /// The sequence number of a new instance: the initial one when there is no installed copy,
  /// else one more than the installed copy's; `None` where the installed copy already has the
  /// maximum (the source asserts against it).
  function NextSequenceNumber(installed: Option<int>): (r: Option<int>)
    ensures installed.None? ==> r == Some(InitialSequenceNumber)
    ensures r.None? <==> installed == Some(MaxSequenceNumber)
    ensures installed.Some? && r.Some? ==> installed.value < r.value
    ensures installed.Some? && InitialSequenceNumber <= installed.value <= MaxSequenceNumber && r.Some? ==>
              InitialSequenceNumber < r.value <= MaxSequenceNumber
  {
    match installed
    case None => Some(InitialSequenceNumber)
    case Some(s) => if s == MaxSequenceNumber then None else Some(s + 1)
  }

  /// The header of a new instance: age 0, the E option iff external routing, the given type,
  /// link-state id, advertising router and sequence number; length and checksum are left at 0.
  function NewHeader(lsType: nat, linkStateId: Ipv4Addr, advertisingRouter: Ipv4Addr,
                     externalRouting: bool, sequenceNumber: int): (h: LsaHeader)
    ensures h.lsAge == 0 && h.lsSequenceNumber == sequenceNumber
    ensures IndexOf(h) == LsaIndex(lsType, linkStateId, advertisingRouter)
    ensures (h.options & OptionE == OptionE) <==> externalRouting
    ensures h.options & !OptionE == 0
  {
    LsaHeader(0, if externalRouting then OptionE else 0, lsType, linkStateId, advertisingRouter,
              sequenceNumber, 0, 0)
  }

  /// The outcome of originating an instance.
  datatype Origination = Panicked | Identical | Install(lsa: Lsa)

  /// The template of `gen_lsa_impl`: the sequence number follows the installed copy, and the
  /// new instance is dropped when `same` holds of the installed copy.
  function Originate(lsType: nat, linkStateId: Ipv4Addr, advertisingRouter: Ipv4Addr,
                     externalRouting: bool, data: LsaData, installed: Option<Entry>,
                     same: Entry -> bool): (r: Origination)
    ensures r.Panicked? <==> installed.Some? && installed.value.lsa.header.lsSequenceNumber == MaxSequenceNumber
    ensures r.Identical? <==> !r.Panicked? && installed.Some? && same(installed.value)
    ensures r.Install? ==> r.lsa.data == data && IndexOf(r.lsa.header) == LsaIndex(lsType, linkStateId, advertisingRouter)
    ensures r.Install? ==> r.lsa.header.lsAge == 0 && ((r.lsa.header.options & OptionE == OptionE) <==> externalRouting)
    ensures r.Install? && installed.None? ==> r.lsa.header.lsSequenceNumber == InitialSequenceNumber
    ensures r.Install? && installed.Some? ==> r.lsa.header.lsSequenceNumber > installed.value.lsa.header.lsSequenceNumber
  {
    var installedSeq := if installed.Some? then Some(installed.value.lsa.header.lsSequenceNumber) else None;
    match NextSequenceNumber(installedSeq)
    case None => Panicked
    case Some(s) =>
      if installed.Some? && same(installed.value) then Identical
      else Install(Lsa(NewHeader(lsType, linkStateId, advertisingRouter, externalRouting, s), data))
  }

  /// `gen_lsa_impl`'s identity test: the installed copy is younger than LSRefreshTime and
  /// carries the same body.
  predicate SameRecent(e: Entry, data: LsaData, now: int)
  {
    Elapsed(now, e.created) < LsRefreshTime && e.lsa.data == data
  }

  /// `gen_lsa_impl`.
  function GenLsaImpl(lsType: nat, linkStateId: Ipv4Addr, advertisingRouter: Ipv4Addr,
                      externalRouting: bool, data: LsaData, installed: Option<Entry>, now: int): (r: Origination)
    ensures r == Originate(lsType, linkStateId, advertisingRouter, externalRouting, data, installed,
                           (e: Entry) => SameRecent(e, data, now))
  {
    Originate(lsType, linkStateId, advertisingRouter, externalRouting, data, installed,
              (e: Entry) => SameRecent(e, data, now))
  }

  /// In an area without external routing capability, the lookup as written finds no installed
  /// copy even when the area holds one, so a re-origination there always installs a new instance
  /// at InitialSequenceNumber and is never suppressed as identical.
  lemma StubAreaReoriginationRestarts(lsType: nat, linkStateId: Ipv4Addr, advertisingRouter: Ipv4Addr,
                                      data: LsaData, area: LsaDb, shared: LsaDb, now: int)
    requires LsaIndex(lsType, linkStateId, advertisingRouter) in area
    ensures var r := GenLsaImpl(lsType, linkStateId, advertisingRouter, false, data,
                                LookupAsWritten(area, shared, false, LsaIndex(lsType, linkStateId, advertisingRouter), now), now);
            r.Install? && r.lsa.header.lsSequenceNumber == InitialSequenceNumber
  {
    LookupAsWrittenMissesAreaLsa(area, shared, LsaIndex(lsType, linkStateId, advertisingRouter), now);
  }

  /// Once installed, an instance suppresses its own re-origination with the same body for
  /// LSRefreshTime seconds (unless its sequence number is the maximum).
  lemma ReoriginationSuppressed(lsType: nat, linkStateId: Ipv4Addr, advertisingRouter: Ipv4Addr,
                                externalRouting: bool, data: LsaData, installed: Option<Entry>,
                                now: int, later: int)
    requires GenLsaImpl(lsType, linkStateId, advertisingRouter, externalRouting, data, installed, now).Install?
    requires now <= later < now + LsRefreshTime
    requires GenLsaImpl(lsType, linkStateId, advertisingRouter, externalRouting, data, installed, now).lsa.header.lsSequenceNumber != MaxSequenceNumber
    ensures var l := GenLsaImpl(lsType, linkStateId, advertisingRouter, externalRouting, data, installed, now).lsa;
            GenLsaImpl(lsType, linkStateId, advertisingRouter, externalRouting, data, Some(Entry(l, now, now)), later).Identical?
  {
  }

  /// An installed copy as old as LSRefreshTime never suppresses the new instance: the LSA is
  /// refreshed (section 12.4, event (1), of RFC 2328).
  lemma RefreshAfterLsRefreshTime(lsType: nat, linkStateId: Ipv4Addr, advertisingRouter: Ipv4Addr,
                                  externalRouting: bool, data: LsaData, e: Entry, now: int)
    requires now - e.created >= LsRefreshTime
    requires e.lsa.header.lsSequenceNumber != MaxSequenceNumber
    ensures GenLsaImpl(lsType, linkStateId, advertisingRouter, externalRouting, data, Some(e), now).Install?
  {
  }

  /// A new body is always installed (unless the sequence number is exhausted).
  lemma ChangedBodyInstalled(lsType: nat, linkStateId: Ipv4Addr, advertisingRouter: Ipv4Addr,
                             externalRouting: bool, data: LsaData, installed: Option<Entry>, now: int)
    requires installed.Some? ==> installed.value.lsa.data != data && installed.value.lsa.header.lsSequenceNumber != MaxSequenceNumber
    ensures GenLsaImpl(lsType, linkStateId, advertisingRouter, externalRouting, data, installed, now).Install?
  {
  }

  // ---------------------------------------------------------------------------
  // gen_router_lsa and gen_network_lsa

  /// `gen_router_lsa` from the views of the interfaces: the links of the area, then the template
  /// with link-state id and advertising router both the router id.
  function RouterOrigination(vs: seq<IfaceView>, area: Ipv4Addr, externalRouting: bool, routerId: Ipv4Addr,
                             areaCount: nat, hasExternalRoutes: bool, installed: Option<Entry>, now: int): (r: Origination)
    ensures r.Panicked? <==> RouterLinks(vs, area).None?
                             || (installed.Some? && installed.value.lsa.header.lsSequenceNumber == MaxSequenceNumber)
    ensures r.Install? ==> Typed(r.lsa) && IndexOf(r.lsa.header) == LsaIndex(RouterLsaType, routerId, routerId)
    ensures r.Install? ==> r.lsa.data == Router(RouterBody(areaCount, hasExternalRoutes, RouterLinks(vs, area).value))
  {
    match RouterLinks(vs, area)
    case None => Panicked
    case Some(links) =>
      GenLsaImpl(RouterLsaType, routerId, routerId, externalRouting,
                 Router(RouterBody(areaCount, hasExternalRoutes, links)), installed, now)
  }

  /// `gen_router_lsa` for the area of `me`: the area count, whether there are external routes,
  /// the installed copy and the clock are read from the protocol database by the caller.
  method GenRouterLsa(ifaces: seq<Interface>, me: Interface, routerId: Ipv4Addr, areaCount: nat,
                      hasExternalRoutes: bool, installed: Option<Entry>, now: int) returns (r: Origination)
    ensures r == RouterOrigination(ViewsOf(ifaces), me.areaId, me.externalRouting, routerId, areaCount,
                                   hasExternalRoutes, installed, now)
  {
    var links := BuildLinks(ifaces, me.areaId);
    if links.None? {
      return Panicked;
    }
    r := GenLsaImpl(RouterLsaType, routerId, routerId, me.externalRouting,
                    Router(RouterBody(areaCount, hasExternalRoutes, links.value)), installed, now);
  }

  /// The router ids of the Full neighbours, in the map's iteration order `order`.
  function FullRouterIds(nbrs: map<Ipv4Addr, Neighbor>, order: seq<Ipv4Addr>): (ids: seq<Ipv4Addr>)
    requires forall k | k in order :: k in nbrs
    reads nbrs.Values
    ensures |ids| <= |order|
  {
    if order == [] then []
    else
      var k := order[|order| - 1];
      FullRouterIds(nbrs, order[..|order| - 1]) + (if nbrs[k].state == Full then [nbrs[k].routerId] else [])
  }

  /// An id is listed exactly when a Full neighbour in `order` has it.
  lemma {:induction false} FullRouterIdsMembers(nbrs: map<Ipv4Addr, Neighbor>, order: seq<Ipv4Addr>, x: Ipv4Addr)
    requires forall k | k in order :: k in nbrs
    ensures x in FullRouterIds(nbrs, order) <==> exists k | k in order :: nbrs[k].state == Full && nbrs[k].routerId == x
  {
    if order != [] {
      var pre := order[..|order| - 1];
      FullRouterIdsMembers(nbrs, pre, x);
      assert forall k | k in pre :: k in order;
      var last := order[|order| - 1];
      if exists k | k in order :: nbrs[k].state == Full && nbrs[k].routerId == x {
        var k :| k in order && nbrs[k].state == Full && nbrs[k].routerId == x;
        if k != last {
          assert k in pre;
        }
      }
    }
  }

  /// There is at least one Full neighbour exactly when the list is non-empty.
  lemma {:induction false} FullRouterIdsEmpty(nbrs: map<Ipv4Addr, Neighbor>, order: seq<Ipv4Addr>)
    requires forall k | k in order :: k in nbrs
    ensures |FullRouterIds(nbrs, order)| > 0 <==> exists k | k in order :: nbrs[k].state == Full
  {
    if order != [] {
      var pre := order[..|order| - 1];
      FullRouterIdsEmpty(nbrs, pre);
      assert forall k | k in pre :: k in order;
      var last := order[|order| - 1];
      if exists k | k in order :: nbrs[k].state == Full {
        var k :| k in order && nbrs[k].state == Full;
        if k != last {
          assert k in pre;
        }
      }
    }
  }

  /// `gen_network_lsa`: the interface's mask and the Full neighbours' ids followed by the router's
  /// own id; `None` where the router is not the DR or no neighbour is Full.
  function NetworkLsaOf(iface: Interface, routerId: Ipv4Addr, order: seq<Ipv4Addr>): (r: Option<NetworkLsa>)
    requires forall k | k in order :: k in iface.neighbors
    reads iface, iface.neighbors.Values
  {
    if !iface.IsDr() then None
    else
      var attached := FullRouterIds(iface.neighbors, order) + [routerId];
      if |attached| > 1 then Some(NetworkLsa(iface.ipMask, attached)) else None
  }

  /// A network-LSA is built exactly when the router is the DR with a Full neighbour; it lists
  /// the router itself last, and otherwise exactly the Full neighbours' router ids.
  lemma NetworkLsaContents(iface: Interface, routerId: Ipv4Addr, order: seq<Ipv4Addr>, x: Ipv4Addr)
    requires forall k | k in order :: k in iface.neighbors
    requires forall k | k in iface.neighbors :: k in order
    ensures NetworkLsaOf(iface, routerId, order).Some? <==>
              iface.IsDr() && exists k | k in iface.neighbors :: iface.neighbors[k].state == Full
    ensures NetworkLsaOf(iface, routerId, order).Some? ==>
              var n := NetworkLsaOf(iface, routerId, order).value;
              && n.networkMask == iface.ipMask
              && n.attachedRouters[|n.attachedRouters| - 1] == routerId
              && (x in n.attachedRouters[..|n.attachedRouters| - 1] <==>
                    exists k | k in iface.neighbors :: iface.neighbors[k].state == Full && iface.neighbors[k].routerId == x)
  {
    FullRouterIdsEmpty(iface.neighbors, order);
    FullRouterIdsMembers(iface.neighbors, order, x);
    var ids := FullRouterIds(iface.neighbors, order);
    assert (ids + [routerId])[..|ids|] == ids;
  }

  /// `gen_network_lsa` with the template: link-state id the interface address, advertising
  /// router the router id; `None` where no network-LSA is built.
  function NetworkOrigination(iface: Interface, routerId: Ipv4Addr, order: seq<Ipv4Addr>,
                              installed: Option<Entry>, now: int): (r: Option<Origination>)
    requires forall k | k in order :: k in iface.neighbors
    reads iface, iface.neighbors.Values
    ensures r.Some? <==> NetworkLsaOf(iface, routerId, order).Some?
    ensures r.Some? && r.value.Install? ==>
              Typed(r.value.lsa) && IndexOf(r.value.lsa.header) == LsaIndex(NetworkLsaType, iface.ipAddr, routerId)
              && r.value.lsa.data == Network(NetworkLsaOf(iface, routerId, order).value)
  {
    match NetworkLsaOf(iface, routerId, order)
    case None => None
    case Some(n) =>
      Some(GenLsaImpl(NetworkLsaType, iface.ipAddr, routerId, iface.externalRouting, Network(n), installed, now))
  }

  // ---------------------------------------------------------------------------
  // The earlier router-LSA generator

  /// The earlier `gen_router_lsa`: the same header, sequence number and links, but any installed
  /// copy with the same body suppresses the new instance, whatever its age.
  function RouterOriginationEarlier(vs: seq<IfaceView>, area: Ipv4Addr, externalRouting: bool, routerId: Ipv4Addr,
                                    areaCount: nat, hasExternalRoutes: bool, installed: Option<Entry>): (r: Origination)
    ensures r.Panicked? <==> RouterLinks(vs, area).None?
                             || (installed.Some? && installed.value.lsa.header.lsSequenceNumber == MaxSequenceNumber)
    ensures r.Install? ==> Typed(r.lsa) && IndexOf(r.lsa.header) == LsaIndex(RouterLsaType, routerId, routerId)
  {
    match RouterLinks(vs, area)
    case None => Panicked
    case Some(links) =>
      var data := Router(RouterBody(areaCount, hasExternalRoutes, links));
      Originate(RouterLsaType, routerId, routerId, externalRouting, data, installed, (e: Entry) => e.lsa.data == data)
  }

  /// Whatever the current generator suppresses, the earlier one suppresses too, and the two
  /// install the same instance when both install.
  lemma EarlierSuppressesMore(vs: seq<IfaceView>, area: Ipv4Addr, externalRouting: bool, routerId: Ipv4Addr,
                              areaCount: nat, hasExternalRoutes: bool, installed: Option<Entry>, now: int)
    ensures var cur := RouterOrigination(vs, area, externalRouting, routerId, areaCount, hasExternalRoutes, installed, now);
            var earlier := RouterOriginationEarlier(vs, area, externalRouting, routerId, areaCount, hasExternalRoutes, installed);
            && (cur.Identical? ==> earlier.Identical?)
            && (cur.Panicked? <==> earlier.Panicked?)
            && (earlier.Install? ==> cur == earlier)
  {
  }

  /// The earlier generator never refreshes: an installed copy with the same body suppresses the
  /// new instance however old it is.
  lemma EarlierNeverRefreshes(vs: seq<IfaceView>, area: Ipv4Addr, externalRouting: bool, routerId: Ipv4Addr,
                              areaCount: nat, hasExternalRoutes: bool, e: Entry)
    requires RouterLinks(vs, area).Some?
    requires e.lsa.data == Router(RouterBody(areaCount, hasExternalRoutes, RouterLinks(vs, area).value))
    requires e.lsa.header.lsSequenceNumber != MaxSequenceNumber
    ensures RouterOriginationEarlier(vs, area, externalRouting, routerId, areaCount, hasExternalRoutes, Some(e)).Identical?
  {
  }
}
