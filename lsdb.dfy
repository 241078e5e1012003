/// An area's link-state database (section 12.2 of RFC 2328) as the daemon keeps it: the area's
/// own LSAs, and the AS-external LSAs in one database shared by every area, which an area sees
/// only while it has external routing capability. Each entry carries its LSA, the instant its
/// timer was created and the instant it was last sent; instants are whole seconds passed in.
module AreaDb {
  import opened Common
  import opened Util
  import opened Constants
  import opened LsaView
  import opened Routing
  import opened Spf

  /// `(lsa, created_at, updated_at)`; `created` is the instant of the entry's `LsaTimer`.
  datatype Entry = Entry(lsa: Lsa, created: int, updated: int)

  type LsaDb = map<LsaIndex, Entry>

  /// Every entry is stored under the index of its own header.
  predicate Indexed(db: LsaDb)
  {
    forall k | k in db :: IndexOf(db[k].lsa.header) == k
  }

  /// The area's database holds no AS-external LSA and the shared one holds only those.
  predicate Separated(area: LsaDb, shared: LsaDb)
  {
    && (forall k | k in area :: k.lsType != AsExternalLsaType)
    && (forall k | k in shared :: k.lsType == AsExternalLsaType)
  }

  /// The body of an LSA is the one its LS type selects, as the decoder builds it.
  predicate Typed(l: Lsa)
  {
    && (l.header.lsType == RouterLsaType ==> l.data.Router?)
    && (l.header.lsType == NetworkLsaType ==> l.data.Network?)
    && (l.header.lsType == SummaryIpLsaType ==> l.data.SummaryIp?)
    && (l.header.lsType == SummaryAsbrLsaType ==> l.data.SummaryAsbr?)
    && (l.header.lsType == AsExternalLsaType ==> l.data.AsExternal?)
  }

  predicate AllTyped(db: LsaDb)
  {
    forall k | k in db :: Typed(db[k].lsa)
  }

  /// An entry as read at `now`: its LSA aged by the seconds since its timer was created.
  function Aged(e: Entry, now: int): (r: Entry)
    ensures r.created == e.created && r.updated == e.updated && r.lsa.data == e.lsa.data
    ensures r.lsa.header == AgedHeader(e.lsa.header, Elapsed(now, e.created))
    ensures IndexOf(r.lsa.header) == IndexOf(e.lsa.header) && (Typed(e.lsa) ==> Typed(r.lsa))
  {
    Entry(AgedLsa(e.lsa, Elapsed(now, e.created)), e.created, e.updated)
  }

  // ---------------------------------------------------------------------------
  // Lookups

  /// `contains_lsa`: in the area's database, or in the shared one while the area is capable.
  predicate Contains(area: LsaDb, shared: LsaDb, cap: bool, key: LsaIndex)
  {
    key in area || (cap && key in shared)
  }

  /// `m_get_lsa` as written: the `?` that reads the capability sits inside the argument of `or`,
  /// so an area without external routing capability finds nothing, not even its own LSAs.
  function LookupAsWritten(area: LsaDb, shared: LsaDb, cap: bool, key: LsaIndex, now: int): (r: Option<Entry>)
    ensures !cap ==> r.None?
    ensures cap ==> (r.Some? <==> key in area || key in shared)
    ensures cap && key in area ==> r == Some(Aged(area[key], now))
    ensures cap && key !in area && key in shared ==> r == Some(Aged(shared[key], now))
  {
    if !cap then None
    else if key in area then Some(Aged(area[key], now))
    else if key in shared then Some(Aged(shared[key], now))
    else None
  }

  /// `m_get_lsa` as evidently intended: the area's database first, then the shared one while the
  /// area is capable; the entry comes back aged.
  function Lookup(area: LsaDb, shared: LsaDb, cap: bool, key: LsaIndex, now: int): (r: Option<Entry>)
    ensures r.Some? <==> Contains(area, shared, cap, key)
    ensures key in area ==> r == Some(Aged(area[key], now))
    ensures key !in area && cap && key in shared ==> r == Some(Aged(shared[key], now))
  {
    if key in area then Some(Aged(area[key], now))
    else if cap && key in shared then Some(Aged(shared[key], now))
    else None
  }

  /// The two lookups agree in an area with external routing capability.
  lemma LookupAgreesWhenCapable(area: LsaDb, shared: LsaDb, key: LsaIndex, now: int)
    ensures LookupAsWritten(area, shared, true, key, now) == Lookup(area, shared, true, key, now)
  {
  }

  /// A stub area's own LSA is invisible to `m_get_lsa` as written, while the intended lookup finds it.
  lemma LookupAsWrittenMissesAreaLsa(area: LsaDb, shared: LsaDb, key: LsaIndex, now: int)
    requires key in area
    ensures LookupAsWritten(area, shared, false, key, now).None?
    ensures Lookup(area, shared, false, key, now) == Some(Aged(area[key], now))
  {
  }

  /// `need_update` over a lookup: false exactly when a stored copy's aged header is at least as
  /// recent as `header` by the daemon's header order `geq`.
  function NeedUpdateFrom(found: Option<Entry>, header: LsaHeader, geq: (LsaHeader, LsaHeader) -> bool): (r: bool)
    ensures !r <==> found.Some? && geq(found.value.lsa.header, header)
  {
    match found
    case Some(e) => !geq(e.lsa.header, header)
    case None => true
  }

  /// `need_update` as written (through `m_get_lsa` as written).
  function NeedUpdateAsWritten(area: LsaDb, shared: LsaDb, cap: bool, header: LsaHeader, now: int,
                               geq: (LsaHeader, LsaHeader) -> bool): bool
  {
    NeedUpdateFrom(LookupAsWritten(area, shared, cap, IndexOf(header), now), header, geq)
  }

  /// `need_update` through the intended lookup.
  function NeedUpdate(area: LsaDb, shared: LsaDb, cap: bool, header: LsaHeader, now: int,
                      geq: (LsaHeader, LsaHeader) -> bool): bool
  {
    NeedUpdateFrom(Lookup(area, shared, cap, IndexOf(header), now), header, geq)
  }

  /// In a stub area `need_update` as written always says yes, so the assertion in `insert_lsa`
  /// lets an older instance replace a newer one.
  lemma NeedUpdateAsWrittenInStubArea(area: LsaDb, shared: LsaDb, header: LsaHeader, now: int,
                                      geq: (LsaHeader, LsaHeader) -> bool)
    requires IndexOf(header) in area && geq(Aged(area[IndexOf(header)], now).lsa.header, header)
    ensures NeedUpdateAsWritten(area, shared, false, header, now, geq)
    ensures !NeedUpdate(area, shared, false, header, now, geq)
  {
  }

  // ---------------------------------------------------------------------------
  // Updates

  /// Where `m_insert_lsa` stores an LSA: the shared database for an AS-external LSA in a capable
  /// area, the area's own otherwise.
  predicate GoesShared(cap: bool, l: Lsa)
  {
    cap && l.header.lsType == AsExternalLsaType
  }

  /// `m_insert_lsa`: the LSA is stored under its header's index, replacing any entry there, with
  /// a timer created and a send time taken at `now`. An AS-external LSA in an area without
  /// external routing capability fails the assertion.
  function Insert(area: LsaDb, shared: LsaDb, cap: bool, value: Lsa, now: int): (r: (LsaDb, LsaDb))
    requires cap || value.header.lsType != AsExternalLsaType
    ensures GoesShared(cap, value) ==> r.0 == area && r.1 == shared[IndexOf(value.header) := Entry(value, now, now)]
    ensures !GoesShared(cap, value) ==> r.0 == area[IndexOf(value.header) := Entry(value, now, now)] && r.1 == shared
  {
    var key := IndexOf(value.header);
    if GoesShared(cap, value) then (area, shared[key := Entry(value, now, now)])
    else (area[key := Entry(value, now, now)], shared)
  }

  /// Inserting keeps both databases indexed by header and keeps AS-external LSAs apart.
  lemma InsertKeepsShape(area: LsaDb, shared: LsaDb, cap: bool, value: Lsa, now: int)
    requires cap || value.header.lsType != AsExternalLsaType
    requires Indexed(area) && Indexed(shared) && Separated(area, shared)
    ensures var r := Insert(area, shared, cap, value, now);
            Indexed(r.0) && Indexed(r.1) && Separated(r.0, r.1)
  {
  }

  /// A lookup right after an insert finds the new LSA, aged by no time.
  lemma InsertThenLookup(area: LsaDb, shared: LsaDb, cap: bool, value: Lsa, now: int)
    requires cap || value.header.lsType != AsExternalLsaType
    requires Separated(area, shared)
    ensures var r := Insert(area, shared, cap, value, now);
            Lookup(r.0, r.1, cap, IndexOf(value.header), now) == Some(Entry(AgedLsa(value, 0), now, now))
  {
    var key := IndexOf(value.header);
    if GoesShared(cap, value) {
      assert key !in area;
    }
  }

  /// An insert leaves every other index as it was.
  lemma InsertKeepsOthers(area: LsaDb, shared: LsaDb, cap: bool, value: Lsa, now: int, key: LsaIndex, later: int)
    requires cap || value.header.lsType != AsExternalLsaType
    requires key != IndexOf(value.header)
    ensures var r := Insert(area, shared, cap, value, now);
            Lookup(r.0, r.1, cap, key, later) == Lookup(area, shared, cap, key, later)
  {
  }

  /// An insert of an LSA whose header is its own copy's: afterwards no update is needed for that
  /// header, given that the header order counts a header at least as recent as itself.
  lemma NoUpdateAfterInsert(area: LsaDb, shared: LsaDb, cap: bool, value: Lsa, now: int,
                            geq: (LsaHeader, LsaHeader) -> bool)
    requires cap || value.header.lsType != AsExternalLsaType
    requires Separated(area, shared) && value.header.lsAge <= LsaMaxAge && geq(value.header, value.header)
    ensures var r := Insert(area, shared, cap, value, now);
            !NeedUpdate(r.0, r.1, cap, value.header, now, geq)
  {
    InsertThenLookup(area, shared, cap, value, now);
    MaxAgeOrYounger(value.header);
  }

  /// Ageing by no time changes nothing in a header not older than MaxAge.
  lemma MaxAgeOrYounger(h: LsaHeader)
    requires h.lsAge <= LsaMaxAge
    ensures AgedHeader(h, 0) == h
  {
  }

  /// `m_remove_lsa`: the entry leaves the area's database if it is there; otherwise it leaves the
  /// shared database while the area is capable; an absent index changes nothing.
  function Remove(area: LsaDb, shared: LsaDb, cap: bool, key: LsaIndex): (r: (LsaDb, LsaDb))
    ensures key in area ==> r == (area - {key}, shared)
    ensures key !in area && cap && key in shared ==> r == (area, shared - {key})
    ensures !Contains(area, shared, cap, key) ==> r == (area, shared)
  {
    if key in area then (area - {key}, shared)
    else if cap && key in shared then (area, shared - {key})
    else (area, shared)
  }

  /// After a removal the index is gone from what the area sees, the two databases being apart.
  lemma RemoveThenAbsent(area: LsaDb, shared: LsaDb, cap: bool, key: LsaIndex)
    requires Separated(area, shared)
    ensures var r := Remove(area, shared, cap, key);
            !Contains(r.0, r.1, cap, key) && Separated(r.0, r.1)
  {
  }

  /// A removal leaves every other index as it was.
  lemma RemoveKeepsOthers(area: LsaDb, shared: LsaDb, cap: bool, key: LsaIndex, other: LsaIndex, now: int)
    requires other != key
    ensures var r := Remove(area, shared, cap, key);
            Lookup(r.0, r.1, cap, other, now) == Lookup(area, shared, cap, other, now)
  {
  }

  /// Removing what was just inserted gives back the databases without that index.
  lemma InsertThenRemove(area: LsaDb, shared: LsaDb, cap: bool, value: Lsa, now: int)
    requires cap || value.header.lsType != AsExternalLsaType
    requires Separated(area, shared)
    ensures var key := IndexOf(value.header);
            var i := Insert(area, shared, cap, value, now);
            Remove(i.0, i.1, cap, key) == (area - {key}, shared - {key})
  {
    var key := IndexOf(value.header);
    if GoesShared(cap, value) {
      assert key !in area;
      assert area - {key} == area;
      assert shared[key := Entry(value, now, now)] - {key} == shared - {key};
    } else {
      assert key !in shared;
      assert shared - {key} == shared;
      assert area[key := Entry(value, now, now)] - {key} == area - {key};
    }
  }

  /// `lsa_has_sent`: the entry the area sees under the LSA's index gets `now` as its send time.
  function MarkSent(area: LsaDb, shared: LsaDb, cap: bool, key: LsaIndex, now: int): (r: (LsaDb, LsaDb))
    ensures key in area ==> r == (area[key := area[key].(updated := now)], shared)
    ensures key !in area && cap && key in shared ==> r == (area, shared[key := shared[key].(updated := now)])
    ensures !Contains(area, shared, cap, key) ==> r == (area, shared)
  {
    if key in area then (area[key := area[key].(updated := now)], shared)
    else if cap && key in shared then (area, shared[key := shared[key].(updated := now)])
    else (area, shared)
  }

  /// Marking an LSA sent changes only the send time the area sees under its index.
  lemma MarkSentOnlyTime(area: LsaDb, shared: LsaDb, cap: bool, key: LsaIndex, now: int, k: LsaIndex, later: int)
    ensures var r := MarkSent(area, shared, cap, key, now);
            && Contains(r.0, r.1, cap, k) == Contains(area, shared, cap, k)
            && (k != key ==> Lookup(r.0, r.1, cap, k, later) == Lookup(area, shared, cap, k, later))
            && (k == key && Contains(area, shared, cap, k) ==>
                  Lookup(r.0, r.1, cap, k, later) == Some(Lookup(area, shared, cap, k, later).value.(updated := now)))
  {
  }

  // ---------------------------------------------------------------------------
  // Listing

  /// An entry's header aged at `now`.
  function FreshHeader(e: Entry, now: int): (h: LsaHeader)
    ensures h == Aged(e, now).lsa.header
  {
    AgedHeader(e.lsa.header, Elapsed(now, e.created))
  }

  /// The aged headers of the entries at `order` (the map's iteration order), without those that
  /// have reached MaxAge.
  function Headers(db: LsaDb, order: seq<LsaIndex>, now: int): (r: seq<LsaHeader>)
    requires forall k | k in order :: k in db
    ensures forall h | h in r :: h.lsAge != LsaMaxAge && exists k | k in order :: h == FreshHeader(db[k], now)
    ensures forall k | k in order && FreshHeader(db[k], now).lsAge != LsaMaxAge :: FreshHeader(db[k], now) in r
    ensures |r| <= |order|
    decreases |order|
  {
    if order == [] then []
    else
      var rest := Headers(db, order[1..], now);
      assert forall k | k in order[1..] :: k in order;
      assert forall k | k in order :: k == order[0] || k in order[1..];
      var h := FreshHeader(db[order[0]], now);
      if h.lsAge == LsaMaxAge then rest else [h] + rest
  }

  /// `get_all_lsa`: the aged headers of the area's database, then of the shared one while the
  /// area is capable, leaving out those at MaxAge.
  function AllHeaders(area: LsaDb, shared: LsaDb, cap: bool, areaOrder: seq<LsaIndex>, sharedOrder: seq<LsaIndex>,
                      now: int): (r: seq<LsaHeader>)
    requires forall k | k in areaOrder :: k in area
    requires forall k | k in sharedOrder :: k in shared
    ensures forall h | h in r :: h.lsAge != LsaMaxAge
    ensures forall h :: h in r <==>
              || (h.lsAge != LsaMaxAge && exists k | k in areaOrder :: h == FreshHeader(area[k], now))
              || (cap && h.lsAge != LsaMaxAge && exists k | k in sharedOrder :: h == FreshHeader(shared[k], now))
  {
    Headers(area, areaOrder, now) + (if cap then Headers(shared, sharedOrder, now) else [])
  }

  // ---------------------------------------------------------------------------
  // `get_routing_external`

  /// The inter-area route of one summary-LSA header, given what the area's lookup found under
  /// its index: only summary-LSAs of other routers, below MaxAge and LSInfinity, whose border
  /// router is reachable in the tree; a route to an AS boundary router only in a capable area.
  /// The cost is the border router's distance plus the metric, the next hop its first hop.
  function SummaryRouteFrom(found: Option<Entry>, header: LsaHeader, nodes: map<NodeAddr, TreeNode>,
                            routerId: Ipv4Addr, cap: bool, areaId: Ipv4Addr): (r: Option<RoutingTableItem>)
    requires found.Some? ==> IndexOf(found.value.lsa.header) == IndexOf(header) && Typed(found.value.lsa)
    ensures r.Some? <==>
              && (header.lsType == SummaryIpLsaType || header.lsType == SummaryAsbrLsaType)
              && header.advertisingRouter != routerId && header.lsAge != LsaMaxAge && found.Some?
              && found.value.lsa.data.summary.metric < LsInfinity
              && RouterNode(header.advertisingRouter) in nodes
              && nodes[RouterNode(header.advertisingRouter)].nextHops != []
              && (header.lsType == SummaryAsbrLsaType ==> cap)
    ensures r.Some? ==>
              var br := nodes[RouterNode(header.advertisingRouter)];
              var l := found.value.lsa;
              && r.value.pathType == AreaExternal && r.value.costT2 == 0
              && r.value.cost == br.distance + l.data.summary.metric
              && r.value.nextHop == br.nextHops[0]
              && r.value.areaId == areaId && r.value.externalCap == cap
              && r.value.lsaOrigin == IndexOf(header) && r.value.adRouter == header.advertisingRouter
              && (header.lsType == SummaryIpLsaType ==>
                    var m := From(l.header.linkStateId, l.data.summary.networkMask);
                    KeyOf(r.value) == NetworkIndex(AddrMask(NetworkOf(m), m.len)))
              && (header.lsType == SummaryAsbrLsaType ==> KeyOf(r.value) == AsbrIndex(header.linkStateId))
  {
    if !(header.lsType == SummaryIpLsaType || header.lsType == SummaryAsbrLsaType) then None
    else if header.advertisingRouter == routerId || header.lsAge == LsaMaxAge || found.None? then None
    else
      var l := found.value.lsa;
      if l.data.summary.metric >= LsInfinity || RouterNode(l.header.advertisingRouter) !in nodes then None
      else
        var br := nodes[RouterNode(l.header.advertisingRouter)];
        if br.nextHops == [] || (l.header.lsType == SummaryAsbrLsaType && !cap) then None
        else
          var dest := SummaryDest(l);
          Some(RoutingTableItem(dest.0, dest.1, dest.2, cap, areaId, AreaExternal,
                                br.distance + l.data.summary.metric, 0, IndexOf(l.header), br.nextHops[0],
                                l.header.advertisingRouter))
  }

  /// The destination of a summary-LSA: the masked network of a type 3, the AS boundary router
  /// named by the link state id of a type 4.
  function SummaryDest(l: Lsa): (r: (DestType, Ipv4Addr, Ipv4Addr))
    requires l.data.SummaryIp? || l.data.SummaryAsbr?
    ensures l.header.lsType == SummaryIpLsaType ==>
              var m := From(l.header.linkStateId, l.data.summary.networkMask);
              r == (NetworkDest, NetworkOf(m), MaskOf(m)) && From(r.1, r.2) == AddrMask(NetworkOf(m), m.len)
    ensures l.header.lsType != SummaryIpLsaType ==> r == (RouterDest, l.header.linkStateId, Unspecified)
  {
    if l.header.lsType == SummaryIpLsaType then
      var m := From(l.header.linkStateId, l.data.summary.networkMask);
      KeyOfNetwork(m);
      (NetworkDest, NetworkOf(m), MaskOf(m))
    else (RouterDest, l.header.linkStateId, Unspecified)
  }

  /// `get_routing_external` over the headers `get_all_lsa` lists: each is looked up again in the
  /// area through `m_get_lsa` (with an empty shared database) and turned into a route when it
  /// qualifies.
  function SummaryRoutes(area: LsaDb, cap: bool, headers: seq<LsaHeader>, nodes: map<NodeAddr, TreeNode>,
                         routerId: Ipv4Addr, areaId: Ipv4Addr, now: int): (r: seq<RoutingTableItem>)
    requires Indexed(area) && AllTyped(area)
    ensures forall x | x in r :: exists h | h in headers ::
              SummaryRouteFrom(LookupAsWritten(area, map[], cap, IndexOf(h), now), h, nodes, routerId, cap, areaId) == Some(x)
    ensures forall h | h in headers ::
              var x := SummaryRouteFrom(LookupAsWritten(area, map[], cap, IndexOf(h), now), h, nodes, routerId, cap, areaId);
              x.Some? ==> x.value in r
    decreases |headers|
  {
    if headers == [] then []
    else
      var rest := SummaryRoutes(area, cap, headers[1..], nodes, routerId, areaId, now);
      assert forall h | h in headers[1..] :: h in headers;
      assert forall h | h in headers :: h == headers[0] || h in headers[1..];
      var h := headers[0];
      var found := LookupAsWritten(area, map[], cap, IndexOf(h), now);
      match SummaryRouteFrom(found, h, nodes, routerId, cap, areaId)
      case None => rest
      case Some(x) => [x] + rest
  }

  /// In an area without external routing capability, `get_routing_external` as written finds no
  /// route at all, since each lookup goes through `m_get_lsa` as written; the intended lookup
  /// turns a summary-LSA of the area into a route whenever it qualifies.
  lemma {:induction false} SummaryRoutesAsWrittenInStubArea(area: LsaDb, headers: seq<LsaHeader>, nodes: map<NodeAddr, TreeNode>,
                                                           routerId: Ipv4Addr, areaId: Ipv4Addr, now: int)
    requires Indexed(area) && AllTyped(area)
    ensures SummaryRoutes(area, false, headers, nodes, routerId, areaId, now) == []
    decreases |headers|
  {
    if headers != [] {
      SummaryRoutesAsWrittenInStubArea(area, headers[1..], nodes, routerId, areaId, now);
    }
  }

  /// Each vertex LSA `ShortPathTree::calculate` reads is fetched again through `m_get_lsa` as
  /// written and unwrapped: in an area without external routing capability that lookup finds
  /// nothing, while the intended lookup returns the very LSA the tree needs.
  lemma TreeLookupAsWrittenFailsInStubArea(db: LsaDb, order: seq<LsaIndex>, now: int, i: nat)
    requires forall k | k in order :: k in db
    requires i < |order| && VertexOf(AgedLsas(db, order, now)[i]).Some?
    ensures LookupAsWritten(db, map[], false, order[i], now).None?
    ensures Lookup(db, map[], false, order[i], now).Some?
    ensures Lookup(db, map[], false, order[i], now).value.lsa == AgedLsas(db, order, now)[i]
  {
  }

  /// `lsa2nodes` panics on some vertex built from `lsas`.
  ghost predicate AdjacencyFails(lsas: seq<Lsa>)
  {
    exists k | k in Vertices(lsas) :: Adjacent(Vertices(lsas)[k]).None?
  }

  /// Some LSA of `lsas` is a vertex of the tree.
  predicate HasVertex(lsas: seq<Lsa>)
  {
    lsas != [] && (VertexOf(lsas[0]).Some? || HasVertex(lsas[1..]))
  }

  lemma {:induction false} HasVertexExists(lsas: seq<Lsa>)
    ensures HasVertex(lsas) <==> exists i | 0 <= i < |lsas| :: VertexOf(lsas[i]).Some?
  {
    if lsas != [] {
      HasVertexExists(lsas[1..]);
      assert forall i | 1 <= i < |lsas| :: lsas[i] == lsas[1..][i - 1];
    }
  }

  /// The LSAs `ShortPathTree::calculate` reads: the entries at `order`, aged at `now`.
  function AgedLsas(db: LsaDb, order: seq<LsaIndex>, now: int): (r: seq<Lsa>)
    requires forall k | k in order :: k in db
    ensures |r| == |order| && forall i | 0 <= i < |order| :: r[i] == Aged(db[order[i]], now).lsa
    decreases |order|
  {
    if order == [] then []
    else
      assert forall k | k in order[1..] :: k in order;
      [Aged(db[order[0]], now).lsa] + AgedLsas(db, order[1..], now)
  }

  // ---------------------------------------------------------------------------
  // The area

  /// The AS-external LSA database all areas share.
  class ExternalDb {
    var db: LsaDb

    constructor()
      ensures db == map[]
    {
      db := map[];
    }
  }

  /// `Area`: its id, configured address ranges, its own LSA database, its shortest-path tree and
  /// its capabilities.
  class Area {
    var areaId: Ipv4Addr
    var addrRange: map<(Ipv4Addr, Ipv4Addr), bool>
    var lsaDatabase: LsaDb
    var shortPathTree: map<NodeAddr, TreeNode>
    var transitCapability: bool
    var externalRoutingCapability: bool
    var stubDefaultCost: nat

    /// `Area::new`: empty databases and tree, external routing capability, no transit
    /// capability, stub default cost 0.
    constructor(areaId: Ipv4Addr)
      ensures this.areaId == areaId && addrRange == map[] && lsaDatabase == map[] && shortPathTree == map[]
      ensures !transitCapability && externalRoutingCapability && stubDefaultCost == 0
    {
      this.areaId := areaId;
      addrRange := map[];
      lsaDatabase := map[];
      shortPathTree := map[];
      transitCapability := false;
      externalRoutingCapability := true;
      stubDefaultCost := 0;
    }

    /// The area's database and the shared one are indexed by header and keep AS-external LSAs apart.
    predicate Valid(ext: ExternalDb)
      reads this, ext
    {
      Indexed(lsaDatabase) && Indexed(ext.db) && Separated(lsaDatabase, ext.db)
    }

    /// `contains_lsa`.
    predicate ContainsLsa(ext: ExternalDb, key: LsaIndex)
      reads this, ext
    {
      Contains(lsaDatabase, ext.db, externalRoutingCapability, key)
    }

    /// `get_lsa`, through `m_get_lsa` as written: an area without external routing capability
    /// finds nothing; a capable one finds exactly what `contains_lsa` reports.
    function GetLsa(ext: ExternalDb, key: LsaIndex, now: int): (r: Option<Entry>)
      reads this, ext
      ensures !externalRoutingCapability ==> r.None?
      ensures externalRoutingCapability ==> (r.Some? <==> ContainsLsa(ext, key))
    {
      LookupAsWritten(lsaDatabase, ext.db, externalRoutingCapability, key, now)
    }

    /// `insert_lsa`: requires that `need_update` as written says yes, then stores the LSA
    /// (`m_insert_lsa`), where the intended lookup finds it; `get_lsa` returns it in a capable area.
    method InsertLsa(ext: ExternalDb, value: Lsa, now: int, geq: (LsaHeader, LsaHeader) -> bool)
      requires NeedUpdateAsWritten(lsaDatabase, ext.db, externalRoutingCapability, value.header, now, geq)
      requires externalRoutingCapability || value.header.lsType != AsExternalLsaType
      requires Valid(ext)
      modifies this`lsaDatabase, ext`db
      ensures (lsaDatabase, ext.db) == Insert(old(lsaDatabase), old(ext.db), externalRoutingCapability, value, now)
      ensures Valid(ext)
      ensures Lookup(lsaDatabase, ext.db, externalRoutingCapability, IndexOf(value.header), now) == Some(Entry(AgedLsa(value, 0), now, now))
      ensures externalRoutingCapability ==> GetLsa(ext, IndexOf(value.header), now) == Some(Entry(AgedLsa(value, 0), now, now))
    {
      InsertKeepsShape(lsaDatabase, ext.db, externalRoutingCapability, value, now);
      InsertThenLookup(lsaDatabase, ext.db, externalRoutingCapability, value, now);
      var r := Insert(lsaDatabase, ext.db, externalRoutingCapability, value, now);
      lsaDatabase := r.0;
      ext.db := r.1;
    }

    /// `remove_lsa` (`m_remove_lsa`).
    method RemoveLsa(ext: ExternalDb, key: LsaIndex)
      requires Valid(ext)
      modifies this`lsaDatabase, ext`db
      ensures (lsaDatabase, ext.db) == Remove(old(lsaDatabase), old(ext.db), externalRoutingCapability, key)
      ensures Valid(ext) && !ContainsLsa(ext, key)
    {
      RemoveThenAbsent(lsaDatabase, ext.db, externalRoutingCapability, key);
      var r := Remove(lsaDatabase, ext.db, externalRoutingCapability, key);
      lsaDatabase := r.0;
      ext.db := r.1;
    }

    /// `ShortPathTree::calculate` for this area: the tree of its aged LSAs, and the transit
    /// capability it sets; `None`, with nothing changed, where `calculate` panics: in an area
    /// without external routing capability as soon as one LSA is a vertex (its lookup through
    /// `m_get_lsa` as written finds nothing and is unwrapped), and wherever `lsa2nodes` panics.
    /// The tree's distances are the shortest path costs from the router (`Spf.Calculate`).
    method CalculateTree(order: seq<LsaIndex>, routerId: Ipv4Addr, now: int) returns (r: Option<SpfTree>)
      requires forall k | k in order :: k in lsaDatabase
      modifies this`transitCapability
      ensures r.None? <==> (!externalRoutingCapability && HasVertex(AgedLsas(lsaDatabase, order, now)))
                           || AdjacencyFails(AgedLsas(lsaDatabase, order, now))
      ensures r.None? ==> transitCapability == old(transitCapability)
      ensures r.Some? ==> transitCapability == r.value.transit
      ensures r.Some? ==> (transitCapability <==> exists k | k in r.value.nodes && !k.StubNode? :: HaveV(r.value.nodes[k].lsa))
      ensures r.Some? && RouterNode(routerId) in Vertices(AgedLsas(lsaDatabase, order, now)) ==>
                RouterNode(routerId) in r.value.nodes && r.value.nodes[RouterNode(routerId)].distance == 0
      ensures r.Some? ==> Reached(EdgesOf(Vertices(AgedLsas(lsaDatabase, order, now))), RouterNode(routerId), r.value.nodes)
      ensures r.Some? && RouterNode(routerId) in Vertices(AgedLsas(lsaDatabase, order, now)) ==>
                Shortest(EdgesOf(Vertices(AgedLsas(lsaDatabase, order, now))), RouterNode(routerId), r.value.nodes)
    {
      var lsas := AgedLsas(lsaDatabase, order, now);
      if !externalRoutingCapability && HasVertex(lsas) {
        return None;
      }
      r := TreeOf(lsas, routerId);
    }

    /// The computation of `calculate` once the vertex LSAs are fetched: the tree of `lsas` and
    /// the transit capability it sets; `None`, with nothing changed, where `lsa2nodes` panics.
    method TreeOf(lsas: seq<Lsa>, routerId: Ipv4Addr) returns (r: Option<SpfTree>)
      modifies this`transitCapability
      ensures r.None? <==> AdjacencyFails(lsas)
      ensures r.None? ==> transitCapability == old(transitCapability)
      ensures r.Some? ==> transitCapability == r.value.transit
      ensures r.Some? ==> (transitCapability <==> exists k | k in r.value.nodes && !k.StubNode? :: HaveV(r.value.nodes[k].lsa))
      ensures r.Some? && RouterNode(routerId) in Vertices(lsas) ==>
                RouterNode(routerId) in r.value.nodes && r.value.nodes[RouterNode(routerId)].distance == 0
      ensures r.Some? ==> Reached(EdgesOf(Vertices(lsas)), RouterNode(routerId), r.value.nodes)
      ensures r.Some? && RouterNode(routerId) in Vertices(lsas) ==>
                Shortest(EdgesOf(Vertices(lsas)), RouterNode(routerId), r.value.nodes)
    {
      ghost var settled;
      r, settled := Calculate(lsas, routerId);
      if r.Some? {
        transitCapability := r.value.transit;
      }
    }

    /// `lsa_has_sent`: the send time of the entry the area sees under the LSA's index becomes `now`.
    method LsaHasSent(ext: ExternalDb, lsa: Lsa, now: int)
      requires Valid(ext)
      modifies this`lsaDatabase, ext`db
      ensures (lsaDatabase, ext.db) == MarkSent(old(lsaDatabase), old(ext.db), externalRoutingCapability, IndexOf(lsa.header), now)
      ensures Valid(ext)
    {
      var r := MarkSent(lsaDatabase, ext.db, externalRoutingCapability, IndexOf(lsa.header), now);
      lsaDatabase := r.0;
      ext.db := r.1;
    }
  }
}
