/// The daemon's OSPF routing table: address prefixes, route preference, longest-prefix lookup, the
/// recalculation that merges the areas' routes with the AS-external routes (section 16.4 of
/// RFC 2328), and the difference between the old and the new table that is pushed to the kernel.
module Routing {
  import opened Common
  import opened Util
  import opened Constants
  import opened LsaView
  import KernelRoute

  // ---------------------------------------------------------------------------
  // `Ipv4AddrMask`

  /// A prefix length. The `u8` of `Ipv4AddrMask` only ever holds `leading_ones` of a 32-bit word,
  /// a probe length from 0 to 32, or the default 0.
  type PrefixLen = p: int | 0 <= p <= 32

  /// `Ipv4AddrMask`: an address and a prefix length.
  datatype AddrMask = AddrMask(addr: Ipv4Addr, len: PrefixLen)

  /// The octet of a prefix mask that holds bits `k - 8 .. k` of the prefix.
  function MaskOctet(k: int): bv8
  {
    if k <= 0 then 0 else if k == 1 then 0x80 else if k == 2 then 0xc0 else if k == 3 then 0xe0
    else if k == 4 then 0xf0 else if k == 5 then 0xf8 else if k == 6 then 0xfc else if k == 7 then 0xfe
    else 0xff
  }

  /// The mask of a prefix length: `p` one bits from the most significant end, zeros after.
  function Mask(p: PrefixLen): Ipv4Addr
  {
    Ipv4Addr(MaskOctet(p), MaskOctet(p - 8), MaskOctet(p - 16), MaskOctet(p - 24))
  }

  /// The leading one bits of an octet.
  function OctetOnes(o: bv8): (n: nat)
    ensures n <= 8
  {
    if o & 0x80 == 0 then 0 else if o & 0x40 == 0 then 1 else if o & 0x20 == 0 then 2
    else if o & 0x10 == 0 then 3 else if o & 0x08 == 0 then 4 else if o & 0x04 == 0 then 5
    else if o & 0x02 == 0 then 6 else if o & 0x01 == 0 then 7 else 8
  }

  /// `ip2hex(mask).leading_ones()`, counted octet by octet from the first (most significant) one.
  function LeadingOnes(m: Ipv4Addr): (n: PrefixLen)
  {
    if m.a != 0xff then OctetOnes(m.a) else if m.b != 0xff then 8 + OctetOnes(m.b)
    else if m.c != 0xff then 16 + OctetOnes(m.c) else if m.d != 0xff then 24 + OctetOnes(m.d) else 32
  }

  /// The mask of `p` has exactly `p` leading ones.
  lemma MaskLeadingOnes(p: PrefixLen)
    ensures LeadingOnes(Mask(p)) == p
  {
  }

  /// The mask of `p` is the all-ones word shifted left by `32 - p`, for `p` from 1 to 32.
  lemma MaskShift(p: PrefixLen)
    requires p >= 1
    ensures Ip2Hex(Mask(p)) == 0xFFFF_FFFF << (32 - p)
  {
  }

  /// Shorter prefixes have nested masks: the bits of the shorter mask lie within the longer one.
  lemma MasksNested(p: PrefixLen, q: PrefixLen)
    requires p <= q
    ensures AddrAnd(Mask(p), Mask(q)) == Mask(p)
  {
    Ip2HexInjective(AddrAnd(Mask(p), Mask(q)), Mask(p));
  }

  /// `Ipv4AddrMask::from`: the address masked, with the leading ones of the mask as prefix length.
  function From(addr: Ipv4Addr, mask: Ipv4Addr): (m: AddrMask)
    ensures Ip2Hex(m.addr) == Ip2Hex(addr) & Ip2Hex(mask)
  {
    AddrMask(AddrAnd(addr, mask), LeadingOnes(mask))
  }

  /// For a prefix mask the prefix length is the mask's length and the address is the network.
  lemma FromPrefixMask(addr: Ipv4Addr, p: PrefixLen)
    ensures From(addr, Mask(p)) == AddrMask(AddrAnd(addr, Mask(p)), p)
  {
    MaskLeadingOnes(p);
  }

  /// `Ipv4AddrMask::mask` as written: `u32::MAX << (32 - len)`. At length 0 the shift amount equals
  /// the width, which overflows: a debug build panics, a release build masks the shift amount to 0
  /// and yields 255.255.255.255, a /32 mask; `None` stands for that overflow.
  function MaskAsWritten(m: AddrMask): (r: Option<Ipv4Addr>)
    ensures r.Some? <==> m.len >= 1
    ensures r.Some? ==> r.value == Mask(m.len)
  {
    if m.len == 0 then None
    else
      MaskShift(m.len);
      Ip2HexInjective(Hex2Ip(0xFFFF_FFFF << (32 - m.len)), Mask(m.len));
      Some(Hex2Ip(0xFFFF_FFFF << (32 - m.len)))
  }

  /// `mask()` as evidently intended: the mask of the prefix length, 0.0.0.0 for length 0.
  function MaskOf(m: AddrMask): Ipv4Addr
  {
    Mask(m.len)
  }

  /// `Ipv4AddrMask::network`: the address under its mask; masking it again changes nothing.
  function NetworkOf(m: AddrMask): (n: Ipv4Addr)
    ensures AddrAnd(n, MaskOf(m)) == n
    ensures Ip2Hex(n) == Ip2Hex(m.addr) & Ip2Hex(MaskOf(m))
  {
    var n := AddrAnd(m.addr, MaskOf(m));
    Ip2HexInjective(AddrAnd(n, MaskOf(m)), n);
    n
  }

  /// `Ipv4AddrMask::default()`: 0.0.0.0/0.
  const DefaultAddrMask: AddrMask := AddrMask(Unspecified, 0)

  /// The default prefix covers every address: its mask and its network are 0.0.0.0.
  lemma DefaultPrefix(ip: Ipv4Addr)
    ensures MaskOf(DefaultAddrMask) == Unspecified && NetworkOf(DefaultAddrMask) == Unspecified
    ensures AddrAnd(ip, Mask(0)) == Unspecified
  {
    Ip2HexInjective(AddrAnd(ip, Mask(0)), Unspecified);
  }

  /// An AS-external default route (mask 0.0.0.0) yields prefix length 0, for which `mask()` as
  /// written overflows its shift, while the intended mask is 0.0.0.0.
  lemma DefaultRouteMaskOverflows(lsid: Ipv4Addr)
    ensures From(lsid, Unspecified).len == 0
    ensures MaskAsWritten(From(lsid, Unspecified)) == None
    ensures MaskOf(From(lsid, Unspecified)) == Unspecified
  {
  }

  /// The route item built from a prefix's `network()` and `mask()` is keyed by that network.
  lemma KeyOfNetwork(m: AddrMask)
    ensures From(NetworkOf(m), MaskOf(m)) == AddrMask(NetworkOf(m), m.len)
  {
    FromPrefixMask(NetworkOf(m), m.len);
  }

  // ---------------------------------------------------------------------------
  // Routing table entries

  /// `RoutingTableIndex`: a network prefix or an AS boundary router.
  datatype RoutingIndex = NetworkIndex(prefix: AddrMask) | AsbrIndex(router: Ipv4Addr)

  /// `RoutingTableItemType`.
  datatype DestType = NetworkDest | RouterDest

  /// `RoutingTablePathType`, in its declaration order.
  datatype PathType = AreaInternal | AreaExternal | AsExternalT1 | AsExternalT2

  function Rank(t: PathType): (n: nat)
    ensures n < 4
  {
    match t
    case AreaInternal => 0
    case AreaExternal => 1
    case AsExternalT1 => 2
    case AsExternalT2 => 3
  }

  /// `RoutingTableItem` (section 11 of RFC 2328). Costs are unbounded here.
  datatype RoutingTableItem = RoutingTableItem(destType: DestType, destId: Ipv4Addr, addrMask: Ipv4Addr,
                                               externalCap: bool, areaId: Ipv4Addr, pathType: PathType,
                                               cost: nat, costT2: nat, lsaOrigin: LsaIndex,
                                               nextHop: Ipv4Addr, adRouter: Ipv4Addr)

  /// `From<RoutingTableItem> for RoutingTableIndex`.
  function KeyOf(x: RoutingTableItem): (k: RoutingIndex)
    ensures k.NetworkIndex? <==> x.destType == NetworkDest
    ensures k.AsbrIndex? ==> k.router == x.destId
  {
    match x.destType
    case NetworkDest => NetworkIndex(From(x.destId, x.addrMask))
    case RouterDest => AsbrIndex(x.destId)
  }

  /// `better_than` as written: on equal path type and type 2 cost it says no, and on a larger type 2
  /// cost it falls back to comparing the type 1 cost.
  predicate BetterThanAsWritten(x: RoutingTableItem, y: RoutingTableItem)
  {
    if Rank(x.pathType) != Rank(y.pathType) then Rank(x.pathType) < Rank(y.pathType)
    else if x.costT2 < y.costT2 then true
    else if x.costT2 == y.costT2 then false
    else x.cost < y.cost
  }

  /// Two entries of the same path type, each better than the other under `better_than` as written.
  lemma BetterThanAsWrittenNotAsymmetric(x: RoutingTableItem)
    ensures var y := x.(costT2 := 2, cost := 0);
            var z := x.(costT2 := 1, cost := 5);
            BetterThanAsWritten(y, z) && BetterThanAsWritten(z, y)
  {
  }

  /// Route preference as section 16.4 of RFC 2328 orders it: lower path type first, then lower
  /// type 2 cost, then lower cost.
  predicate BetterThan(x: RoutingTableItem, y: RoutingTableItem)
  {
    if Rank(x.pathType) != Rank(y.pathType) then Rank(x.pathType) < Rank(y.pathType)
    else if x.costT2 != y.costT2 then x.costT2 < y.costT2
    else x.cost < y.cost
  }

  /// The intended preference is a strict order.
  lemma BetterThanStrictOrder(x: RoutingTableItem, y: RoutingTableItem, z: RoutingTableItem)
    ensures !BetterThan(x, x)
    ensures BetterThan(x, y) ==> !BetterThan(y, x)
    ensures BetterThan(x, y) && BetterThan(y, z) ==> BetterThan(x, z)
  {
  }

  /// The two versions agree except on a larger type 2 cost of the same path type, where only the
  /// written one can say yes, and on an equal type 2 cost, where only the intended one can.
  lemma BetterThanVersions(x: RoutingTableItem, y: RoutingTableItem)
    ensures x.pathType != y.pathType || x.costT2 < y.costT2 ==> (BetterThan(x, y) <==> BetterThanAsWritten(x, y))
    ensures x.pathType == y.pathType && x.costT2 > y.costT2 ==> !BetterThan(x, y)
    ensures x.pathType == y.pathType && x.costT2 == y.costT2 ==> !BetterThanAsWritten(x, y)
    ensures Rank(x.pathType) < Rank(y.pathType) ==> BetterThan(x, y) && BetterThanAsWritten(x, y)
  {
  }

  /// `TryFrom<&RoutingTableItem> for RoutingItem`: the kernel route of a network entry.
  function TryFrom(x: RoutingTableItem): (r: Result<KernelRoute.RoutingItem, string>)
    ensures r.Ok? <==> x.destType == NetworkDest
    ensures r.Ok? ==> r.value.dest == x.destId && r.value.mask == x.addrMask && r.value.nexthop == x.nextHop
  {
    if x.destType != NetworkDest then Err("not a network route")
    else Ok(KernelRoute.RoutingItem(x.destId, x.addrMask, x.nextHop))
  }

  // ---------------------------------------------------------------------------
  // Tables

  type Table = map<RoutingIndex, RoutingTableItem>

  /// Every entry is stored under its own key.
  ghost predicate Keyed(t: Table)
  {
    forall k | k in t :: k == KeyOf(t[k])
  }

  /// `entry(item.into()).and_modify(|old| if item.better_than(old) { *old = item }).or_insert(item)`.
  function Upsert(t: Table, x: RoutingTableItem): (r: Table)
    ensures r.Keys == t.Keys + {KeyOf(x)}
    ensures forall k | k in t && k != KeyOf(x) :: r[k] == t[k]
    ensures KeyOf(x) !in t ==> r[KeyOf(x)] == x
    ensures KeyOf(x) in t ==> r[KeyOf(x)] == (if BetterThan(x, t[KeyOf(x)]) then x else t[KeyOf(x)])
    ensures Keyed(t) ==> Keyed(r)
  {
    var k := KeyOf(x);
    if k in t && !BetterThan(x, t[k]) then t else t[k := x]
  }

  /// Items upserted one after the other.
  function UpsertAll(t: Table, xs: seq<RoutingTableItem>): Table
    decreases |xs|
  {
    if xs == [] then t else UpsertAll(Upsert(t, xs[0]), xs[1..])
  }

  /// Upserting more items never replaces an entry by one that an earlier entry is better than.
  lemma {:induction false} NotBetterKept(t: Table, x: RoutingTableItem, xs: seq<RoutingTableItem>)
    requires KeyOf(x) in t && !BetterThan(x, t[KeyOf(x)])
    ensures KeyOf(x) in UpsertAll(t, xs) && !BetterThan(x, UpsertAll(t, xs)[KeyOf(x)])
    decreases |xs|
  {
    if xs != [] {
      var u := Upsert(t, xs[0]);
      if KeyOf(xs[0]) == KeyOf(x) && BetterThan(xs[0], t[KeyOf(x)]) {
        BetterThanStrictOrder(x, xs[0], t[KeyOf(x)]);
      }
      NotBetterKept(u, x, xs[1..]);
    }
  }

  /// After the upserts no upserted item is better than the entry the table keeps under its key.
  lemma {:induction false} UpsertAllBest(t: Table, xs: seq<RoutingTableItem>)
    ensures forall x | x in xs :: KeyOf(x) in UpsertAll(t, xs) && !BetterThan(x, UpsertAll(t, xs)[KeyOf(x)])
    decreases |xs|
  {
    if xs != [] {
      var u := Upsert(t, xs[0]);
      UpsertAllBest(u, xs[1..]);
      BetterThanStrictOrder(xs[0], xs[0], xs[0]);
      NotBetterKept(u, xs[0], xs[1..]);
      assert forall x | x in xs :: x == xs[0] || x in xs[1..];
    }
  }

  /// The upserts add exactly the keys of the upserted items.
  lemma {:induction false} UpsertAllKeys(t: Table, xs: seq<RoutingTableItem>)
    ensures UpsertAll(t, xs).Keys == t.Keys + set x | x in xs :: KeyOf(x)
    decreases |xs|
  {
    if xs != [] {
      UpsertAllKeys(Upsert(t, xs[0]), xs[1..]);
      assert forall x | x in xs :: x == xs[0] || x in xs[1..];
    }
  }

  /// Entries under keys no upserted item has stay as they are.
  lemma {:induction false} UpsertAllKeeps(t: Table, xs: seq<RoutingTableItem>, k: RoutingIndex)
    requires k in t && forall x | x in xs :: KeyOf(x) != k
    ensures k in UpsertAll(t, xs) && UpsertAll(t, xs)[k] == t[k]
    decreases |xs|
  {
    if xs != [] {
      UpsertAllKeeps(Upsert(t, xs[0]), xs[1..], k);
    }
  }

  /// The upserts keep every entry under its own key.
  lemma {:induction false} UpsertAllKeyed(t: Table, xs: seq<RoutingTableItem>)
    requires Keyed(t)
    ensures Keyed(UpsertAll(t, xs))
    decreases |xs|
  {
    if xs != [] {
      UpsertAllKeyed(Upsert(t, xs[0]), xs[1..]);
    }
  }

  // ---------------------------------------------------------------------------
  // Lookup

  /// The prefix of length `p` that contains `ip`.
  function Covering(ip: Ipv4Addr, p: PrefixLen): AddrMask
  {
    AddrMask(AddrAnd(ip, Mask(p)), p)
  }

  /// `get_routing` as written: it probes the lengths 32 down to 0 with the address unmasked, so a
  /// prefix is found only when the address is the prefix's own (masked) address.
  function ProbeAsWritten(t: Table, ip: Ipv4Addr, p: PrefixLen): (r: Option<RoutingTableItem>)
    ensures r.None? <==> forall q: PrefixLen | q <= p :: NetworkIndex(AddrMask(ip, q)) !in t
    ensures r.Some? ==> exists q: PrefixLen | q <= p :: NetworkIndex(AddrMask(ip, q)) in t
                          && r.value == t[NetworkIndex(AddrMask(ip, q))]
                          && forall q': PrefixLen | q < q' <= p :: NetworkIndex(AddrMask(ip, q')) !in t
    decreases p
  {
    if NetworkIndex(AddrMask(ip, p)) in t then Some(t[NetworkIndex(AddrMask(ip, p))])
    else if p == 0 then None
    else ProbeAsWritten(t, ip, p - 1)
  }

  function GetRoutingAsWritten(t: Table, ip: Ipv4Addr): (r: Option<RoutingTableItem>)
    ensures r.None? <==> forall q: PrefixLen :: NetworkIndex(AddrMask(ip, q)) !in t
    ensures r.Some? ==> exists q: PrefixLen :: NetworkIndex(AddrMask(ip, q)) in t && r.value == t[NetworkIndex(AddrMask(ip, q))]
                                               && forall q': PrefixLen | q < q' :: NetworkIndex(AddrMask(ip, q')) !in t
  {
    ProbeAsWritten(t, ip, 32)
  }

  /// The longest prefix length up to `p` whose prefix containing `ip` is in the table.
  function LongestMatch(t: Table, ip: Ipv4Addr, p: PrefixLen): (r: Option<PrefixLen>)
    ensures r.Some? ==> r.value <= p && NetworkIndex(Covering(ip, r.value)) in t
    ensures r.Some? ==> forall q: PrefixLen | r.value < q <= p :: NetworkIndex(Covering(ip, q)) !in t
    ensures r.None? ==> forall q: PrefixLen | q <= p :: NetworkIndex(Covering(ip, q)) !in t
    decreases p
  {
    if NetworkIndex(Covering(ip, p)) in t then Some(p)
    else if p == 0 then None
    else LongestMatch(t, ip, p - 1)
  }

  /// `get_routing` as evidently intended: the entry of the longest prefix containing the address.
  function GetRouting(t: Table, ip: Ipv4Addr): (r: Option<RoutingTableItem>)
    ensures r.None? <==> forall q: PrefixLen :: NetworkIndex(Covering(ip, q)) !in t
    ensures r.Some? ==> exists q: PrefixLen :: NetworkIndex(Covering(ip, q)) in t && r.value == t[NetworkIndex(Covering(ip, q))]
                                               && forall q': PrefixLen | q < q' :: NetworkIndex(Covering(ip, q')) !in t
  {
    match LongestMatch(t, ip, 32)
    case None => None
    case Some(p) => Some(t[NetworkIndex(Covering(ip, p))])
  }

  const Net10: Ipv4Addr := Ipv4Addr(10, 0, 0, 0)
  const Host10: Ipv4Addr := Ipv4Addr(10, 0, 0, 5)

  /// A forwarding address inside 10.0.0.0/24: the lookup as written misses the prefix, the intended
  /// one finds it.
  lemma LookupMissesContainingPrefix(x: RoutingTableItem)
    ensures var t := map[NetworkIndex(AddrMask(Net10, 24)) := x];
            GetRoutingAsWritten(t, Host10) == None && GetRouting(t, Host10) == Some(x)
  {
    var t := map[NetworkIndex(AddrMask(Net10, 24)) := x];
    assert Covering(Host10, 24) == AddrMask(Net10, 24) by {
      Ip2HexInjective(AddrAnd(Host10, Mask(24)), Net10);
    }
    assert LongestMatch(t, Host10, 32) == Some(24);
  }

  // ---------------------------------------------------------------------------
  // AS-external routes

  /// The entry an AS-external route forwards through: the ASBR's own entry for forwarding address
  /// 0.0.0.0, else the entry `get_routing` as written finds for the forwarding address.
  function Forwarding(t: Table, h: LsaHeader, e: AsExternalLsa): (r: Option<RoutingTableItem>)
    requires AsbrIndex(h.advertisingRouter) in t
    ensures e.forwardingAddress == Unspecified ==> r == Some(t[AsbrIndex(h.advertisingRouter)])
    ensures e.forwardingAddress != Unspecified ==> r == GetRoutingAsWritten(t, e.forwardingAddress)
  {
    if e.forwardingAddress == Unspecified then Some(t[AsbrIndex(h.advertisingRouter)])
    else GetRoutingAsWritten(t, e.forwardingAddress)
  }

  /// The route one AS-external-LSA yields, or `None` when the LSA is skipped.
  function ExternalRoute(t: Table, h: LsaHeader, e: AsExternalLsa, routerId: Ipv4Addr): (r: Option<RoutingTableItem>)
    ensures r.Some? <==> e.metric < LsInfinity && h.advertisingRouter != routerId
                         && AsbrIndex(h.advertisingRouter) in t && Forwarding(t, h, e).Some?
    ensures r.Some? ==> var f := Forwarding(t, h, e).value;
                        && r.value.destType == NetworkDest && r.value.areaId == BackboneArea
                        && r.value.externalCap && r.value.adRouter == h.advertisingRouter
                        && r.value.nextHop == f.nextHop && r.value.lsaOrigin == IndexOf(h)
                        && (!e.e ==> r.value.pathType == AsExternalT1 && r.value.cost == f.cost + e.metric
                                     && r.value.costT2 == f.costT2)
                        && (e.e ==> r.value.pathType == AsExternalT2 && r.value.cost == f.cost
                                    && r.value.costT2 == f.costT2 + e.metric)
    ensures r.Some? ==> var m := From(h.linkStateId, e.networkMask);
                        KeyOf(r.value) == NetworkIndex(AddrMask(NetworkOf(m), m.len))
  {
    if e.metric >= LsInfinity || h.advertisingRouter == routerId || AsbrIndex(h.advertisingRouter) !in t then None
    else match Forwarding(t, h, e)
      case None => None
      case Some(f) =>
        var m := From(h.linkStateId, e.networkMask);
        var t1 := !e.e;
        KeyOfNetwork(m);
        Some(RoutingTableItem(NetworkDest, NetworkOf(m), MaskOf(m), true, BackboneArea,
                              if t1 then AsExternalT1 else AsExternalT2,
                              f.cost + (if t1 then e.metric else 0), f.costT2 + (if t1 then 0 else e.metric),
                              IndexOf(h), f.nextHop, h.advertisingRouter))
  }

  /// One AS-external-LSA processed: its route upserted, if it yields one.
  function ExternalStep(t: Table, h: LsaHeader, e: AsExternalLsa, routerId: Ipv4Addr): Table
  {
    match ExternalRoute(t, h, e, routerId)
    case None => t
    case Some(x) => Upsert(t, x)
  }

  lemma ExternalStepCases(t: Table, h: LsaHeader, e: AsExternalLsa, routerId: Ipv4Addr)
    ensures ExternalStep(t, h, e, routerId)
            == if e.metric < LsInfinity && h.advertisingRouter != routerId && AsbrIndex(h.advertisingRouter) in t
                  && Forwarding(t, h, e).Some?
               then Upsert(t, ExternalRoute(t, h, e, routerId).value) else t
  {
  }

  function Externals(t: Table, es: seq<(LsaHeader, AsExternalLsa)>, routerId: Ipv4Addr): Table
    decreases |es|
  {
    if es == [] then t else Externals(ExternalStep(t, es[0].0, es[0].1, routerId), es[1..], routerId)
  }

  lemma {:induction false} ExternalsKeyed(t: Table, es: seq<(LsaHeader, AsExternalLsa)>, routerId: Ipv4Addr)
    requires Keyed(t)
    ensures Keyed(Externals(t, es, routerId))
    ensures t.Keys <= Externals(t, es, routerId).Keys
    decreases |es|
  {
    if es != [] {
      ExternalsKeyed(ExternalStep(t, es[0].0, es[0].1, routerId), es[1..], routerId);
    }
  }

  // ---------------------------------------------------------------------------
  // Kernel synchronisation

  /// An entry of `a` whose kernel route `b` does not hold, equal, under the same key.
  predicate Changed(a: Table, b: Table, k: RoutingIndex)
    requires k in a
  {
    TryFrom(a[k]).Ok? && !(k in b && TryFrom(b[k]) == TryFrom(a[k]))
  }

  /// The kernel routes of the entries of `a` among the keys `ks` that changed in `b`.
  function Picked(a: Table, b: Table, ks: set<RoutingIndex>): set<KernelRoute.RoutingItem>
  {
    set k | k in ks && k in a && Changed(a, b, k) :: TryFrom(a[k]).value
  }

  /// The routes deleted from the kernel: old network routes the new table does not hold equal.
  function ToDelete(oldT: Table, newT: Table): set<KernelRoute.RoutingItem>
  {
    Picked(oldT, newT, oldT.Keys)
  }

  /// The routes added to the kernel: new network routes the old table did not hold equal.
  function ToAdd(oldT: Table, newT: Table): set<KernelRoute.RoutingItem>
  {
    Picked(newT, oldT, newT.Keys)
  }

  /// The kernel routes of a table's network entries.
  function KernelOf(t: Table): set<KernelRoute.RoutingItem>
  {
    set k | k in t && TryFrom(t[k]).Ok? :: TryFrom(t[k]).value
  }

  /// In a keyed table a kernel route determines its key.
  lemma KernelKey(t: Table, k: RoutingIndex, u: Table, j: RoutingIndex)
    requires Keyed(t) && Keyed(u) && k in t && j in u
    requires TryFrom(t[k]).Ok? && TryFrom(t[k]) == TryFrom(u[j])
    ensures k == j
  {
  }

  /// Deleting the routes to delete and adding the routes to add turns the kernel routes of the
  /// old table into those of the new one.
  lemma SyncReachesNew(oldT: Table, newT: Table)
    requires Keyed(oldT) && Keyed(newT)
    ensures (KernelOf(oldT) - ToDelete(oldT, newT)) + ToAdd(oldT, newT) == KernelOf(newT)
  {
    var lhs := (KernelOf(oldT) - ToDelete(oldT, newT)) + ToAdd(oldT, newT);
    forall r | r in KernelOf(newT) ensures r in lhs {
      var k :| k in newT && TryFrom(newT[k]).Ok? && r == TryFrom(newT[k]).value;
      if !Changed(newT, oldT, k) {
        assert r in KernelOf(oldT);
      }
    }
    forall r | r in lhs ensures r in KernelOf(newT) {
      if r !in ToAdd(oldT, newT) {
        var k :| k in oldT && TryFrom(oldT[k]).Ok? && r == TryFrom(oldT[k]).value;
        assert !Changed(oldT, newT, k);
      }
    }
  }

  /// An unchanged table sends nothing to the kernel.
  lemma NoChangeNoSync(t: Table)
    ensures ToDelete(t, t) == {} && ToAdd(t, t) == {}
  {
  }

  /// The routes of a table's entries at the keys `ks`, in the order a loop visits them.
  method Diff(a: Table, b: Table) returns (out: seq<KernelRoute.RoutingItem>)
    ensures (set r | r in out) == Picked(a, b, a.Keys)
  {
    out := [];
    var rest := a.Keys;
    while rest != {}
      invariant rest <= a.Keys
      invariant (set r | r in out) == Picked(a, b, a.Keys - rest)
      decreases |rest|
    {
      var k :| k in rest;
      var before := Picked(a, b, a.Keys - rest);
      var after := Picked(a, b, a.Keys - (rest - {k}));
      if Changed(a, b, k) {
        assert after == before + {TryFrom(a[k]).value};
        out := out + [TryFrom(a[k]).value];
      } else {
        assert after == before;
      }
      rest := rest - {k};
    }
  }

  // ---------------------------------------------------------------------------
  // Kernel wrappers

  /// `EEXIST`, the error number behind `ErrorKind::AlreadyExists`.
  const EExist: int := 17
  /// `ESRCH`, which the kernel reports for a route that does not exist.
  const ESrch: int := 3

  /// The daemon's `delete_route`: routes through 0.0.0.0 are never installed, so nothing is done;
  /// a missing route counts as deleted. `lib` is what the binding returns.
  function DeleteRouteWrapper(r: KernelRoute.RoutingItem, lib: Result<(), KernelRoute.OsError>): (res: Result<(), KernelRoute.OsError>)
    ensures res.Ok? <==> r.nexthop == Unspecified || lib.Ok? || lib.error.errno == ESrch
    ensures res.Err? ==> res == lib
  {
    if r.nexthop == Unspecified then Ok(())
    else if lib.Err? && lib.error.errno == ESrch then Ok(())
    else lib
  }

  /// The daemon's `add_route`: nothing for next hop 0.0.0.0; on "already exists" the route is
  /// deleted (an error there is returned) and added once more. `first`, `del` and `second` are
  /// what the binding returns for the first add, the delete and the second add.
  function AddRouteWrapper(r: KernelRoute.RoutingItem, first: Result<(), KernelRoute.OsError>,
                           del: Result<(), KernelRoute.OsError>, second: Result<(), KernelRoute.OsError>)
    : (res: Result<(), KernelRoute.OsError>)
    ensures res.Ok? <==> r.nexthop == Unspecified || first.Ok?
                         || (first.error.errno == EExist && DeleteRouteWrapper(r, del).Ok? && second.Ok?)
    ensures res.Err? && first.Err? && first.error.errno != EExist ==> res == first
  {
    if r.nexthop == Unspecified then Ok(())
    else if first.Err? && first.error.errno == EExist then
      var d := DeleteRouteWrapper(r, del);
      if d.Err? then d else second
    else first
  }

  /// The items upserted into a table in order, as the loops of `recalculate` do.
  method UpsertEach(t0: Table, xs: seq<RoutingTableItem>) returns (t: Table)
    requires Keyed(t0)
    ensures t == UpsertAll(t0, xs) && Keyed(t)
  {
    t := t0;
    var i := 0;
    while i < |xs|
      invariant 0 <= i <= |xs|
      invariant UpsertAll(t, xs[i..]) == UpsertAll(t0, xs)
      invariant Keyed(t)
    {
      assert xs[i..][1..] == xs[i + 1..];
      t := Upsert(t, xs[i]);
      i := i + 1;
    }
  }

  /// The AS-external loop of `recalculate`: each LSA's route, when it yields one, upserted.
  method ExternalEach(t0: Table, externals: seq<(LsaHeader, AsExternalLsa)>, routerId: Ipv4Addr) returns (t: Table)
    requires Keyed(t0)
    ensures t == Externals(t0, externals, routerId) && Keyed(t)
  {
    t := t0;
    var i := 0;
    while i < |externals|
      invariant 0 <= i <= |externals|
      invariant Externals(t, externals[i..], routerId) == Externals(t0, externals, routerId)
      invariant Keyed(t)
    {
      var (h, e) := externals[i];
      ghost var before := t;
      assert Externals(t, externals[i..], routerId) == Externals(ExternalStep(t, h, e, routerId), externals[i + 1..], routerId) by {
        assert externals[i..][1..] == externals[i + 1..];
      }
      if e.metric < LsInfinity && h.advertisingRouter != routerId && AsbrIndex(h.advertisingRouter) in t {
        var f := Forwarding(t, h, e);
        if f.Some? {
          t := Upsert(t, ExternalRoute(t, h, e, routerId).value);
        }
      }
      assert t == ExternalStep(before, h, e, routerId) by {
        ExternalStepCases(before, h, e, routerId);
      }
      i := i + 1;
    }
  }

  // ---------------------------------------------------------------------------
  // `RoutingTable`

  class RoutingTable {
    var table: Table

    ghost predicate Valid()
      reads this
    {
      Keyed(table)
    }

    constructor ()
      ensures table == map[] && Valid()
    {
      table := map[];
    }

    /// `recalculate`: the areas' routes (area after area), then their inter-area routes, then the
    /// AS-external routes, each upserted into a fresh table; the routes returned are the kernel
    /// deletes and adds that move the kernel from the old table to the new one.
    method Recalculate(areaRoutes: seq<RoutingTableItem>, summaryRoutes: seq<RoutingTableItem>,
                       externals: seq<(LsaHeader, AsExternalLsa)>, routerId: Ipv4Addr)
      returns (deletes: seq<KernelRoute.RoutingItem>, adds: seq<KernelRoute.RoutingItem>)
      requires Valid()
      modifies this
      ensures Valid()
      ensures table == Externals(UpsertAll(UpsertAll(map[], areaRoutes), summaryRoutes), externals, routerId)
      ensures (set r | r in deletes) == ToDelete(old(table), table)
      ensures (set r | r in adds) == ToAdd(old(table), table)
    {
      var oldTable := table;
      var t := UpsertEach(map[], areaRoutes);
      t := UpsertEach(t, summaryRoutes);
      t := ExternalEach(t, externals, routerId);
      deletes := Diff(oldTable, t);
      adds := Diff(t, oldTable);
      table := t;
    }

    /// `delete_all_routing`: every network route of the table is deleted from the kernel.
    method DeleteAllRouting() returns (deletes: seq<KernelRoute.RoutingItem>)
      ensures (set r | r in deletes) == KernelOf(table)
    {
      deletes := Diff(table, map[]);
    }
  }
}
