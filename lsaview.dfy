/// The daemon's view of a link-state advertisement and its LSA database entries.
/// The daemon reads the packet crate's LSAs with router ids, link ids and masks as `Ipv4Addr`
/// and the sequence number as a signed 32-bit integer; this module states that view once, and
/// the age arithmetic of `LsaTimer` (the timer that stamps each database entry).
module LsaView {
  import opened Common
  import opened Util
  import opened Constants

  // LS type codes (section A.4.1 of RFC 2328).
  const RouterLsaType: nat := 1
  const NetworkLsaType: nat := 2
  const SummaryIpLsaType: nat := 3
  const SummaryAsbrLsaType: nat := 4
  const AsExternalLsaType: nat := 5

  // Router-LSA link types (section A.4.2 of RFC 2328).
  const P2pLink: nat := 1
  const TransitLink: nat := 2
  const StubLink: nat := 3
  const VirtualLink: nat := 4

  /// The E bit of the options field.
  const OptionE: bv8 := 0x02

  datatype LsaHeader = LsaHeader(lsAge: nat, options: bv8, lsType: nat, linkStateId: Ipv4Addr,
                                 advertisingRouter: Ipv4Addr, lsSequenceNumber: int, lsChecksum: nat,
                                 length: nat)

  /// `LsaIndex`: what identifies an LSA in a database (section 12.1 of RFC 2328).
  datatype LsaIndex = LsaIndex(lsType: nat, linkStateId: Ipv4Addr, advertisingRouter: Ipv4Addr)

  /// `LsaIndex::from(header)`.
  function IndexOf(h: LsaHeader): (k: LsaIndex)
    ensures k.lsType == h.lsType && k.linkStateId == h.linkStateId && k.advertisingRouter == h.advertisingRouter
  {
    LsaIndex(h.lsType, h.linkStateId, h.advertisingRouter)
  }

  datatype RouterLink = RouterLink(linkId: Ipv4Addr, linkData: Ipv4Addr, linkType: nat, tos: nat, metric: nat)

  /// A router-LSA with its B (border), E (external) and V (virtual-link endpoint) bits.
  datatype RouterLsa = RouterLsa(b: bool, e: bool, v: bool, numLinks: nat, links: seq<RouterLink>)

  datatype NetworkLsa = NetworkLsa(networkMask: Ipv4Addr, attachedRouters: seq<Ipv4Addr>)

  datatype SummaryLsa = SummaryLsa(networkMask: Ipv4Addr, metric: nat, tos: nat, tosMetric: nat)

  /// An AS-external-LSA; `e` is the external metric type bit (type 2 when set).
  datatype AsExternalLsa = AsExternalLsa(networkMask: Ipv4Addr, e: bool, metric: nat,
                                         forwardingAddress: Ipv4Addr, externalRouteTag: nat)

  datatype LsaData =
    | Router(router: RouterLsa)
    | Network(network: NetworkLsa)
    | SummaryIp(summary: SummaryLsa)
    | SummaryAsbr(summary: SummaryLsa)
    | AsExternal(external: AsExternalLsa)

  datatype Lsa = Lsa(header: LsaHeader, data: LsaData)

  /// `Instant::elapsed().as_secs()` for an instant taken at `created`, read at `now` (whole
  /// seconds); an instant in the future counts as no time elapsed.
  function Elapsed(now: int, created: int): (s: nat)
    ensures now >= created ==> s == now - created
  {
    if now >= created then now - created else 0
  }

  /// `LsaTimer::update_lsa_age_header`: the stored age advanced by the seconds elapsed since the
  /// entry was created, held at MaxAge.
  function AgedHeader(h: LsaHeader, elapsed: nat): (r: LsaHeader)
    ensures r.lsAge <= LsaMaxAge
    ensures r.lsAge == LsaMaxAge <==> h.lsAge + elapsed >= LsaMaxAge
    ensures r.lsAge < LsaMaxAge ==> r.lsAge == h.lsAge + elapsed
    ensures r == h.(lsAge := r.lsAge)
  {
    var age := h.lsAge + elapsed;
    h.(lsAge := if age < LsaMaxAge then age else LsaMaxAge)
  }

  /// `LsaTimer::update_lsa_age`: only the header's age changes.
  function AgedLsa(l: Lsa, elapsed: nat): (r: Lsa)
    ensures r.data == l.data && r.header == AgedHeader(l.header, elapsed)
  {
    l.(header := AgedHeader(l.header, elapsed))
  }

  /// Ageing never makes an LSA younger than it is after fewer seconds.
  lemma AgeMonotone(h: LsaHeader, e1: nat, e2: nat)
    requires e1 <= e2
    ensures AgedHeader(h, e1).lsAge <= AgedHeader(h, e2).lsAge
  {
  }

  /// Ageing in two steps is ageing by their sum, for a header not older than MaxAge.
  lemma AgeCompose(h: LsaHeader, e1: nat, e2: nat)
    requires h.lsAge <= LsaMaxAge
    ensures AgedHeader(AgedHeader(h, e1), e2) == AgedHeader(h, e1 + e2)
  {
  }

  /// A header already at MaxAge stays there.
  lemma MaxAgeSticks(h: LsaHeader, elapsed: nat)
    requires h.lsAge == LsaMaxAge
    ensures AgedHeader(h, elapsed) == h
  {
  }
}
