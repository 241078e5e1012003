/// The link-state advertisement wire formats (appendix A.4 of RFC 2328) as the
/// `#[raw_packet]` codec lays them out, and `Lsa`'s hand-written codec, which
/// chooses the body by the header's type and limits it to the header's length.
module Lsa {
  import opened Common
  import opened Bits
  import opened Decorator
  import opened DecoratorCodec

  // `types`: the LS type codes.
  const RouterLsaType: nat := 1
  const NetworkLsaType: nat := 2
  const SummaryIpLsaType: nat := 3
  const SummaryAsbrLsaType: nat := 4
  const AsExternalLsaType: nat := 5

  /// `size_of_val(&header)`: the in-memory size of `LsaHeader`, equal to its wire size.
  const HeaderSize: nat := 20

  // ---------------------------------------------------------------------------
  // Codec plumbing shared by every layout

  /// Element codec of a struct without vector fields (never called).
  function NoBytes(x: ()): seq<Byte>
  {
    []
  }

  function NoElement(b: seq<Byte>): Option<((), nat)>
  {
    None
  }

  /// The encoding of an integer of `k` bytes (`to_be_bytes`).
  function UintBytes(v: nat, k: nat): seq<Byte>
  {
    BigEndian(v, k)
  }

  /// `buf.get_u32()` and friends: `k` bytes big-endian; `None` where the buffer runs dry.
  function UintFromBuf(k: nat, b: seq<Byte>): (r: Option<(nat, nat)>)
    ensures r.Some? ==> r.value.0 < Pow2(8 * k) && r.value.1 == k
  {
    if |b| < k then None else Some((ValueOf(BytesToBits(b[..k])), k))
  }

  /// `u32::from_buf` undoes `u32::to_bytes`.
  lemma U32RoundTrip(v: U32, rest: seq<Byte>)
    ensures UintFromBuf(4, UintBytes(v, 4) + rest) == Some((v as nat, 4))
  {
    var b := UintBytes(v, 4) + rest;
    assert b[..4] == BigEndian(v, 4);
    Pow2Widths();
    BigEndianValue(v, 4);
  }

  function U32Bytes(x: U32): seq<Byte>
  {
    UintBytes(x, 4)
  }

  function U32FromBuf(b: seq<Byte>): Option<(U32, nat)>
  {
    match UintFromBuf(4, b)
    case None => None
    case Some((v, c)) => Pow2Widths(); Some((v, c))
  }

  // ---------------------------------------------------------------------------
  // `LsaHeader`

  datatype LsaHeader = LsaHeader(lsAge: U16, options: Byte, lsType: Byte, linkStateId: U32,
                                 advertisingRouter: U32, lsSequenceNumber: U32, lsChecksum: U16, length: U16)

  /// `LsaHeader`'s fields as the derive classifies them.
  function HeaderLayout(): seq<Field>
  {
    [Field("ls_age", Data(16)), Field("options", Data(8)), Field("ls_type", Data(8)),
     Field("link_state_id", Data(32)), Field("advertising_router", Data(32)),
     Field("ls_sequence_number", Data(32)), Field("ls_checksum", Data(16)), Field("length", Data(16))]
  }

  lemma HeaderWellFormed()
    ensures WellFormedLayout(HeaderLayout()) && !HasUnsized(HeaderLayout())
  {
    HeaderByteFields();
    ByteLayout(HeaderLayout());
  }

  function HeaderValues(h: LsaHeader): seq<Value<()>>
  {
    [Num(h.lsAge), Num(h.options), Num(h.lsType), Num(h.linkStateId), Num(h.advertisingRouter),
     Num(h.lsSequenceNumber), Num(h.lsChecksum), Num(h.length)]
  }

  lemma HeaderValuesFit(h: LsaHeader)
    ensures Fits(HeaderLayout(), HeaderValues(h))
  {
    Pow2Widths();
  }

  function HeaderOf(vs: seq<Value<()>>): LsaHeader
    requires Fits(HeaderLayout(), vs)
  {
    Pow2Widths();
    LsaHeader(vs[0].n, vs[1].n, vs[2].n, vs[3].n, vs[4].n, vs[5].n, vs[6].n, vs[7].n)
  }

  /// The derived `LsaHeader::to_bytes`.
  function HeaderToBytes(h: LsaHeader): seq<Byte>
  {
    HeaderWellFormed();
    HeaderValuesFit(h);
    EncodeAligned(HeaderLayout(), HeaderValues(h), NoBytes);
    ToBytesMut(HeaderLayout(), HeaderValues(h), NoBytes).value
  }

  /// The derived `LsaHeader::from_buf`: the header and the bytes it took.
  function HeaderFromBuf(b: seq<Byte>): (r: Option<(LsaHeader, nat)>)
    ensures r.Some? ==> r.value.1 <= |b|
  {
    match FromBuf(HeaderLayout(), b, NoElement)
    case None => None
    case Some((vs, c)) =>
      FromBufFits(HeaderLayout(), b, NoElement);
      Some((HeaderOf(vs), c))
  }

  /// The 20 header bytes of appendix A.4.1 of RFC 2328, in network order.
  function HeaderWire(h: LsaHeader): seq<Byte>
  {
    UintBytes(h.lsAge, 2) + (UintBytes(h.options, 1) + (UintBytes(h.lsType, 1) + (UintBytes(h.linkStateId, 4)
      + (UintBytes(h.advertisingRouter, 4) + (UintBytes(h.lsSequenceNumber, 4)
      + (UintBytes(h.lsChecksum, 2) + UintBytes(h.length, 2)))))))
  }

  /// The derived encoder writes the header of appendix A.4.1 of RFC 2328: every field
  /// big-endian, in declaration order, 20 bytes in all.
  lemma HeaderBytes(h: LsaHeader)
    ensures HeaderToBytes(h) == HeaderWire(h)
    ensures |HeaderToBytes(h)| == HeaderSize
  {
    HeaderByteFields();
    HeaderValuesFit(h);
    ByteLayoutEncodes(HeaderLayout(), HeaderValues(h), NoBytes);
    HeaderWireFields(h);
  }

  lemma HeaderByteFields()
    ensures WholeBytes(HeaderLayout()) && NoVecs(HeaderLayout())
  {
  }

  lemma HeaderWireFields(h: LsaHeader)
    ensures ByteWire(HeaderLayout(), HeaderValues(h), NoBytes, 0) == HeaderWire(h)
  {
    HeaderWireOf(HeaderLayout(), HeaderValues(h), h);
  }

  lemma HeaderWireOf(l: seq<Field>, vs: seq<Value<()>>, h: LsaHeader)
    requires |l| == 8 && l[0].kind == Data(16) && l[1].kind == Data(8) && l[2].kind == Data(8)
      && l[3].kind == Data(32) && l[4].kind == Data(32) && l[5].kind == Data(32) && l[6].kind == Data(16) && l[7].kind == Data(16)
    requires vs == [Num(h.lsAge), Num(h.options), Num(h.lsType), Num(h.linkStateId), Num(h.advertisingRouter),
                    Num(h.lsSequenceNumber), Num(h.lsChecksum), Num(h.length)]
    ensures ByteWire(l, vs, NoBytes, 0) == HeaderWire(h)
  {
    HeaderWireTail(l, vs, h);
    ByteWireData(l, vs, NoBytes, 3, 32, h.linkStateId);
    ByteWireData(l, vs, NoBytes, 2, 8, h.lsType);
    ByteWireData(l, vs, NoBytes, 1, 8, h.options);
    ByteWireData(l, vs, NoBytes, 0, 16, h.lsAge);
  }

  lemma HeaderWireTail(l: seq<Field>, vs: seq<Value<()>>, h: LsaHeader)
    requires |l| == 8 && l[4].kind == Data(32) && l[5].kind == Data(32) && l[6].kind == Data(16) && l[7].kind == Data(16)
    requires |vs| == 8 && vs[4] == Num(h.advertisingRouter) && vs[5] == Num(h.lsSequenceNumber)
      && vs[6] == Num(h.lsChecksum) && vs[7] == Num(h.length)
    ensures ByteWire(l, vs, NoBytes, 4) == UintBytes(h.advertisingRouter, 4) + (UintBytes(h.lsSequenceNumber, 4)
      + (UintBytes(h.lsChecksum, 2) + UintBytes(h.length, 2)))
  {
    assert ByteWire(l, vs, NoBytes, 8) == [];
    ByteWireData(l, vs, NoBytes, 7, 16, h.length);
    ByteWireData(l, vs, NoBytes, 6, 16, h.lsChecksum);
    ByteWireData(l, vs, NoBytes, 5, 32, h.lsSequenceNumber);
    ByteWireData(l, vs, NoBytes, 4, 32, h.advertisingRouter);
  }

  /// The derived decoder undoes the derived encoder and takes exactly 20 bytes,
  /// whatever follows.
  lemma HeaderRoundTrip(h: LsaHeader, rest: seq<Byte>)
    ensures HeaderFromBuf(HeaderToBytes(h) + rest) == Some((h, HeaderSize))
  {
    HeaderWellFormed();
    HeaderValuesFit(h);
    HeaderBytes(h);
    FromBufToBytes(HeaderLayout(), HeaderValues(h), NoBytes, NoElement, rest);
  }

  /// The header codec is a valid element codec for `Vec<LsaHeader>`.
  lemma HeadersRoundTrip(xs: seq<LsaHeader>)
    ensures ElemRoundTrip(HeaderToBytes, HeaderFromBuf, xs)
  {
    forall x | x in xs
      ensures |HeaderToBytes(x)| > 0
    {
      HeaderBytes(x);
    }
    forall x: LsaHeader, b: seq<Byte> | x in xs && |HeaderToBytes(x)| <= |b| && b[..|HeaderToBytes(x)|] == HeaderToBytes(x)
      ensures HeaderFromBuf(b).Some? && HeaderFromBuf(b).value.0 == x && HeaderFromBuf(b).value.1 == |HeaderToBytes(x)|
    {
      HeaderBytes(x);
      SplitAt(b, HeaderSize);
      HeaderRoundTrip(x, b[HeaderSize..]);
    }
  }

  lemma {:induction false} HeadersLength(xs: seq<LsaHeader>)
    ensures |Concat(HeaderToBytes, xs)| == HeaderSize * |xs|
  {
    if xs != [] {
      HeaderBytes(xs[0]);
      HeadersLength(xs[1..]);
    }
  }

  // ---------------------------------------------------------------------------
  // `RouterLSALink`

  datatype RouterLink = RouterLink(linkId: U32, linkData: U32, linkType: Byte, tos: Byte, metric: U16)

  function LinkLayout(): seq<Field>
  {
    [Field("link_id", Data(32)), Field("link_data", Data(32)), Field("link_type", Data(8)),
     Field("tos", Data(8)), Field("metric", Data(16))]
  }

  function LinkValues(k: RouterLink): seq<Value<()>>
  {
    [Num(k.linkId), Num(k.linkData), Num(k.linkType), Num(k.tos), Num(k.metric)]
  }

  lemma LinkValuesFit(k: RouterLink)
    ensures Fits(LinkLayout(), LinkValues(k))
  {
    Pow2Widths();
  }

  lemma LinkByteFields()
    ensures WholeBytes(LinkLayout()) && NoVecs(LinkLayout())
  {
  }

  function LinkOf(vs: seq<Value<()>>): RouterLink
    requires Fits(LinkLayout(), vs)
  {
    Pow2Widths();
    RouterLink(vs[0].n, vs[1].n, vs[2].n, vs[3].n, vs[4].n)
  }

  /// The derived `RouterLSALink::to_bytes`.
  function LinkToBytes(k: RouterLink): seq<Byte>
  {
    LinkByteFields();
    ByteLayout(LinkLayout());
    LinkValuesFit(k);
    EncodeAligned(LinkLayout(), LinkValues(k), NoBytes);
    ToBytesMut(LinkLayout(), LinkValues(k), NoBytes).value
  }

  /// The derived `RouterLSALink::from_buf`.
  function LinkFromBuf(b: seq<Byte>): (r: Option<(RouterLink, nat)>)
    ensures r.Some? ==> r.value.1 <= |b|
  {
    match FromBuf(LinkLayout(), b, NoElement)
    case None => None
    case Some((vs, c)) =>
      FromBufFits(LinkLayout(), b, NoElement);
      Some((LinkOf(vs), c))
  }

  /// The 12 bytes one link takes in a router-LSA (appendix A.4.2 of RFC 2328,
  /// without TOS entries).
  function LinkWire(k: RouterLink): seq<Byte>
  {
    UintBytes(k.linkId, 4) + (UintBytes(k.linkData, 4) + (UintBytes(k.linkType, 1)
      + (UintBytes(k.tos, 1) + UintBytes(k.metric, 2))))
  }

  lemma LinkBytes(k: RouterLink)
    ensures LinkToBytes(k) == LinkWire(k)
    ensures |LinkToBytes(k)| == 12
  {
    LinkByteFields();
    LinkValuesFit(k);
    ByteLayoutEncodes(LinkLayout(), LinkValues(k), NoBytes);
    LinkWireOf(LinkLayout(), LinkValues(k), k);
  }

  lemma LinkWireOf(l: seq<Field>, vs: seq<Value<()>>, k: RouterLink)
    requires |l| == 5 && l[0].kind == Data(32) && l[1].kind == Data(32) && l[2].kind == Data(8)
      && l[3].kind == Data(8) && l[4].kind == Data(16)
    requires vs == [Num(k.linkId), Num(k.linkData), Num(k.linkType), Num(k.tos), Num(k.metric)]
    ensures ByteWire(l, vs, NoBytes, 0) == LinkWire(k)
  {
    assert ByteWire(l, vs, NoBytes, 5) == [];
    ByteWireData(l, vs, NoBytes, 4, 16, k.metric);
    ByteWireData(l, vs, NoBytes, 3, 8, k.tos);
    ByteWireData(l, vs, NoBytes, 2, 8, k.linkType);
    ByteWireData(l, vs, NoBytes, 1, 32, k.linkData);
    ByteWireData(l, vs, NoBytes, 0, 32, k.linkId);
  }

  lemma LinkRoundTrip(k: RouterLink, rest: seq<Byte>)
    ensures LinkFromBuf(LinkToBytes(k) + rest) == Some((k, 12))
  {
    LinkByteFields();
    ByteLayout(LinkLayout());
    LinkValuesFit(k);
    LinkBytes(k);
    FromBufToBytes(LinkLayout(), LinkValues(k), NoBytes, NoElement, rest);
  }

  /// The link codec is a valid element codec for `Vec<RouterLSALink>`.
  lemma LinksRoundTrip(xs: seq<RouterLink>)
    ensures ElemRoundTrip(LinkToBytes, LinkFromBuf, xs)
  {
    forall x | x in xs
      ensures |LinkToBytes(x)| > 0
    {
      LinkBytes(x);
    }
    forall x: RouterLink, b: seq<Byte> | x in xs && |LinkToBytes(x)| <= |b| && b[..|LinkToBytes(x)|] == LinkToBytes(x)
      ensures LinkFromBuf(b).Some? && LinkFromBuf(b).value.0 == x && LinkFromBuf(b).value.1 == |LinkToBytes(x)|
    {
      LinkBytes(x);
      SplitAt(b, 12);
      LinkRoundTrip(x, b[12..]);
    }
  }

  lemma {:induction false} LinksLength(xs: seq<RouterLink>)
    ensures |Concat(LinkToBytes, xs)| == 12 * |xs|
  {
    if xs != [] {
      LinkBytes(xs[0]);
      LinksLength(xs[1..]);
    }
  }

  // ---------------------------------------------------------------------------
  // `RouterLSA`

  /// A router-LSA body: `num_links` sizes the link vector on decoding; on encoding
  /// both are written as they are.
  datatype RouterLsa = RouterLsa(flags: U16, numLinks: U16, links: seq<RouterLink>)

  function RouterScalars(): seq<Field>
  {
    [Field("flags", Data(16)), Field("num_links", Data(16))]
  }

  function RouterLinks(): Field
  {
    Field("links", VecOf("RouterLSALink", "num_links"))
  }

  function RouterLayout(): seq<Field>
  {
    RouterScalars() + [RouterLinks()]
  }

  lemma RouterWellFormed()
    ensures WholeBytes(RouterLayout()) && WellFormedLayout(RouterLayout()) && !HasUnsized(RouterLayout())
  {
    ByteLayoutThenVector(RouterScalars(), RouterLinks());
  }

  function RouterValues(r: RouterLsa): seq<Value<RouterLink>>
  {
    [Num(r.flags), Num(r.numLinks), Items(r.links)]
  }

  lemma RouterValuesFit(r: RouterLsa)
    ensures Fits(RouterLayout(), RouterValues(r))
  {
    Pow2Widths();
  }

  function RouterOf(vs: seq<Value<RouterLink>>): RouterLsa
    requires Fits(RouterLayout(), vs)
  {
    Pow2Widths();
    RouterLsa(vs[0].n, vs[1].n, vs[2].xs)
  }

  /// The derived `RouterLSA::to_bytes`.
  function RouterToBytes(r: RouterLsa): seq<Byte>
  {
    RouterWellFormed();
    RouterValuesFit(r);
    EncodeAligned(RouterLayout(), RouterValues(r), LinkToBytes);
    ToBytesMut(RouterLayout(), RouterValues(r), LinkToBytes).value
  }

  /// The derived `RouterLSA::from_buf`: `num_links` links after the two scalars.
  function RouterFromBuf(b: seq<Byte>): (r: Option<(RouterLsa, nat)>)
    ensures r.Some? ==> r.value.1 <= |b|
  {
    match FromBuf(RouterLayout(), b, LinkFromBuf)
    case None => None
    case Some((vs, c)) =>
      FromBufFits(RouterLayout(), b, LinkFromBuf);
      Some((RouterOf(vs), c))
  }

  /// Appendix A.4.2 of RFC 2328 as this codec lays it out: flags, the link count,
  /// then the links back to back.
  function RouterWire(r: RouterLsa): seq<Byte>
  {
    UintBytes(r.flags, 2) + (UintBytes(r.numLinks, 2) + Concat(LinkToBytes, r.links))
  }

  lemma RouterBytes(r: RouterLsa)
    ensures RouterToBytes(r) == RouterWire(r)
    ensures |RouterToBytes(r)| == 4 + 12 * |r.links|
  {
    RouterWellFormed();
    RouterValuesFit(r);
    ByteLayoutEncodes(RouterLayout(), RouterValues(r), LinkToBytes);
    RouterWireOf(RouterLayout(), RouterValues(r), r);
    LinksLength(r.links);
  }

  lemma RouterWireOf(l: seq<Field>, vs: seq<Value<RouterLink>>, r: RouterLsa)
    requires |l| == 3 && l[0].kind == Data(16) && l[1].kind == Data(16) && l[2].kind == RouterLinks().kind
    requires vs == [Num(r.flags), Num(r.numLinks), Items(r.links)]
    ensures ByteWire(l, vs, LinkToBytes, 0) == RouterWire(r)
  {
    assert ByteWire(l, vs, LinkToBytes, 3) == [];
    ByteWireStep(l, vs, LinkToBytes, 2, RouterLinks().kind, Items(r.links));
    ByteWireData(l, vs, LinkToBytes, 1, 16, r.numLinks);
    ByteWireData(l, vs, LinkToBytes, 0, 16, r.flags);
  }

  /// `num_links` sizes the link vector.
  lemma RouterSizes(r: RouterLsa)
    requires r.numLinks == |r.links|
    ensures SizesAgree(RouterLayout(), RouterValues(r))
    ensures ElemsRoundTrip(RouterLayout(), RouterValues(r), LinkToBytes, LinkFromBuf)
  {
    assert SizeOf(RouterLayout(), RouterValues(r), "num_links") == Some(r.numLinks);
    LinksRoundTrip(r.links);
  }

  /// When `num_links` counts the links, decoding undoes encoding whatever follows.
  lemma RouterRoundTrip(r: RouterLsa, rest: seq<Byte>)
    requires r.numLinks == |r.links|
    ensures RouterFromBuf(RouterToBytes(r) + rest) == Some((r, |RouterToBytes(r)|))
  {
    RouterWellFormed();
    RouterValuesFit(r);
    RouterSizes(r);
    FromBufToBytes(RouterLayout(), RouterValues(r), LinkToBytes, LinkFromBuf, rest);
  }

  // ---------------------------------------------------------------------------
  // `NetworkLSA`

  /// A network-LSA body: the attached routers fill the rest of the buffer.
  datatype NetworkLsa = NetworkLsa(networkMask: U32, attachedRouters: seq<U32>)

  function NetworkScalars(): seq<Field>
  {
    [Field("network_mask", Data(32))]
  }

  function NetworkRouters(): Field
  {
    Field("attached_routers", VecOf("u32", ""))
  }

  function NetworkLayout(): seq<Field>
  {
    NetworkScalars() + [NetworkRouters()]
  }

  lemma NetworkWellFormed()
    ensures WholeBytes(NetworkLayout()) && WellFormedLayout(NetworkLayout()) && HasUnsized(NetworkLayout())
  {
    ByteLayoutThenVector(NetworkScalars(), NetworkRouters());
  }

  function NetworkValues(n: NetworkLsa): seq<Value<U32>>
  {
    [Num(n.networkMask), Items(n.attachedRouters)]
  }

  lemma NetworkValuesFit(n: NetworkLsa)
    ensures Fits(NetworkLayout(), NetworkValues(n))
  {
    Pow2Widths();
  }

  function NetworkOf(vs: seq<Value<U32>>): NetworkLsa
    requires Fits(NetworkLayout(), vs)
  {
    Pow2Widths();
    NetworkLsa(vs[0].n, vs[1].xs)
  }

  /// The derived `NetworkLSA::to_bytes`.
  function NetworkToBytes(n: NetworkLsa): seq<Byte>
  {
    NetworkWellFormed();
    NetworkValuesFit(n);
    EncodeAligned(NetworkLayout(), NetworkValues(n), U32Bytes);
    ToBytesMut(NetworkLayout(), NetworkValues(n), U32Bytes).value
  }

  /// The derived `NetworkLSA::from_buf`: the mask, then routers until the buffer is empty.
  function NetworkFromBuf(b: seq<Byte>): (r: Option<(NetworkLsa, nat)>)
    ensures r.Some? ==> r.value.1 <= |b|
  {
    match FromBuf(NetworkLayout(), b, U32FromBuf)
    case None => None
    case Some((vs, c)) =>
      FromBufFits(NetworkLayout(), b, U32FromBuf);
      Some((NetworkOf(vs), c))
  }

  /// Appendix A.4.3 of RFC 2328: the mask, then one 4-byte router ID per attached router.
  function NetworkWire(n: NetworkLsa): seq<Byte>
  {
    UintBytes(n.networkMask, 4) + Concat(U32Bytes, n.attachedRouters)
  }

  lemma NetworkBytes(n: NetworkLsa)
    ensures NetworkToBytes(n) == NetworkWire(n)
    ensures |NetworkToBytes(n)| == 4 + 4 * |n.attachedRouters|
  {
    NetworkWellFormed();
    NetworkValuesFit(n);
    ByteLayoutEncodes(NetworkLayout(), NetworkValues(n), U32Bytes);
    NetworkWireOf(NetworkLayout(), NetworkValues(n), n);
    U32sLength(n.attachedRouters);
  }

  lemma NetworkWireOf(l: seq<Field>, vs: seq<Value<U32>>, n: NetworkLsa)
    requires |l| == 2 && l[0].kind == Data(32) && l[1].kind == NetworkRouters().kind
    requires vs == [Num(n.networkMask), Items(n.attachedRouters)]
    ensures ByteWire(l, vs, U32Bytes, 0) == NetworkWire(n)
  {
    assert ByteWire(l, vs, U32Bytes, 2) == [];
    ByteWireStep(l, vs, U32Bytes, 1, NetworkRouters().kind, Items(n.attachedRouters));
    ByteWireData(l, vs, U32Bytes, 0, 32, n.networkMask);
  }

  /// The `u32` codec is a valid element codec for `Vec<u32>`.
  lemma U32sRoundTrip(xs: seq<U32>)
    ensures ElemRoundTrip(U32Bytes, U32FromBuf, xs)
  {
    forall x: U32, b: seq<Byte> | x in xs && |U32Bytes(x)| <= |b| && b[..|U32Bytes(x)|] == U32Bytes(x)
      ensures U32FromBuf(b).Some? && U32FromBuf(b).value.0 == x && U32FromBuf(b).value.1 == |U32Bytes(x)|
    {
      SplitAt(b, 4);
      U32RoundTrip(x, b[4..]);
    }
  }

  lemma {:induction false} U32sLength(xs: seq<U32>)
    ensures |Concat(U32Bytes, xs)| == 4 * |xs|
  {
    if xs != [] {
      U32sLength(xs[1..]);
    }
  }

  /// Decoding undoes encoding; the router list reads to the end of the buffer, so
  /// nothing may follow.
  lemma NetworkRoundTrip(n: NetworkLsa)
    ensures NetworkFromBuf(NetworkToBytes(n)) == Some((n, |NetworkToBytes(n)|))
  {
    NetworkWellFormed();
    NetworkValuesFit(n);
    U32sRoundTrip(n.attachedRouters);
    assert NetworkToBytes(n) + [] == NetworkToBytes(n);
    FromBufToBytes(NetworkLayout(), NetworkValues(n), U32Bytes, U32FromBuf, []);
  }

  // ---------------------------------------------------------------------------
  // `SummaryLSA`

  /// A summary-LSA body (types 3 and 4). `metric` and `tos_metric` are `u24be`, a
  /// `u32` of which the 24-bit writer keeps the low bits.
  datatype SummaryLsa = SummaryLsa(networkMask: U32, metric: U32, tos: Byte, tosMetric: U32)

  const Metric24: nat := 0x100_0000

  function SummaryLayout(): seq<Field>
  {
    [Field("network_mask", Data(32)), Field("_zeros", Zero(8)), Field("metric", Data(24)),
     Field("tos", Data(8)), Field("tos_metric", Data(24))]
  }

  lemma SummaryByteFields()
    ensures WholeBytes(SummaryLayout()) && NoVecs(SummaryLayout())
  {
  }

  // How `get_field_tuples` classifies the field types of the LSA bodies.

  lemma ClassifyU8(f: FieldDecl)
    requires f.ty == "u8" && f.isPub
    ensures Classify(f) == Some(Data(8))
  {
    assert "u8" == ['u'] + "8";
    assert DecimalValue("8") == 8 by { assert "8"[..0] == ""; }
    ClassifyInteger(f.name, 'u', "8", f.sizeAttr);
  }

  lemma ClassifyU32(f: FieldDecl)
    requires f.ty == "u32" && f.isPub
    ensures Classify(f) == Some(Data(32))
  {
    assert "u32" == ['u'] + "32";
    assert DecimalValue("32") == 32 by { assert "32"[..1] == "3"; assert "3"[..0] == ""; }
    ClassifyInteger(f.name, 'u', "32", f.sizeAttr);
  }

  lemma ClassifyU24(f: FieldDecl)
    requires f.ty == "u24be" && f.isPub
    ensures Classify(f) == Some(Data(24))
  {
    assert "u24be" == ['u'] + "24" + "be";
    assert DecimalValue("24") == 24 by { assert "24"[..1] == "2"; assert "2"[..0] == ""; }
    ClassifySuffixed(f.name, 'u', "24", "be", f.sizeAttr);
  }

  lemma ClassifyU1(f: FieldDecl)
    requires f.ty == "u1" && f.isPub
    ensures Classify(f) == Some(Data(1))
  {
    assert "u1" == ['u'] + "1";
    assert DecimalValue("1") == 1 by { assert "1"[..0] == ""; }
    ClassifyInteger(f.name, 'u', "1", f.sizeAttr);
  }

  lemma ClassifyU7Padding(f: FieldDecl)
    requires f.ty == "PhantomData < u7 >" && f.isPub
    ensures Classify(f) == Some(Zero(7))
  {
    assert "PhantomData < u7 >" == "PhantomData < " + ['u'] + "7" + " >";
    assert DecimalValue("7") == 7 by { assert "7"[..0] == ""; }
    ClassifyPadding(f.name, 'u', "7", f.sizeAttr);
  }

  lemma ClassifyU8Padding(f: FieldDecl)
    requires f.ty == "PhantomData < u8 >" && f.isPub
    ensures Classify(f) == Some(Zero(8))
  {
    assert "PhantomData < u8 >" == "PhantomData < " + ['u'] + "8" + " >";
    assert DecimalValue("8") == 8 by { assert "8"[..0] == ""; }
    ClassifyPadding(f.name, 'u', "8", f.sizeAttr);
  }

  /// The fields of `SummaryLSA` as declared, as the token printer renders their types; the
  /// padding field is public as `padPub` says. The declaration leaves `pub` off it.
  function SummaryDecls(padPub: bool): seq<FieldDecl>
  {
    [FieldDecl("network_mask", "u32", true, ""), FieldDecl("_zeros", "PhantomData < u8 >", padPub, ""),
     FieldDecl("metric", "u24be", true, ""), FieldDecl("tos", "u8", true, ""),
     FieldDecl("tos_metric", "u24be", true, "")]
  }

  /// As declared, with the padding field private, `get_field_tuples` panics on `SummaryLSA`.
  lemma SummaryPrivatePadPanics()
    ensures FieldTuples(true, SummaryDecls(false)) == None
  {
    var d := SummaryDecls(false);
    ClassifyPrivate(d[1].name, d[1].ty, d[1].sizeAttr);
    TuplesRejected(d[..1], d[1], d[2..]);
    assert d[..1] + [d[1]] + d[2..] == d;
  }

  /// With the padding field public, the declaration gives exactly `SummaryLayout`.
  lemma SummaryPublicPadLayout()
    ensures FieldTuples(true, SummaryDecls(true)) == Some(SummaryLayout())
  {
    var d := SummaryDecls(true);
    ClassifyU32(d[0]);
    ClassifyU8Padding(d[1]);
    ClassifyU24(d[2]);
    ClassifyU8(d[3]);
    ClassifyU24(d[4]);
    FiveFields(d[0], d[1], d[2], d[3], d[4], Data(32), Zero(8), Data(24), Data(8), Data(24));
  }

  /// Five fields the macro classifies one by one are accepted together.
  lemma FiveFields(d0: FieldDecl, d1: FieldDecl, d2: FieldDecl, d3: FieldDecl, d4: FieldDecl,
                   k0: FieldKind, k1: FieldKind, k2: FieldKind, k3: FieldKind, k4: FieldKind)
    requires Classify(d0) == Some(k0) && Classify(d1) == Some(k1) && Classify(d2) == Some(k2)
    requires Classify(d3) == Some(k3) && Classify(d4) == Some(k4)
    ensures FieldTuples(true, [d0, d1, d2, d3, d4])
      == Some([Field(d0.name, k0), Field(d1.name, k1), Field(d2.name, k2), Field(d3.name, k3), Field(d4.name, k4)])
  {
    var r: seq<FieldDecl>, m: seq<Field> := [], [];
    TuplesCons(d4, k4, r, m);
    r, m := [d4] + r, [Field(d4.name, k4)] + m;
    TuplesCons(d3, k3, r, m);
    r, m := [d3] + r, [Field(d3.name, k3)] + m;
    TuplesCons(d2, k2, r, m);
    r, m := [d2] + r, [Field(d2.name, k2)] + m;
    TuplesCons(d1, k1, r, m);
    r, m := [d1] + r, [Field(d1.name, k1)] + m;
    TuplesCons(d0, k0, r, m);
    r, m := [d0] + r, [Field(d0.name, k0)] + m;
    assert r == [d0, d1, d2, d3, d4];
    assert m == [Field(d0.name, k0), Field(d1.name, k1), Field(d2.name, k2), Field(d3.name, k3), Field(d4.name, k4)];
  }

  /// The field values the encoder writes: the 24-bit fields modulo 2^24
  /// (`Bits.BitsOfLow`).
  function SummaryValues(s: SummaryLsa): seq<Value<()>>
  {
    [Num(s.networkMask), Pad, Num(s.metric % Metric24), Num(s.tos), Num(s.tosMetric % Metric24)]
  }

  lemma SummaryValuesFit(s: SummaryLsa)
    ensures Fits(SummaryLayout(), SummaryValues(s))
  {
    Pow2Widths();
  }

  function SummaryOf(vs: seq<Value<()>>): SummaryLsa
    requires Fits(SummaryLayout(), vs)
  {
    Pow2Widths();
    SummaryLsa(vs[0].n, vs[2].n, vs[3].n, vs[4].n)
  }

  /// The derived `SummaryLSA::to_bytes`.
  function SummaryToBytes(s: SummaryLsa): seq<Byte>
  {
    SummaryByteFields();
    ByteLayout(SummaryLayout());
    SummaryValuesFit(s);
    EncodeAligned(SummaryLayout(), SummaryValues(s), NoBytes);
    ToBytesMut(SummaryLayout(), SummaryValues(s), NoBytes).value
  }

  /// The derived `SummaryLSA::from_buf`.
  function SummaryFromBuf(b: seq<Byte>): (r: Option<(SummaryLsa, nat)>)
    ensures r.Some? ==> r.value.1 <= |b|
  {
    match FromBuf(SummaryLayout(), b, NoElement)
    case None => None
    case Some((vs, c)) =>
      FromBufFits(SummaryLayout(), b, NoElement);
      Some((SummaryOf(vs), c))
  }

  /// Appendix A.4.4 of RFC 2328 with one TOS entry: mask, a zero byte, the 3-byte
  /// metric, the TOS and its 3-byte metric.
  function SummaryWire(s: SummaryLsa): seq<Byte>
  {
    UintBytes(s.networkMask, 4) + (UintBytes(0, 1) + (UintBytes(s.metric % Metric24, 3)
      + (UintBytes(s.tos, 1) + UintBytes(s.tosMetric % Metric24, 3))))
  }

  lemma SummaryBytes(s: SummaryLsa)
    ensures SummaryToBytes(s) == SummaryWire(s)
    ensures |SummaryToBytes(s)| == 12
  {
    SummaryByteFields();
    SummaryValuesFit(s);
    ByteLayoutEncodes(SummaryLayout(), SummaryValues(s), NoBytes);
    SummaryWireOf(SummaryLayout(), SummaryValues(s), s);
  }

  lemma SummaryWireOf(l: seq<Field>, vs: seq<Value<()>>, s: SummaryLsa)
    requires |l| == 5 && l[0].kind == Data(32) && l[1].kind == Zero(8) && l[2].kind == Data(24)
      && l[3].kind == Data(8) && l[4].kind == Data(24)
    requires vs == [Num(s.networkMask), Pad, Num(s.metric % Metric24), Num(s.tos), Num(s.tosMetric % Metric24)]
    ensures ByteWire(l, vs, NoBytes, 0) == SummaryWire(s)
  {
    SummaryFieldsWire(l, vs, s.networkMask, s.metric % Metric24, s.tos, s.tosMetric % Metric24);
  }

  lemma SummaryFieldsWire(l: seq<Field>, vs: seq<Value<()>>, mask: nat, m: nat, tos: nat, t: nat)
    requires |l| == 5 && l[0].kind == Data(32) && l[1].kind == Zero(8) && l[2].kind == Data(24)
      && l[3].kind == Data(8) && l[4].kind == Data(24)
    requires vs == [Num(mask), Pad, Num(m), Num(tos), Num(t)]
    ensures ByteWire(l, vs, NoBytes, 0)
      == UintBytes(mask, 4) + (UintBytes(0, 1) + (UintBytes(m, 3) + (UintBytes(tos, 1) + UintBytes(t, 3))))
  {
    SummaryFieldsTail(l, vs, mask, m, tos, t);
    ByteWireStep(l, vs, NoBytes, 1, Zero(8), Pad);
    ByteWireData(l, vs, NoBytes, 0, 32, mask);
  }

  lemma SummaryFieldsTail(l: seq<Field>, vs: seq<Value<()>>, mask: nat, m: nat, tos: nat, t: nat)
    requires |l| == 5 && l[2].kind == Data(24) && l[3].kind == Data(8) && l[4].kind == Data(24)
    requires vs == [Num(mask), Pad, Num(m), Num(tos), Num(t)]
    ensures ByteWire(l, vs, NoBytes, 2) == UintBytes(m, 3) + (UintBytes(tos, 1) + UintBytes(t, 3))
  {
    assert ByteWire(l, vs, NoBytes, 5) == [];
    ByteWireData(l, vs, NoBytes, 4, 24, t);
    ByteWireData(l, vs, NoBytes, 3, 8, tos);
    ByteWireData(l, vs, NoBytes, 2, 24, m);
  }

  /// Decoding undoes encoding for metrics that fit in 24 bits; larger ones come back
  /// truncated to their low 24 bits.
  lemma SummaryRoundTrip(s: SummaryLsa, rest: seq<Byte>)
    ensures SummaryFromBuf(SummaryToBytes(s) + rest)
      == Some((SummaryLsa(s.networkMask, s.metric % Metric24, s.tos, s.tosMetric % Metric24), 12))
  {
    SummaryByteFields();
    ByteLayout(SummaryLayout());
    SummaryValuesFit(s);
    SummaryBytes(s);
    FromBufToBytes(SummaryLayout(), SummaryValues(s), NoBytes, NoElement, rest);
  }

  // ---------------------------------------------------------------------------
  // `AsExternalLSA`

  /// An AS-external-LSA body. `e` is a `u1` (a `u8` of which the 1-bit writer keeps
  /// the low bit) sharing its byte with seven padding bits; `metric` is a `u24be`.
  datatype AsExternalLsa = AsExternalLsa(networkMask: U32, e: Byte, metric: U32, forwardingAddress: U32,
                                         externalRouterTag: U32)

  /// The mask, then `e` and the padding that complete the fifth byte.
  function ExternalHead(): seq<Field>
  {
    [Field("network_mask", Data(32)), Field("e", Data(1)), Field("_zeros", Zero(7))]
  }

  function ExternalTail(): seq<Field>
  {
    [Field("metric", Data(24)), Field("forwarding_address", Data(32)), Field("external_router_tag", Data(32))]
  }

  function ExternalLayout(): seq<Field>
  {
    ExternalHead() + ExternalTail()
  }

  lemma ExternalWellFormed()
    ensures WellFormedLayout(ExternalLayout()) && !HasUnsized(ExternalLayout())
  {
    assert AlignedFrom(ExternalHead(), 0);
    AlignedThenBytes(ExternalHead(), ExternalTail(), 0);
    assert NoVecs(ExternalLayout());
    ScalarLayout(ExternalLayout());
  }

  /// The fields of `AsExternalLSA` as declared, as the token printer renders their types; the
  /// padding field is public as `padPub` says. The declaration leaves `pub` off it.
  function ExternalDecls(padPub: bool): seq<FieldDecl>
  {
    [FieldDecl("network_mask", "u32", true, ""), FieldDecl("e", "u1", true, ""),
     FieldDecl("_zeros", "PhantomData < u7 >", padPub, ""), FieldDecl("metric", "u24be", true, ""),
     FieldDecl("forwarding_address", "u32", true, ""), FieldDecl("external_router_tag", "u32", true, "")]
  }

  /// As declared, with the padding field private, `get_field_tuples` panics on `AsExternalLSA`.
  lemma ExternalPrivatePadPanics()
    ensures FieldTuples(true, ExternalDecls(false)) == None
  {
    var d := ExternalDecls(false);
    ClassifyPrivate(d[2].name, d[2].ty, d[2].sizeAttr);
    TuplesRejected(d[..2], d[2], d[3..]);
    assert d[..2] + [d[2]] + d[3..] == d;
  }

  /// With the padding field public, the declaration gives exactly `ExternalLayout`.
  lemma ExternalPublicPadLayout()
    ensures FieldTuples(true, ExternalDecls(true)) == Some(ExternalLayout())
  {
    var d := ExternalDecls(true);
    ClassifyU32(d[0]);
    ClassifyU1(d[1]);
    ClassifyU7Padding(d[2]);
    ClassifyU24(d[3]);
    ClassifyU32(d[4]);
    ClassifyU32(d[5]);
    SixFields(d[0], d[1], d[2], d[3], d[4], d[5], Data(32), Data(1), Zero(7), Data(24), Data(32), Data(32));
    assert [d[0], d[1], d[2], d[3], d[4], d[5]] == d;
    var l := [Field(d[0].name, Data(32)), Field(d[1].name, Data(1)), Field(d[2].name, Zero(7)),
              Field(d[3].name, Data(24)), Field(d[4].name, Data(32)), Field(d[5].name, Data(32))];
    assert l[..3] == ExternalHead();
    assert l[3..] == ExternalTail();
    assert l == l[..3] + l[3..];
  }

  /// Six fields the macro classifies one by one are accepted together.
  lemma SixFields(d0: FieldDecl, d1: FieldDecl, d2: FieldDecl, d3: FieldDecl, d4: FieldDecl, d5: FieldDecl,
                  k0: FieldKind, k1: FieldKind, k2: FieldKind, k3: FieldKind, k4: FieldKind, k5: FieldKind)
    requires Classify(d0) == Some(k0) && Classify(d1) == Some(k1) && Classify(d2) == Some(k2)
    requires Classify(d3) == Some(k3) && Classify(d4) == Some(k4) && Classify(d5) == Some(k5)
    ensures FieldTuples(true, [d0, d1, d2, d3, d4, d5])
      == Some([Field(d0.name, k0), Field(d1.name, k1), Field(d2.name, k2), Field(d3.name, k3), Field(d4.name, k4),
               Field(d5.name, k5)])
  {
    FiveFields(d1, d2, d3, d4, d5, k1, k2, k3, k4, k5);
    var r := [d1, d2, d3, d4, d5];
    var m := [Field(d1.name, k1), Field(d2.name, k2), Field(d3.name, k3), Field(d4.name, k4), Field(d5.name, k5)];
    TuplesCons(d0, k0, r, m);
    assert [d0] + r == [d0, d1, d2, d3, d4, d5];
    assert [Field(d0.name, k0)] + m
      == [Field(d0.name, k0), Field(d1.name, k1), Field(d2.name, k2), Field(d3.name, k3), Field(d4.name, k4),
          Field(d5.name, k5)];
  }

  function ExternalHeadValues(x: AsExternalLsa): seq<Value<()>>
  {
    [Num(x.networkMask), Num(x.e % 2), Pad]
  }

  function ExternalTailValues(x: AsExternalLsa): seq<Value<()>>
  {
    [Num(x.metric % Metric24), Num(x.forwardingAddress), Num(x.externalRouterTag)]
  }

  /// The field values the encoder writes: `e` modulo 2 and `metric` modulo 2^24.
  function ExternalValues(x: AsExternalLsa): seq<Value<()>>
  {
    ExternalHeadValues(x) + ExternalTailValues(x)
  }

  lemma ExternalValuesFit(x: AsExternalLsa)
    ensures Fits(ExternalLayout(), ExternalValues(x))
  {
    Pow2Widths();
  }

  function ExternalOf(vs: seq<Value<()>>): AsExternalLsa
    requires Fits(ExternalLayout(), vs)
  {
    Pow2Widths();
    AsExternalLsa(vs[0].n, vs[1].n, vs[3].n, vs[4].n, vs[5].n)
  }

  /// The derived `AsExternalLSA::to_bytes`.
  function ExternalToBytes(x: AsExternalLsa): seq<Byte>
  {
    ExternalWellFormed();
    ExternalValuesFit(x);
    EncodeAligned(ExternalLayout(), ExternalValues(x), NoBytes);
    ToBytesMut(ExternalLayout(), ExternalValues(x), NoBytes).value
  }

  /// The derived `AsExternalLSA::from_buf`.
  function ExternalFromBuf(b: seq<Byte>): (r: Option<(AsExternalLsa, nat)>)
    ensures r.Some? ==> r.value.1 <= |b|
  {
    match FromBuf(ExternalLayout(), b, NoElement)
    case None => None
    case Some((vs, c)) =>
      FromBufFits(ExternalLayout(), b, NoElement);
      Some((ExternalOf(vs), c))
  }

  /// Appendix A.4.5 of RFC 2328 with the TOS-0 entry only: the mask, a byte whose top
  /// bit is E, the 3-byte metric, the forwarding address and the route tag.
  function ExternalWire(x: AsExternalLsa): seq<Byte>
  {
    UintBytes(x.networkMask, 4) + (UintBytes((x.e % 2) * 128, 1) + (UintBytes(x.metric % Metric24, 3)
      + (UintBytes(x.forwardingAddress, 4) + UintBytes(x.externalRouterTag, 4))))
  }

  /// The same bits read as whole bytes: `e` and the padding form one byte.
  function ExternalByteLayout(): seq<Field>
  {
    [Field("network_mask", Data(32)), Field("e_zeros", Data(8))] + ExternalTail()
  }

  function ExternalByteHead(x: AsExternalLsa): seq<Value<()>>
  {
    [Num(x.networkMask), Num((x.e % 2) * 128)]
  }

  lemma ExternalByteFields(x: AsExternalLsa)
    ensures WholeBytes(ExternalByteLayout())
    ensures Fits(ExternalByteLayout(), ExternalByteHead(x) + ExternalTailValues(x))
  {
    Pow2Widths();
  }

  /// A one-bit flag followed by seven zero bits is the flag times 128 in one byte.
  lemma FlagByte(e: nat)
    requires e < 2
    ensures BitsOf(e * 128, 8) == BitsOf(e, 1) + BitsOf(0, 7)
  {
    BitsOfSplit(e * 128, 1, 7);
    if e == 0 {
      assert Shr(0, 7) == 0;
    } else {
      assert Shr(128, 7) == 1;
    }
    Pow2Widths();
    BitsOfAddHigh(e, 0, 7);
  }

  lemma ExternalSameBits(x: AsExternalLsa)
    ensures AllBits(ExternalLayout(), ExternalValues(x), NoBytes)
      == AllBits(ExternalByteLayout(), ExternalByteHead(x) + ExternalTailValues(x), NoBytes)
  {
    var bh := [Field("network_mask", Data(32)), Field("e_zeros", Data(8))];
    assert ExternalLayout() == ExternalHead() + ExternalTail();
    assert ExternalValues(x) == ExternalHeadValues(x) + ExternalTailValues(x);
    AllBitsAppend(ExternalHead(), ExternalHeadValues(x), ExternalTail(), ExternalTailValues(x), NoBytes);
    AllBitsAppend(bh, ExternalByteHead(x), ExternalTail(), ExternalTailValues(x), NoBytes);
    FlagByte(x.e % 2);
    HeadBits(ExternalHead(), ExternalHeadValues(x), x.networkMask, x.e % 2);
    ByteHeadBits(bh, ExternalByteHead(x), x.networkMask, (x.e % 2) * 128);
  }

  lemma ByteHeadBits(l: seq<Field>, vs: seq<Value<()>>, mask: nat, f: nat)
    requires |l| == 2 && l[0].kind == Data(32) && l[1].kind == Data(8)
    requires vs == [Num(mask), Num(f)]
    ensures AllBits(l, vs, NoBytes) == BitsOf(mask, 32) + (BitsOf(f, 8) + [])
  {
    assert AllBits(l[2..], vs[2..], NoBytes) == [];
    assert AllBits(l[1..], vs[1..], NoBytes) == BitsOf(f, 8) + AllBits(l[2..], vs[2..], NoBytes);
  }

  lemma HeadBits(l: seq<Field>, vs: seq<Value<()>>, mask: nat, e: nat)
    requires |l| == 3 && l[0].kind == Data(32) && l[1].kind == Data(1) && l[2].kind == Zero(7)
    requires vs == [Num(mask), Num(e), Pad]
    ensures AllBits(l, vs, NoBytes) == BitsOf(mask, 32) + (BitsOf(e, 1) + BitsOf(0, 7))
  {
    assert AllBits(l[3..], vs[3..], NoBytes) == [];
    assert AllBits(l[2..], vs[2..], NoBytes) == BitsOf(0, 7) + AllBits(l[3..], vs[3..], NoBytes);
    assert AllBits(l[1..], vs[1..], NoBytes) == BitsOf(e, 1) + AllBits(l[2..], vs[2..], NoBytes);
  }

  lemma ExternalBytes(x: AsExternalLsa)
    ensures ExternalToBytes(x) == ExternalWire(x)
    ensures |ExternalToBytes(x)| == 16
  {
    var bl := ExternalByteLayout();
    var bv := ExternalByteHead(x) + ExternalTailValues(x);
    ExternalWellFormed();
    ExternalValuesFit(x);
    EncodeAligned(ExternalLayout(), ExternalValues(x), NoBytes);
    ExternalByteFields(x);
    WholeBytesAligned(bl, 0);
    EncodeAligned(bl, bv, NoBytes);
    ByteLayoutEncodes(bl, bv, NoBytes);
    ExternalSameBits(x);
    BitsToBytesOfBytesToBits(ExternalToBytes(x));
    BitsToBytesOfBytesToBits(ByteWire(bl, bv, NoBytes, 0));
    ExternalFieldsWire(bl, bv, x.networkMask, (x.e % 2) * 128, x.metric % Metric24, x.forwardingAddress, x.externalRouterTag);
  }

  lemma ExternalFieldsWire(l: seq<Field>, vs: seq<Value<()>>, mask: nat, flags: nat, m: nat, fwd: nat, tag: nat)
    requires |l| == 5 && l[0].kind == Data(32) && l[1].kind == Data(8) && l[2].kind == Data(24)
      && l[3].kind == Data(32) && l[4].kind == Data(32)
    requires vs == [Num(mask), Num(flags), Num(m), Num(fwd), Num(tag)]
    ensures ByteWire(l, vs, NoBytes, 0)
      == UintBytes(mask, 4) + (UintBytes(flags, 1) + (UintBytes(m, 3) + (UintBytes(fwd, 4) + UintBytes(tag, 4))))
  {
    assert ByteWire(l, vs, NoBytes, 5) == [];
    ByteWireData(l, vs, NoBytes, 4, 32, tag);
    ByteWireData(l, vs, NoBytes, 3, 32, fwd);
    ByteWireData(l, vs, NoBytes, 2, 24, m);
    ByteWireData(l, vs, NoBytes, 1, 8, flags);
    ByteWireData(l, vs, NoBytes, 0, 32, mask);
  }

  /// Decoding undoes encoding up to the bits the writer keeps: `e` comes back modulo 2
  /// and the metric modulo 2^24.
  lemma ExternalRoundTrip(x: AsExternalLsa, rest: seq<Byte>)
    ensures ExternalFromBuf(ExternalToBytes(x) + rest)
      == Some((AsExternalLsa(x.networkMask, x.e % 2, x.metric % Metric24, x.forwardingAddress, x.externalRouterTag), 16))
  {
    ExternalWellFormed();
    ExternalValuesFit(x);
    ExternalBytes(x);
    FromBufToBytes(ExternalLayout(), ExternalValues(x), NoBytes, NoElement, rest);
    ExternalOfValues(x);
  }

  lemma ExternalOfValues(x: AsExternalLsa)
    ensures Fits(ExternalLayout(), ExternalValues(x))
    ensures ExternalOf(ExternalValues(x))
      == AsExternalLsa(x.networkMask, x.e % 2, x.metric % Metric24, x.forwardingAddress, x.externalRouterTag)
  {
    ExternalValuesFit(x);
    var vs := ExternalValues(x);
    assert vs[3] == Num(x.metric % Metric24) && vs[4] == Num(x.forwardingAddress) && vs[5] == Num(x.externalRouterTag);
  }

  // ---------------------------------------------------------------------------
  // `Lsa`: a header and the body its type selects

  datatype LsaData =
    | Router(router: RouterLsa)
    | Network(network: NetworkLsa)
    | SummaryIp(summary: SummaryLsa)
    | SummaryAsbr(summary: SummaryLsa)
    | AsExternal(external: AsExternalLsa)

  datatype Lsa = Lsa(header: LsaHeader, data: LsaData)

  /// The LS type code whose body each variant holds.
  function LsType(d: LsaData): (t: nat)
    ensures 1 <= t <= 5
  {
    match d
    case Router(_) => RouterLsaType
    case Network(_) => NetworkLsaType
    case SummaryIp(_) => SummaryIpLsaType
    case SummaryAsbr(_) => SummaryAsbrLsaType
    case AsExternal(_) => AsExternalLsaType
  }

  /// `LsaData::to_bytes_mut`: the body's own encoding.
  function DataToBytes(d: LsaData): seq<Byte>
  {
    match d
    case Router(r) => RouterToBytes(r)
    case Network(n) => NetworkToBytes(n)
    case SummaryIp(s) => SummaryToBytes(s)
    case SummaryAsbr(s) => SummaryToBytes(s)
    case AsExternal(x) => ExternalToBytes(x)
  }

  /// `Lsa::to_bytes_mut`: the header, then the body.
  function LsaToBytes(l: Lsa): (r: seq<Byte>)
    ensures |r| == HeaderSize + |DataToBytes(l.data)|
    ensures r[..HeaderSize] == HeaderWire(l.header)
  {
    HeaderBytes(l.header);
    HeaderToBytes(l.header) + DataToBytes(l.data)
  }

  /// The body decoder the `match` on `ls_type` picks; `None` for a type outside 1..5,
  /// where the source panics.
  function DataFromBuf(t: nat, b: seq<Byte>): (r: Option<(LsaData, nat)>)
    ensures r.Some? ==> LsType(r.value.0) == t && r.value.1 <= |b|
  {
    if t == RouterLsaType then
      var r := RouterFromBuf(b); if r.None? then None else Some((Router(r.value.0), r.value.1))
    else if t == NetworkLsaType then
      var r := NetworkFromBuf(b); if r.None? then None else Some((Network(r.value.0), r.value.1))
    else if t == SummaryIpLsaType then
      var r := SummaryFromBuf(b); if r.None? then None else Some((SummaryIp(r.value.0), r.value.1))
    else if t == SummaryAsbrLsaType then
      var r := SummaryFromBuf(b); if r.None? then None else Some((SummaryAsbr(r.value.0), r.value.1))
    else if t == AsExternalLsaType then
      var r := ExternalFromBuf(b); if r.None? then None else Some((AsExternal(r.value.0), r.value.1))
    else None
  }

  function Min(a: nat, b: nat): nat
  {
    if a <= b then a else b
  }

  /// `Lsa::from_buf`: the header, then the body from a view of the buffer limited to
  /// `length - 20` bytes. `None` where the source panics: a `length` below 20 (the
  /// subtraction underflows), an unknown LS type, or a body that leaves bytes of
  /// its view unread. The LSA takes the header and the whole view.
  function LsaFromBuf(b: seq<Byte>): (r: Option<(Lsa, nat)>)
    ensures r.Some? ==> HeaderFromBuf(b).Some? && r.value.0.header == HeaderFromBuf(b).value.0
    ensures r.Some? ==> HeaderSize <= r.value.0.header.length && LsType(r.value.0.data) == r.value.0.header.lsType
    ensures r.Some? ==> r.value.1 <= |b| && r.value.1 <= HeaderFromBuf(b).value.1 + r.value.0.header.length - HeaderSize
  {
    var hd := HeaderFromBuf(b);
    if hd.None? || hd.value.0.length < HeaderSize then None
    else
      var h, c := hd.value.0, hd.value.1;
      var body := b[c..][..Min(h.length - HeaderSize, |b| - c)];
      var dd := DataFromBuf(h.lsType, body);
      if dd.None? || dd.value.1 < |body| then None else Some((Lsa(h, dd.value.0), c + |body|))
  }

  /// The bodies the decoders give back unchanged: a link count that counts the links,
  /// and flags and metrics within their bit widths.
  predicate CanonicalBody(d: LsaData)
  {
    match d
    case Router(r) => r.numLinks == |r.links|
    case Network(_) => true
    case SummaryIp(s) => s.metric < Metric24 && s.tosMetric < Metric24
    case SummaryAsbr(s) => s.metric < Metric24 && s.tosMetric < Metric24
    case AsExternal(x) => x.e < 2 && x.metric < Metric24
  }

  /// An LSA whose header agrees with its body: the type selects the body and the
  /// length counts header and body.
  predicate Consistent(l: Lsa)
  {
    l.header.lsType == LsType(l.data) && l.header.length == HeaderSize + |DataToBytes(l.data)|
    && CanonicalBody(l.data)
  }

  lemma DataRoundTrip(d: LsaData)
    requires CanonicalBody(d)
    ensures DataFromBuf(LsType(d), DataToBytes(d)) == Some((d, |DataToBytes(d)|))
  {
    match d {
      case Router(r) => RouterDataRoundTrip(r);
      case Network(n) => NetworkDataRoundTrip(n);
      case SummaryIp(s) => SummaryDataRoundTrip(s);
      case SummaryAsbr(s) => SummaryDataRoundTrip(s);
      case AsExternal(x) => ExternalDataRoundTrip(x);
    }
  }

  lemma RouterDataRoundTrip(r: RouterLsa)
    requires r.numLinks == |r.links|
    ensures DataFromBuf(RouterLsaType, RouterToBytes(r)) == Some((Router(r), |RouterToBytes(r)|))
  {
    assert RouterToBytes(r) + [] == RouterToBytes(r);
    RouterRoundTrip(r, []);
  }

  lemma NetworkDataRoundTrip(n: NetworkLsa)
    ensures DataFromBuf(NetworkLsaType, NetworkToBytes(n)) == Some((Network(n), |NetworkToBytes(n)|))
  {
    NetworkRoundTrip(n);
  }

  lemma SummaryDataRoundTrip(s: SummaryLsa)
    requires s.metric < Metric24 && s.tosMetric < Metric24
    ensures DataFromBuf(SummaryIpLsaType, SummaryToBytes(s)) == Some((SummaryIp(s), |SummaryToBytes(s)|))
    ensures DataFromBuf(SummaryAsbrLsaType, SummaryToBytes(s)) == Some((SummaryAsbr(s), |SummaryToBytes(s)|))
  {
    var e := SummaryToBytes(s);
    assert e + [] == e;
    SummaryKept(s);
    SummaryRoundTrip(s, []);
    SummaryBytes(s);
    SummaryBodies(e);
  }

  /// Metrics within 24 bits survive the writer unchanged.
  lemma SummaryKept(s: SummaryLsa)
    requires s.metric < Metric24 && s.tosMetric < Metric24
    ensures SummaryLsa(s.networkMask, s.metric % Metric24, s.tos, s.tosMetric % Metric24) == s
  {
  }

  lemma SummaryBodies(b: seq<Byte>)
    ensures SummaryFromBuf(b).Some? ==>
      DataFromBuf(SummaryIpLsaType, b) == Some((SummaryIp(SummaryFromBuf(b).value.0), SummaryFromBuf(b).value.1))
    ensures SummaryFromBuf(b).Some? ==>
      DataFromBuf(SummaryAsbrLsaType, b) == Some((SummaryAsbr(SummaryFromBuf(b).value.0), SummaryFromBuf(b).value.1))
  {
  }

  lemma ExternalDataRoundTrip(x: AsExternalLsa)
    requires x.e < 2 && x.metric < Metric24
    ensures DataFromBuf(AsExternalLsaType, ExternalToBytes(x)) == Some((AsExternal(x), |ExternalToBytes(x)|))
  {
    var e := ExternalToBytes(x);
    assert e + [] == e;
    ExternalKept(x);
    ExternalRoundTrip(x, []);
    ExternalBytes(x);
  }

  lemma ExternalKept(x: AsExternalLsa)
    requires x.e < 2 && x.metric < Metric24
    ensures AsExternalLsa(x.networkMask, x.e % 2, x.metric % Metric24, x.forwardingAddress, x.externalRouterTag) == x
  {
  }

  /// `Lsa::from_buf` undoes `Lsa::to_bytes` on a consistent LSA and takes exactly
  /// its bytes, whatever follows.
  lemma LsaRoundTrip(l: Lsa, rest: seq<Byte>)
    requires Consistent(l)
    ensures LsaFromBuf(LsaToBytes(l) + rest) == Some((l, |LsaToBytes(l)|))
  {
    var hb := HeaderToBytes(l.header);
    var db := DataToBytes(l.data);
    var b := LsaToBytes(l) + rest;
    AppendAssoc(hb, db, rest);
    HeaderRoundTrip(l.header, db + rest);
    HeaderBytes(l.header);
    assert b[HeaderSize..] == db + rest;
    assert b[HeaderSize..][..Min(l.header.length - HeaderSize, |b| - HeaderSize)] == db;
    DataRoundTrip(l.data);
  }

  /// The LSA codec is a valid element codec for `Vec<Lsa>` over consistent LSAs.
  lemma LsasRoundTrip(xs: seq<Lsa>)
    requires forall x :: x in xs ==> Consistent(x)
    ensures ElemRoundTrip(LsaToBytes, LsaFromBuf, xs)
  {
    forall x: Lsa, b: seq<Byte> | x in xs && |LsaToBytes(x)| <= |b| && b[..|LsaToBytes(x)|] == LsaToBytes(x)
      ensures LsaFromBuf(b).Some? && LsaFromBuf(b).value.0 == x && LsaFromBuf(b).value.1 == |LsaToBytes(x)|
    {
      SplitAt(b, |LsaToBytes(x)|);
      LsaRoundTrip(x, b[|LsaToBytes(x)|..]);
    }
  }

  /// The three panics of `Lsa::from_buf` as decoding failures.
  lemma LsaRejects(b: seq<Byte>)
    requires HeaderFromBuf(b).Some?
    ensures HeaderFromBuf(b).value.0.length < HeaderSize ==> LsaFromBuf(b) == None
    ensures !(1 <= HeaderFromBuf(b).value.0.lsType <= 5) ==> LsaFromBuf(b) == None
  {
    var r := LsaFromBuf(b);
    if r.Some? {
      assert 1 <= LsType(r.value.0.data) <= 5;
    }
  }
}
