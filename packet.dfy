/// The OSPF packet bodies of appendix A.3 of RFC 2328 as the `#[raw_packet]` codec
/// lays them out, and `AddressedPacket::from_payload`.
module Packet {
  import opened Common
  import opened Bits
  import opened Util
  import opened Decorator
  import opened DecoratorCodec
  import opened Lsa

  // `types`: the packet type codes.
  const HelloPacketType: nat := 1
  const DbDescriptionType: nat := 2
  const LsRequestType: nat := 3
  const LsUpdateType: nat := 4
  const LsAcknowledgeType: nat := 5

  // `options`: bits of the options byte.
  const OptionE: bv8 := 0x02
  const OptionMc: bv8 := 0x04
  const OptionNp: bv8 := 0x08
  const OptionEa: bv8 := 0x10
  const OptionDc: bv8 := 0x20

  // ---------------------------------------------------------------------------
  // `HelloPacket`

  datatype HelloPacket = HelloPacket(networkMask: U32, helloInterval: U16, options: Byte, routerPriority: Byte,
                                     routerDeadInterval: U32, designatedRouter: U32, backupDesignatedRouter: U32,
                                     neighbors: seq<U32>)

  function HelloScalars(): seq<Field>
  {
    [Field("network_mask", Data(32)), Field("hello_interval", Data(16)), Field("options", Data(8)),
     Field("router_priority", Data(8)), Field("router_dead_interval", Data(32)),
     Field("designated_router", Data(32)), Field("backup_designated_router", Data(32))]
  }

  function HelloNeighbors(): Field
  {
    Field("neighbors", VecOf("u32", ""))
  }

  function HelloLayout(): seq<Field>
  {
    HelloScalars() + [HelloNeighbors()]
  }

  lemma HelloWellFormed()
    ensures WholeBytes(HelloLayout()) && WellFormedLayout(HelloLayout()) && HasUnsized(HelloLayout())
  {
    ByteLayoutThenVector(HelloScalars(), HelloNeighbors());
  }

  function HelloValues(h: HelloPacket): seq<Value<U32>>
  {
    [Num(h.networkMask), Num(h.helloInterval), Num(h.options), Num(h.routerPriority), Num(h.routerDeadInterval),
     Num(h.designatedRouter), Num(h.backupDesignatedRouter), Items(h.neighbors)]
  }

  lemma HelloValuesFit(h: HelloPacket)
    ensures Fits(HelloLayout(), HelloValues(h))
  {
    Pow2Widths();
  }

  function HelloOf(vs: seq<Value<U32>>): HelloPacket
    requires Fits(HelloLayout(), vs)
  {
    Pow2Widths();
    HelloPacket(vs[0].n, vs[1].n, vs[2].n, vs[3].n, vs[4].n, vs[5].n, vs[6].n, vs[7].xs)
  }

  /// The derived `HelloPacket::to_bytes`.
  function HelloToBytes(h: HelloPacket): seq<Byte>
  {
    HelloWellFormed();
    HelloValuesFit(h);
    EncodeAligned(HelloLayout(), HelloValues(h), U32Bytes);
    ToBytesMut(HelloLayout(), HelloValues(h), U32Bytes).value
  }

  /// The derived `HelloPacket::from_buf`: the fixed part, then neighbours until the
  /// buffer is empty.
  function HelloFromBuf(b: seq<Byte>): (r: Option<(HelloPacket, nat)>)
    ensures r.Some? ==> r.value.1 <= |b|
  {
    var r := FromBuf(HelloLayout(), b, U32FromBuf);
    if r.None? then None
    else
      FromBufFits(HelloLayout(), b, U32FromBuf);
      Some((HelloOf(r.value.0), r.value.1))
  }

  /// Appendix A.3.2 of RFC 2328: a 20-byte fixed part, then one 4-byte router ID per
  /// neighbour.
  function HelloWire(h: HelloPacket): seq<Byte>
  {
    UintBytes(h.networkMask, 4) + (UintBytes(h.helloInterval, 2) + (UintBytes(h.options, 1)
      + (UintBytes(h.routerPriority, 1) + (UintBytes(h.routerDeadInterval, 4) + (UintBytes(h.designatedRouter, 4)
      + (UintBytes(h.backupDesignatedRouter, 4) + Concat(U32Bytes, h.neighbors)))))))
  }

  lemma HelloBytes(h: HelloPacket)
    ensures HelloToBytes(h) == HelloWire(h)
    ensures |HelloToBytes(h)| == 20 + 4 * |h.neighbors|
  {
    HelloWellFormed();
    HelloValuesFit(h);
    ByteLayoutEncodes(HelloLayout(), HelloValues(h), U32Bytes);
    HelloWireOf(HelloLayout(), HelloValues(h), h);
    U32sLength(h.neighbors);
  }

  lemma HelloWireOf(l: seq<Field>, vs: seq<Value<U32>>, h: HelloPacket)
    requires |l| == 8 && l[0].kind == Data(32) && l[1].kind == Data(16) && l[2].kind == Data(8)
      && l[3].kind == Data(8) && l[4].kind == Data(32) && l[5].kind == Data(32) && l[6].kind == Data(32)
      && l[7].kind == HelloNeighbors().kind
    requires vs == [Num(h.networkMask), Num(h.helloInterval), Num(h.options), Num(h.routerPriority),
                    Num(h.routerDeadInterval), Num(h.designatedRouter), Num(h.backupDesignatedRouter),
                    Items(h.neighbors)]
    ensures ByteWire(l, vs, U32Bytes, 0) == HelloWire(h)
  {
    HelloWireTail(l, vs, h);
    ByteWireData(l, vs, U32Bytes, 3, 8, h.routerPriority);
    ByteWireData(l, vs, U32Bytes, 2, 8, h.options);
    ByteWireData(l, vs, U32Bytes, 1, 16, h.helloInterval);
    ByteWireData(l, vs, U32Bytes, 0, 32, h.networkMask);
  }

  lemma HelloWireTail(l: seq<Field>, vs: seq<Value<U32>>, h: HelloPacket)
    requires |l| == 8 && l[4].kind == Data(32) && l[5].kind == Data(32) && l[6].kind == Data(32)
      && l[7].kind == HelloNeighbors().kind
    requires |vs| == 8 && vs[4] == Num(h.routerDeadInterval) && vs[5] == Num(h.designatedRouter)
      && vs[6] == Num(h.backupDesignatedRouter) && vs[7] == Items(h.neighbors)
    ensures ByteWire(l, vs, U32Bytes, 4) == UintBytes(h.routerDeadInterval, 4) + (UintBytes(h.designatedRouter, 4)
      + (UintBytes(h.backupDesignatedRouter, 4) + Concat(U32Bytes, h.neighbors)))
  {
    assert ByteWire(l, vs, U32Bytes, 8) == [];
    ByteWireStep(l, vs, U32Bytes, 7, HelloNeighbors().kind, Items(h.neighbors));
    ByteWireData(l, vs, U32Bytes, 6, 32, h.backupDesignatedRouter);
    ByteWireData(l, vs, U32Bytes, 5, 32, h.designatedRouter);
    ByteWireData(l, vs, U32Bytes, 4, 32, h.routerDeadInterval);
  }

  /// Decoding undoes encoding; the neighbour list reads to the end, so nothing may follow.
  lemma HelloRoundTrip(h: HelloPacket)
    ensures HelloFromBuf(HelloToBytes(h)) == Some((h, |HelloToBytes(h)|))
  {
    HelloWellFormed();
    HelloPremises(h);
    assert HelloToBytes(h) + [] == HelloToBytes(h);
    FromBufToBytes(HelloLayout(), HelloValues(h), U32Bytes, U32FromBuf, []);
    HelloFromBufOf(HelloToBytes(h), HelloValues(h), |HelloToBytes(h)|);
    HelloOfValues(h);
  }

  /// `from_buf` builds the packet from the field values the generic decoder reads.
  lemma HelloFromBufOf(b: seq<Byte>, vs: seq<Value<U32>>, n: nat)
    requires FromBuf(HelloLayout(), b, U32FromBuf) == Some((vs, n))
    ensures Fits(HelloLayout(), vs) && HelloFromBuf(b) == Some((HelloOf(vs), n))
  {
    FromBufFits(HelloLayout(), b, U32FromBuf);
  }

  lemma HelloOfValues(h: HelloPacket)
    ensures Fits(HelloLayout(), HelloValues(h)) && HelloOf(HelloValues(h)) == h
  {
    HelloValuesFit(h);
  }

  lemma HelloPremises(h: HelloPacket)
    ensures Fits(HelloLayout(), HelloValues(h)) && SizesAgree(HelloLayout(), HelloValues(h))
    ensures ElemsRoundTrip(HelloLayout(), HelloValues(h), U32Bytes, U32FromBuf)
  {
    HelloValuesFit(h);
    SizesAgreeUnsizedLast(HelloScalars(), HelloNeighbors(), HelloValues(h));
    HelloElems(h);
  }

  lemma HelloElems(h: HelloPacket)
    ensures ElemsRoundTrip(HelloLayout(), HelloValues(h), U32Bytes, U32FromBuf)
  {
    U32sRoundTrip(h.neighbors);
    ElemsOfLast(HelloLayout(), HelloValues(h), U32Bytes, U32FromBuf);
  }

  // ---------------------------------------------------------------------------
  // `DBDescription`

  datatype DbDescription = DbDescription(interfaceMtu: U16, options: Byte, dbDescription: Byte,
                                         dbSequenceNumber: U32, lsaHeaders: seq<LsaHeader>)

  function DdScalars(): seq<Field>
  {
    [Field("interface_mtu", Data(16)), Field("options", Data(8)), Field("db_description", Data(8)),
     Field("db_sequence_number", Data(32))]
  }

  function DdHeaders(): Field
  {
    Field("lsa_header", VecOf("LsaHeader", ""))
  }

  function DdLayout(): seq<Field>
  {
    DdScalars() + [DdHeaders()]
  }

  lemma DdWellFormed()
    ensures WholeBytes(DdLayout()) && WellFormedLayout(DdLayout()) && HasUnsized(DdLayout())
  {
    ByteLayoutThenVector(DdScalars(), DdHeaders());
  }

  function DdValues(d: DbDescription): seq<Value<LsaHeader>>
  {
    [Num(d.interfaceMtu), Num(d.options), Num(d.dbDescription), Num(d.dbSequenceNumber), Items(d.lsaHeaders)]
  }

  lemma DdValuesFit(d: DbDescription)
    ensures Fits(DdLayout(), DdValues(d))
  {
    Pow2Widths();
  }

  function DdOf(vs: seq<Value<LsaHeader>>): DbDescription
    requires Fits(DdLayout(), vs)
  {
    Pow2Widths();
    DbDescription(vs[0].n, vs[1].n, vs[2].n, vs[3].n, vs[4].xs)
  }

  /// The derived `DBDescription::to_bytes`.
  function DdToBytes(d: DbDescription): seq<Byte>
  {
    DdWellFormed();
    DdValuesFit(d);
    EncodeAligned(DdLayout(), DdValues(d), HeaderToBytes);
    ToBytesMut(DdLayout(), DdValues(d), HeaderToBytes).value
  }

  /// The derived `DBDescription::from_buf`: the fixed part, then LSA headers until the
  /// buffer is empty.
  function DdFromBuf(b: seq<Byte>): (r: Option<(DbDescription, nat)>)
    ensures r.Some? ==> r.value.1 <= |b|
  {
    var r := FromBuf(DdLayout(), b, HeaderFromBuf);
    if r.None? then None
    else
      FromBufFits(DdLayout(), b, HeaderFromBuf);
      Some((DdOf(r.value.0), r.value.1))
  }

  /// Appendix A.3.3 of RFC 2328: MTU, options, the I/M/MS byte, the sequence number,
  /// then 20-byte LSA headers.
  function DdWire(d: DbDescription): seq<Byte>
  {
    UintBytes(d.interfaceMtu, 2) + (UintBytes(d.options, 1) + (UintBytes(d.dbDescription, 1)
      + (UintBytes(d.dbSequenceNumber, 4) + Concat(HeaderToBytes, d.lsaHeaders))))
  }

  lemma DdBytes(d: DbDescription)
    ensures DdToBytes(d) == DdWire(d)
    ensures |DdToBytes(d)| == 8 + HeaderSize * |d.lsaHeaders|
  {
    DdWellFormed();
    DdValuesFit(d);
    ByteLayoutEncodes(DdLayout(), DdValues(d), HeaderToBytes);
    DdWireOf(DdLayout(), DdValues(d), d);
    HeadersLength(d.lsaHeaders);
  }

  lemma DdWireOf(l: seq<Field>, vs: seq<Value<LsaHeader>>, d: DbDescription)
    requires |l| == 5 && l[0].kind == Data(16) && l[1].kind == Data(8) && l[2].kind == Data(8)
      && l[3].kind == Data(32) && l[4].kind == DdHeaders().kind
    requires vs == [Num(d.interfaceMtu), Num(d.options), Num(d.dbDescription), Num(d.dbSequenceNumber),
                    Items(d.lsaHeaders)]
    ensures ByteWire(l, vs, HeaderToBytes, 0) == DdWire(d)
  {
    assert ByteWire(l, vs, HeaderToBytes, 5) == [];
    ByteWireStep(l, vs, HeaderToBytes, 4, DdHeaders().kind, Items(d.lsaHeaders));
    ByteWireData(l, vs, HeaderToBytes, 3, 32, d.dbSequenceNumber);
    ByteWireData(l, vs, HeaderToBytes, 2, 8, d.dbDescription);
    ByteWireData(l, vs, HeaderToBytes, 1, 8, d.options);
    ByteWireData(l, vs, HeaderToBytes, 0, 16, d.interfaceMtu);
  }

  lemma DdRoundTrip(d: DbDescription)
    ensures DdFromBuf(DdToBytes(d)) == Some((d, |DdToBytes(d)|))
  {
    DdWellFormed();
    DdPremises(d);
    assert DdToBytes(d) + [] == DdToBytes(d);
    FromBufToBytes(DdLayout(), DdValues(d), HeaderToBytes, HeaderFromBuf, []);
    DdFromBufOf(DdToBytes(d), DdValues(d), |DdToBytes(d)|);
    DdOfValues(d);
  }

  /// `from_buf` builds the packet from the field values the generic decoder reads.
  lemma DdFromBufOf(b: seq<Byte>, vs: seq<Value<LsaHeader>>, n: nat)
    requires FromBuf(DdLayout(), b, HeaderFromBuf) == Some((vs, n))
    ensures Fits(DdLayout(), vs) && DdFromBuf(b) == Some((DdOf(vs), n))
  {
    FromBufFits(DdLayout(), b, HeaderFromBuf);
  }

  lemma DdOfValues(d: DbDescription)
    ensures Fits(DdLayout(), DdValues(d)) && DdOf(DdValues(d)) == d
  {
    DdValuesFit(d);
  }

  lemma DdPremises(d: DbDescription)
    ensures Fits(DdLayout(), DdValues(d)) && SizesAgree(DdLayout(), DdValues(d))
    ensures ElemsRoundTrip(DdLayout(), DdValues(d), HeaderToBytes, HeaderFromBuf)
  {
    DdValuesFit(d);
    SizesAgreeUnsizedLast(DdScalars(), DdHeaders(), DdValues(d));
    DdElems(d);
  }

  lemma DdElems(d: DbDescription)
    ensures ElemsRoundTrip(DdLayout(), DdValues(d), HeaderToBytes, HeaderFromBuf)
  {
    HeadersRoundTrip(d.lsaHeaders);
    ElemsOfLast(DdLayout(), DdValues(d), HeaderToBytes, HeaderFromBuf);
  }

  // ---------------------------------------------------------------------------
  // `LSRequest`

  datatype LsRequest = LsRequest(lsType: U32, lsId: U32, advertisingRouter: U32)

  function LsrLayout(): seq<Field>
  {
    [Field("ls_type", Data(32)), Field("ls_id", Data(32)), Field("advertising_router", Data(32))]
  }

  lemma LsrByteFields()
    ensures WholeBytes(LsrLayout()) && NoVecs(LsrLayout())
  {
  }

  function LsrValues(q: LsRequest): seq<Value<()>>
  {
    [Num(q.lsType), Num(q.lsId), Num(q.advertisingRouter)]
  }

  lemma LsrValuesFit(q: LsRequest)
    ensures Fits(LsrLayout(), LsrValues(q))
  {
    Pow2Widths();
  }

  function LsrOf(vs: seq<Value<()>>): LsRequest
    requires Fits(LsrLayout(), vs)
  {
    Pow2Widths();
    LsRequest(vs[0].n, vs[1].n, vs[2].n)
  }

  /// The derived `LSRequest::to_bytes`.
  function LsrToBytes(q: LsRequest): seq<Byte>
  {
    LsrByteFields();
    ByteLayout(LsrLayout());
    LsrValuesFit(q);
    EncodeAligned(LsrLayout(), LsrValues(q), NoBytes);
    ToBytesMut(LsrLayout(), LsrValues(q), NoBytes).value
  }

  /// The derived `LSRequest::from_buf`.
  function LsrFromBuf(b: seq<Byte>): (r: Option<(LsRequest, nat)>)
    ensures r.Some? ==> r.value.1 <= |b|
  {
    var r := FromBuf(LsrLayout(), b, NoElement);
    if r.None? then None
    else
      FromBufFits(LsrLayout(), b, NoElement);
      Some((LsrOf(r.value.0), r.value.1))
  }

  /// One (type, ID, advertising router) entry of appendix A.3.4 of RFC 2328.
  function LsrWire(q: LsRequest): seq<Byte>
  {
    UintBytes(q.lsType, 4) + (UintBytes(q.lsId, 4) + UintBytes(q.advertisingRouter, 4))
  }

  lemma LsrBytes(q: LsRequest)
    ensures LsrToBytes(q) == LsrWire(q)
    ensures |LsrToBytes(q)| == 12
  {
    LsrByteFields();
    LsrValuesFit(q);
    ByteLayoutEncodes(LsrLayout(), LsrValues(q), NoBytes);
    var l := LsrLayout();
    var vs := LsrValues(q);
    assert ByteWire(l, vs, NoBytes, 3) == [];
    ByteWireData(l, vs, NoBytes, 2, 32, q.advertisingRouter);
    ByteWireData(l, vs, NoBytes, 1, 32, q.lsId);
    ByteWireData(l, vs, NoBytes, 0, 32, q.lsType);
  }

  lemma LsrRoundTrip(q: LsRequest, rest: seq<Byte>)
    ensures LsrFromBuf(LsrToBytes(q) + rest) == Some((q, 12))
  {
    LsrByteFields();
    ByteLayout(LsrLayout());
    LsrValuesFit(q);
    LsrBytes(q);
    FromBufToBytes(LsrLayout(), LsrValues(q), NoBytes, NoElement, rest);
  }

  // ---------------------------------------------------------------------------
  // `LSUpdate`

  datatype LsUpdate = LsUpdate(numLsa: U32, lsas: seq<Lsa>)

  function LsuScalars(): seq<Field>
  {
    [Field("num_lsa", Data(32))]
  }

  function LsuLsas(): Field
  {
    Field("lsa", VecOf("Lsa", "num_lsa"))
  }

  function LsuLayout(): seq<Field>
  {
    LsuScalars() + [LsuLsas()]
  }

  lemma LsuWellFormed()
    ensures WholeBytes(LsuLayout()) && WellFormedLayout(LsuLayout()) && !HasUnsized(LsuLayout())
  {
    ByteLayoutThenVector(LsuScalars(), LsuLsas());
  }

  function LsuValues(u: LsUpdate): seq<Value<Lsa>>
  {
    [Num(u.numLsa), Items(u.lsas)]
  }

  lemma LsuValuesFit(u: LsUpdate)
    ensures Fits(LsuLayout(), LsuValues(u))
  {
    Pow2Widths();
  }

  function LsuOf(vs: seq<Value<Lsa>>): LsUpdate
    requires Fits(LsuLayout(), vs)
  {
    Pow2Widths();
    LsUpdate(vs[0].n, vs[1].xs)
  }

  /// The derived `LSUpdate::to_bytes`.
  function LsuToBytes(u: LsUpdate): seq<Byte>
  {
    LsuWellFormed();
    LsuValuesFit(u);
    EncodeAligned(LsuLayout(), LsuValues(u), LsaToBytes);
    ToBytesMut(LsuLayout(), LsuValues(u), LsaToBytes).value
  }

  /// The derived `LSUpdate::from_buf`: `num_lsa` LSAs after the count.
  function LsuFromBuf(b: seq<Byte>): (r: Option<(LsUpdate, nat)>)
    ensures r.Some? ==> r.value.1 <= |b|
  {
    var r := FromBuf(LsuLayout(), b, LsaFromBuf);
    if r.None? then None
    else
      FromBufFits(LsuLayout(), b, LsaFromBuf);
      Some((LsuOf(r.value.0), r.value.1))
  }

  /// Appendix A.3.5 of RFC 2328: the 32-bit count, then the LSAs back to back.
  function LsuWire(u: LsUpdate): seq<Byte>
  {
    UintBytes(u.numLsa, 4) + Concat(LsaToBytes, u.lsas)
  }

  lemma LsuBytes(u: LsUpdate)
    ensures LsuToBytes(u) == LsuWire(u)
  {
    LsuWellFormed();
    LsuValuesFit(u);
    ByteLayoutEncodes(LsuLayout(), LsuValues(u), LsaToBytes);
    var l := LsuLayout();
    var vs := LsuValues(u);
    assert ByteWire(l, vs, LsaToBytes, 2) == [];
    ByteWireStep(l, vs, LsaToBytes, 1, LsuLsas().kind, Items(u.lsas));
    ByteWireData(l, vs, LsaToBytes, 0, 32, u.numLsa);
  }

  /// When the count counts the LSAs and each LSA is consistent, decoding undoes
  /// encoding whatever follows.
  lemma LsuRoundTrip(u: LsUpdate, rest: seq<Byte>)
    requires u.numLsa == |u.lsas|
    requires forall x :: x in u.lsas ==> Consistent(x)
    ensures LsuFromBuf(LsuToBytes(u) + rest) == Some((u, |LsuToBytes(u)|))
  {
    LsuWellFormed();
    LsuValuesFit(u);
    assert SizeOf(LsuLayout(), LsuValues(u), "num_lsa") == Some(u.numLsa);
    LsasRoundTrip(u.lsas);
    FromBufToBytes(LsuLayout(), LsuValues(u), LsaToBytes, LsaFromBuf, rest);
  }

  // ---------------------------------------------------------------------------
  // `LSAcknowledge`

  datatype LsAcknowledge = LsAcknowledge(lsaHeaders: seq<LsaHeader>)

  function LsackLayout(): seq<Field>
  {
    [] + [DdHeaders()]
  }

  lemma LsackWellFormed()
    ensures WholeBytes(LsackLayout()) && WellFormedLayout(LsackLayout()) && HasUnsized(LsackLayout())
  {
    ByteLayoutThenVector([], DdHeaders());
  }

  function LsackValues(a: LsAcknowledge): seq<Value<LsaHeader>>
  {
    [Items(a.lsaHeaders)]
  }

  function LsackOf(vs: seq<Value<LsaHeader>>): LsAcknowledge
    requires Fits(LsackLayout(), vs)
  {
    LsAcknowledge(vs[0].xs)
  }

  /// The derived `LSAcknowledge::to_bytes`.
  function LsackToBytes(a: LsAcknowledge): seq<Byte>
  {
    LsackWellFormed();
    EncodeAligned(LsackLayout(), LsackValues(a), HeaderToBytes);
    ToBytesMut(LsackLayout(), LsackValues(a), HeaderToBytes).value
  }

  /// The derived `LSAcknowledge::from_buf`: LSA headers until the buffer is empty.
  function LsackFromBuf(b: seq<Byte>): (r: Option<(LsAcknowledge, nat)>)
    ensures r.Some? ==> r.value.1 <= |b|
  {
    var r := FromBuf(LsackLayout(), b, HeaderFromBuf);
    if r.None? then None
    else
      FromBufFits(LsackLayout(), b, HeaderFromBuf);
      Some((LsackOf(r.value.0), r.value.1))
  }

  /// Appendix A.3.6 of RFC 2328: the acknowledged headers back to back.
  lemma LsackBytes(a: LsAcknowledge)
    ensures LsackToBytes(a) == Concat(HeaderToBytes, a.lsaHeaders)
    ensures |LsackToBytes(a)| == HeaderSize * |a.lsaHeaders|
  {
    LsackWellFormed();
    ByteLayoutEncodes(LsackLayout(), LsackValues(a), HeaderToBytes);
    var l := LsackLayout();
    var vs := LsackValues(a);
    assert ByteWire(l, vs, HeaderToBytes, 1) == [];
    ByteWireStep(l, vs, HeaderToBytes, 0, DdHeaders().kind, Items(a.lsaHeaders));
    HeadersLength(a.lsaHeaders);
  }

  lemma LsackRoundTrip(a: LsAcknowledge)
    ensures LsackFromBuf(LsackToBytes(a)) == Some((a, |LsackToBytes(a)|))
  {
    LsackWellFormed();
    LsackPremises(a);
    assert LsackToBytes(a) + [] == LsackToBytes(a);
    FromBufToBytes(LsackLayout(), LsackValues(a), HeaderToBytes, HeaderFromBuf, []);
    LsackFromBufOf(LsackToBytes(a), LsackValues(a), |LsackToBytes(a)|);
  }

  lemma LsackPremises(a: LsAcknowledge)
    ensures Fits(LsackLayout(), LsackValues(a)) && SizesAgree(LsackLayout(), LsackValues(a))
    ensures ElemsRoundTrip(LsackLayout(), LsackValues(a), HeaderToBytes, HeaderFromBuf)
  {
    HeadersRoundTrip(a.lsaHeaders);
  }

  /// `from_buf` builds the acknowledgment from the field values the generic decoder reads.
  lemma LsackFromBufOf(b: seq<Byte>, vs: seq<Value<LsaHeader>>, n: nat)
    requires FromBuf(LsackLayout(), b, HeaderFromBuf) == Some((vs, n))
    ensures Fits(LsackLayout(), vs) && LsackFromBuf(b) == Some((LsackOf(vs), n))
  {
    FromBufFits(LsackLayout(), b, HeaderFromBuf);
  }

  // ---------------------------------------------------------------------------
  // `AddressedPacket`

  datatype AddressedPacket<T> = AddressedPacket(source: Ipv4Addr, destination: Ipv4Addr, packet: T)

  /// `AddressedPacket::from_payload`: the addresses as given and the payload decoded
  /// as `T`; `None` where `T::from_buf` panics.
  function FromPayload<T>(source: Ipv4Addr, destination: Ipv4Addr, payload: seq<Byte>,
                          decode: seq<Byte> -> Option<(T, nat)>): (r: Option<AddressedPacket<T>>)
    ensures r.Some? <==> decode(payload).Some?
    ensures r.Some? ==>
              r.value.source == source && r.value.destination == destination && r.value.packet == decode(payload).value.0
  {
    var d := decode(payload);
    if d.None? then None else Some(AddressedPacket(source, destination, d.value.0))
  }

  /// A hello that was encoded arrives unchanged, between the addresses it was captured with.
  lemma HelloPayload(source: Ipv4Addr, destination: Ipv4Addr, h: HelloPacket)
    ensures FromPayload(source, destination, HelloToBytes(h), HelloFromBuf) == Some(AddressedPacket(source, destination, h))
  {
    HelloRoundTrip(h);
  }
}
