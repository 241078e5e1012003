/// The link-state update of the packet codec's unit test, its expected bytes and the hex string
/// the test writes them as.
module PacketExample {
  import opened Common
  import opened Bits
  import opened DecoratorCodec
  import opened Lsa
  import opened Packet
  import RawHex

  const ExampleHeader: LsaHeader := LsaHeader(10, 2, RouterLsaType, 0x0404_0404, 0x0404_0404, 0x8000_000b, 0xe6c8, 48)
  /// A stub link: network 4.4.4.4 with mask 255.255.255.255, metric 0.
  const StubLink: RouterLink := RouterLink(0x0404_0404, 0xffff_ffff, 3, 0, 0)
  /// A transit link to the designated router 168.1.1.2, metric 1.
  const TransitLink: RouterLink := RouterLink(0xa801_0102, 0xa801_0102, 2, 0, 1)
  const ExampleRouter: RouterLsa := RouterLsa(0, 2, [StubLink, TransitLink])
  const ExampleLsa: Lsa := Lsa(ExampleHeader, Router(ExampleRouter))
  const ExampleUpdate: LsUpdate := LsUpdate(1, [ExampleLsa])

  /// The octets the test expects, cut at field boundaries: the LSA count, the LSA header, the
  /// flags and link count, the two links.
  const HeaderOctets: seq<Byte> :=
    [0x00, 0x0a, 0x02, 0x01] + [0x04, 0x04, 0x04, 0x04] + [0x04, 0x04, 0x04, 0x04] + [0x80, 0x00, 0x00, 0x0b]
    + [0xe6, 0xc8, 0x00, 0x30]
  const LinkOctets: seq<Byte> :=
    [0x04, 0x04, 0x04, 0x04] + [0xff, 0xff, 0xff, 0xff] + [0x03, 0x00, 0x00, 0x00]
    + [0xa8, 0x01, 0x01, 0x02] + [0xa8, 0x01, 0x01, 0x02] + [0x02, 0x00, 0x00, 0x01]
  const ExpectedOctets: seq<Byte> := [0x00, 0x00, 0x00, 0x01] + HeaderOctets + [0x00, 0x00, 0x00, 0x02] + LinkOctets

  /// The hexadecimal string of the test, cut at the same boundaries into groups of eight digits.
  const HeaderHex: string := "000a0201" + "04040404" + "04040404" + "8000000b" + "e6c80030"
  const LinkHex: string := "04040404" + "ffffffff" + "03000000" + "a8010102" + "a8010102" + "02000001"
  const ExpectedHex: string := "00000001" + HeaderHex + "00000002" + LinkHex

  /// An update carrying one router-LSA, written field by field as appendix A of RFC 2328 lays
  /// it out: the LSA count, the 20-octet header, the flags and link count, then each link.
  function UpdateWire(u: LsUpdate): seq<Byte>
    requires |u.lsas| == 1 && u.lsas[0].data.Router?
  {
    var r := u.lsas[0].data.router;
    UintBytes(u.numLsa, 4) + HeaderWire(u.lsas[0].header) + (UintBytes(r.flags, 2) + UintBytes(r.numLinks, 2))
    + LinksWire(r.links)
  }

  /// The links one after the other, each field by field.
  function LinksWire(links: seq<RouterLink>): seq<Byte>
  {
    if links == [] then [] else LinkWire(links[0]) + LinksWire(links[1..])
  }

  lemma {:induction false} LinksBytes(links: seq<RouterLink>)
    ensures Concat(LinkToBytes, links) == LinksWire(links)
  {
    if links != [] {
      LinkBytes(links[0]);
      LinksBytes(links[1..]);
    }
  }

  /// Any update of one router-LSA encodes field by field, whatever the field values.
  lemma RouterUpdateBytes(u: LsUpdate)
    requires |u.lsas| == 1 && u.lsas[0].data.Router?
    ensures LsuToBytes(u) == UpdateWire(u)
  {
    var l := u.lsas[0];
    var r := l.data.router;
    LsuBytes(u);
    assert Concat(LsaToBytes, u.lsas) == LsaToBytes(l) + [];
    HeaderBytes(l.header);
    RouterBytes(r);
    LinksBytes(r.links);
    var h, f, n, k := HeaderWire(l.header), UintBytes(r.flags, 2), UintBytes(r.numLinks, 2), LinksWire(r.links);
    assert LsaToBytes(l) == h + (f + (n + k));
    Regroup(UintBytes(u.numLsa, 4), h, f, n, k);
  }

  lemma Regroup(c: seq<Byte>, h: seq<Byte>, f: seq<Byte>, n: seq<Byte>, k: seq<Byte>)
    ensures c + ((h + (f + (n + k))) + []) == c + h + (f + n) + k
  {
  }

  lemma ExampleHeaderWire()
    ensures HeaderWire(ExampleHeader) == HeaderOctets
  {
    AgeOptionsTypeWire();
    RouterIdWire();
    SequenceWire();
    ChecksumLengthWire();
  }

  lemma AgeOptionsTypeWire()
    ensures UintBytes(10, 2) + (UintBytes(2, 1) + UintBytes(RouterLsaType, 1)) == [0x00, 0x0a, 0x02, 0x01]
  {
  }

  lemma RouterIdWire()
    ensures UintBytes(0x0404_0404, 4) == [0x04, 0x04, 0x04, 0x04]
  {
  }

  lemma SequenceWire()
    ensures UintBytes(0x8000_000b, 4) == [0x80, 0x00, 0x00, 0x0b]
  {
  }

  lemma ChecksumLengthWire()
    ensures UintBytes(0xe6c8, 2) + UintBytes(48, 2) == [0xe6, 0xc8, 0x00, 0x30]
  {
  }

  lemma ExampleLinksWire()
    ensures LinksWire([StubLink, TransitLink]) == LinkOctets
  {
    var links := [StubLink, TransitLink];
    assert links[1..] == [TransitLink] && links[1..][1..] == [];
    assert LinksWire(links[1..]) == LinkWire(TransitLink) + LinksWire([]);
    StubLinkWire();
    TransitLinkWire();
  }

  lemma StubLinkWire()
    ensures LinkWire(StubLink) == [0x04, 0x04, 0x04, 0x04] + [0xff, 0xff, 0xff, 0xff] + [0x03, 0x00, 0x00, 0x00]
  {
  }

  lemma TransitLinkWire()
    ensures LinkWire(TransitLink) == [0xa8, 0x01, 0x01, 0x02] + [0xa8, 0x01, 0x01, 0x02] + [0x02, 0x00, 0x00, 0x01]
  {
  }

  lemma CountAndFlagsWire()
    ensures UintBytes(1, 4) == [0x00, 0x00, 0x00, 0x01]
    ensures UintBytes(0, 2) + UintBytes(2, 2) == [0x00, 0x00, 0x00, 0x02]
  {
  }

  /// At the test's field values the field-by-field layout gives the expected octets.
  lemma ExampleWire()
    ensures UpdateWire(ExampleUpdate) == ExpectedOctets
  {
    var c := UintBytes(1, 4);
    var h := HeaderWire(ExampleHeader);
    var fn := UintBytes(0, 2) + UintBytes(2, 2);
    var k := LinksWire([StubLink, TransitLink]);
    assert UpdateWire(ExampleUpdate) == c + h + fn + k;
    CountAndFlagsWire();
    ExampleHeaderWire();
    ExampleLinksWire();
  }

  /// The test's assertion: the update encodes to what `raw_hex!` makes of the test's string.
  lemma ExampleHex()
    ensures RawHex.Decode(ExpectedHex) == Ok(LsuToBytes(ExampleUpdate))
    ensures LsuToBytes(ExampleUpdate) == ExpectedOctets
  {
    ExampleEncodes();
    ExpectedHexDecodes();
  }

  /// The update encodes to the expected octets.
  lemma ExampleEncodes()
    ensures LsuToBytes(ExampleUpdate) == ExpectedOctets
  {
    RouterUpdateBytes(ExampleUpdate);
    ExampleWire();
  }

  /// The test's string, read by `raw_hex!`, gives the expected octets.
  lemma ExpectedHexDecodes()
    ensures RawHex.Decode(ExpectedHex) == Ok(ExpectedOctets)
  {
    RawHex.DecodeQuad("00000001", 0x00, 0x00, 0x00, 0x01);
    RawHex.DecodeQuad("00000002", 0x00, 0x00, 0x00, 0x02);
    HeaderHexDecodes();
    LinkHexDecodes();
    RawHex.DecodeConcat("00000001", HeaderHex);
    RawHex.DecodeConcat("00000001" + HeaderHex, "00000002");
    RawHex.DecodeConcat("00000001" + HeaderHex + "00000002", LinkHex);
  }

  lemma HeaderHexDecodes()
    ensures RawHex.Decode(HeaderHex) == Ok(HeaderOctets)
  {
    var t := "000a0201";
    RawHex.DecodeQuad(t, 0x00, 0x0a, 0x02, 0x01);
    Then(t, [0x00, 0x0a, 0x02, 0x01], "04040404", 0x04, 0x04, 0x04, 0x04);
    t := t + "04040404";
    Then(t, [0x00, 0x0a, 0x02, 0x01] + [0x04, 0x04, 0x04, 0x04], "04040404", 0x04, 0x04, 0x04, 0x04);
    t := t + "04040404";
    Then(t, [0x00, 0x0a, 0x02, 0x01] + [0x04, 0x04, 0x04, 0x04] + [0x04, 0x04, 0x04, 0x04], "8000000b", 0x80, 0x00, 0x00, 0x0b);
    t := t + "8000000b";
    Then(t, [0x00, 0x0a, 0x02, 0x01] + [0x04, 0x04, 0x04, 0x04] + [0x04, 0x04, 0x04, 0x04] + [0x80, 0x00, 0x00, 0x0b],
         "e6c80030", 0xe6, 0xc8, 0x00, 0x30);
  }

  lemma LinkHexDecodes()
    ensures RawHex.Decode(LinkHex) == Ok(LinkOctets)
  {
    var t := "04040404";
    var o: seq<Byte> := [0x04, 0x04, 0x04, 0x04];
    RawHex.DecodeQuad(t, 0x04, 0x04, 0x04, 0x04);
    Then(t, o, "ffffffff", 0xff, 0xff, 0xff, 0xff);
    t, o := t + "ffffffff", o + [0xff, 0xff, 0xff, 0xff];
    Then(t, o, "03000000", 0x03, 0x00, 0x00, 0x00);
    t, o := t + "03000000", o + [0x03, 0x00, 0x00, 0x00];
    Then(t, o, "a8010102", 0xa8, 0x01, 0x01, 0x02);
    t, o := t + "a8010102", o + [0xa8, 0x01, 0x01, 0x02];
    Then(t, o, "a8010102", 0xa8, 0x01, 0x01, 0x02);
    t, o := t + "a8010102", o + [0xa8, 0x01, 0x01, 0x02];
    Then(t, o, "02000001", 0x02, 0x00, 0x00, 0x01);
  }

  /// A decoded text followed by one more group of eight digits.
  lemma Then(text: string, octets: seq<Byte>, group: string, a: Byte, b: Byte, c: Byte, d: Byte)
    requires RawHex.Decode(text) == Ok(octets)
    requires |group| == 8
    requires RawHex.PairValue(group[0], group[1]) == Some(a) && RawHex.PairValue(group[2], group[3]) == Some(b)
    requires RawHex.PairValue(group[4], group[5]) == Some(c) && RawHex.PairValue(group[6], group[7]) == Some(d)
    ensures RawHex.Decode(text + group) == Ok(octets + [a, b, c, d])
  {
    RawHex.DecodeQuad(group, a, b, c, d);
    RawHex.DecodeConcat(text, group);
  }

  /// The expected octets decode back to the update, which is consistent (its length field counts
  /// its 48 octets and its link count its two links).
  lemma ExampleDecodes()
    ensures LsuFromBuf(ExpectedOctets) == Some((ExampleUpdate, 52))
  {
    RouterUpdateBytes(ExampleUpdate);
    ExampleWire();
    RouterBytes(ExampleRouter);
    assert |DataToBytes(ExampleLsa.data)| == 28;
    assert Consistent(ExampleLsa);
    LsuRoundTrip(ExampleUpdate, []);
    assert ExpectedOctets + [] == ExpectedOctets;
  }
}
