/// IPv4 addresses and the byte-order helpers of the daemon's utility module.
module Util {

  /// `std::net::Ipv4Addr`: four octets, the first one written leftmost in dotted notation.
  datatype Ipv4Addr = Ipv4Addr(a: bv8, b: bv8, c: bv8, d: bv8)

  /// `Ipv4Addr::UNSPECIFIED`, 0.0.0.0.
  const Unspecified: Ipv4Addr := Ipv4Addr(0, 0, 0, 0)

  /// `ip2hex`: the address as a big-endian 32-bit word (`u32::from_be_bytes(ip.octets())`).
  function Ip2Hex(ip: Ipv4Addr): (h: bv32)
    ensures ((h >> 24) & 0xFF) as bv8 == ip.a
    ensures ((h >> 16) & 0xFF) as bv8 == ip.b
    ensures ((h >> 8) & 0xFF) as bv8 == ip.c
    ensures (h & 0xFF) as bv8 == ip.d
  {
    ((ip.a as bv32) << 24) | ((ip.b as bv32) << 16) | ((ip.c as bv32) << 8) | (ip.d as bv32)
  }

  /// `hex2ip`: splits a word into octets, most significant first.
  function Hex2Ip(h: bv32): (ip: Ipv4Addr)
    ensures Ip2Hex(ip) == h
  {
    Ipv4Addr(((h >> 24) & 0xFF) as bv8, ((h >> 16) & 0xFF) as bv8,
             ((h >> 8) & 0xFF) as bv8, (h & 0xFF) as bv8)
  }

  /// `hex2ip(ip2hex(ip)) == ip`: the two conversions are inverse bijections.
  lemma Hex2IpOfIp2Hex(ip: Ipv4Addr)
    ensures Hex2Ip(Ip2Hex(ip)) == ip
  {
  }

  lemma Ip2HexInjective(x: Ipv4Addr, y: Ipv4Addr)
    ensures Ip2Hex(x) == Ip2Hex(y) <==> x == y
  {
    Hex2IpOfIp2Hex(x);
    Hex2IpOfIp2Hex(y);
  }

  /// The `ip2hex!(a, b, c, d)` macro of the macro crate (the daemon's `hex!` is the same
  /// expression), applied to arguments already cast `as u32`.
  function HexMacro(a: bv32, b: bv32, c: bv32, d: bv32): bv32
  {
    (a << 24) | (b << 16) | (c << 8) | d
  }

  /// For octet arguments the macro agrees with `ip2hex` of the address with those octets.
  lemma HexMacroIsIp2Hex(a: bv8, b: bv8, c: bv8, d: bv8)
    ensures HexMacro(a as bv32, b as bv32, c as bv32, d as bv32) == Ip2Hex(Ipv4Addr(a, b, c, d))
  {
  }

  /// Unsigned order of addresses (`Ipv4Addr: Ord` compares the octets left to right).
  predicate AddrLess(x: Ipv4Addr, y: Ipv4Addr)
  {
    x.a < y.a || (x.a == y.a && (x.b < y.b || (x.b == y.b && (x.c < y.c || (x.c == y.c && x.d < y.d)))))
  }

  lemma OctetTotal(p: bv8, q: bv8)
    ensures p == q || p < q || q < p
  {
  }

  lemma OctetTransitive(p: bv8, q: bv8, r: bv8)
    ensures p < q && q <= r ==> p < r
    ensures p <= q && q < r ==> p < r
  {
  }

  /// Distinct addresses are ordered one way or the other.
  lemma AddrLessTotal(x: Ipv4Addr, y: Ipv4Addr)
    ensures x == y || AddrLess(x, y) || AddrLess(y, x)
  {
    OctetTotal(x.a, y.a);
    OctetTotal(x.b, y.b);
    OctetTotal(x.c, y.c);
    OctetTotal(x.d, y.d);
  }

  lemma AddrLessTransitive(x: Ipv4Addr, y: Ipv4Addr, z: Ipv4Addr)
    ensures !AddrLess(x, x)
    ensures AddrLess(x, y) && AddrLess(y, z) ==> AddrLess(x, z)
  {
    OctetTransitive(x.a, y.a, z.a);
    OctetTransitive(x.b, y.b, z.b);
    OctetTransitive(x.c, y.c, z.c);
    OctetTransitive(x.d, y.d, z.d);
  }

  /// Octet-wise `&` of two addresses (`impl BitAnd for Ipv4Addr`).
  function AddrAnd(x: Ipv4Addr, y: Ipv4Addr): (r: Ipv4Addr)
    ensures Ip2Hex(r) == Ip2Hex(x) & Ip2Hex(y)
  {
    Hex2Ip(Ip2Hex(x) & Ip2Hex(y))
  }
}

/// The protocol constants of the daemon.
module Constants {
  import opened Util

  const LsRefreshTime: nat := 1800
  const LsaMaxAge: nat := 3600
  const LsInfinity: nat := 0xffffff
  const InitialSequenceNumber: int := -0x7fffffff
  const MaxSequenceNumber: int := 0x7fffffff
  /// RFC 2328 appendix A.1: the AllSPFRouters multicast group 224.0.0.5.
  const AllSpfRouters: Ipv4Addr := Ipv4Addr(224, 0, 0, 5)
  /// The value the daemon actually declares for AllSPFRouters.
  const AllSpfRoutersAsWritten: Ipv4Addr := Ipv4Addr(244, 0, 0, 5)
  const AllDRouters: Ipv4Addr := Ipv4Addr(224, 0, 0, 6)
  /// The backbone area 0.0.0.0.
  const BackboneArea: Ipv4Addr := Unspecified

  /// The unit test of the utility module, run against the declared constant: 244.0.0.5 <-> 0xf4000005.
  lemma AllSpfRoutersAsWrittenHex()
    ensures Ip2Hex(AllSpfRoutersAsWritten) == 0xf400_0005
    ensures Hex2Ip(0xf400_0005) == AllSpfRoutersAsWritten
  {
    Hex2IpOfIp2Hex(AllSpfRoutersAsWritten);
  }

  /// The declared constant differs from the RFC group address in its first octet (244 against 224).
  lemma AllSpfRoutersAsWrittenIsNotTheRfcGroup()
    ensures AllSpfRoutersAsWritten != AllSpfRouters
    ensures Ip2Hex(AllSpfRouters) == 0xe000_0005
  {
  }
}
