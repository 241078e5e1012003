/// The kernel route-table shim: the C functions that add and delete a route through `ioctl` and
/// read the kernel's table from `/proc/net/route`, and the Rust bindings over them. The host is
/// little-endian, so `to_be()` swaps the bytes of a word.
module KernelRoute {
  import opened Common
  import opened Util

  // ---------------------------------------------------------------------------
  // The C record and the ioctl request

  /// `routing_item_t` on the C side: three raw `in_addr_t` words (the address bytes in memory
  /// order, read as a little-endian number) and the interface name.
  datatype CItem = CItem(dest: bv32, mask: bv32, nexthop: bv32, ifname: string)

  /// A `sockaddr_in` as the route request fills it: family and address (port and padding stay 0).
  datatype SockAddrIn = SockAddrIn(family: nat, addr: bv32)

  /// The fields of `struct rtentry` that the shim sets; every other byte is zero, the device
  /// pointer included (`None` is the null pointer).
  datatype RtEntry = RtEntry(dst: SockAddrIn, gateway: SockAddrIn, genmask: SockAddrIn, flags: bv16, dev: Option<string>)

  /// The two `ioctl` requests.
  datatype Request = SiocAddRt | SiocDelRt

  const AfInet: nat := 2
  const RtfUp: bv16 := 0x0001
  const RtfGateway: bv16 := 0x0002
  /// A `sockaddr` left as `memset` made it.
  const ZeroAddr: SockAddrIn := SockAddrIn(0, 0)

  /// The request of `add_route`: destination, gateway and mask as `AF_INET` addresses, flags
  /// `RTF_UP | RTF_GATEWAY`, device the item's interface name.
  function AddEntry(r: CItem): (e: RtEntry)
    ensures e.dst == SockAddrIn(AfInet, r.dest) && e.genmask == SockAddrIn(AfInet, r.mask)
    ensures e.gateway == SockAddrIn(AfInet, r.nexthop)
    ensures e.flags & RtfUp != 0 && e.flags & RtfGateway != 0 && e.dev == Some(r.ifname)
  {
    RtEntry(SockAddrIn(AfInet, r.dest), SockAddrIn(AfInet, r.nexthop), SockAddrIn(AfInet, r.mask),
            RtfUp | RtfGateway, Some(r.ifname))
  }

  /// The request of `delete_route`: as for adding, but the gateway is never filled in.
  function DeleteEntry(r: CItem): (e: RtEntry)
    ensures e.gateway == ZeroAddr
  {
    RtEntry(SockAddrIn(AfInet, r.dest), ZeroAddr, SockAddrIn(AfInet, r.mask), RtfUp | RtfGateway, Some(r.ifname))
  }

  /// The two requests differ in the gateway only, so a route is deleted by destination and mask
  /// whatever its next hop.
  lemma DeleteIsAddWithoutGateway(r: CItem, other: bv32)
    ensures DeleteEntry(r) == AddEntry(r).(gateway := ZeroAddr)
    ensures DeleteEntry(r) == DeleteEntry(r.(nexthop := other))
    ensures AddEntry(r).gateway != DeleteEntry(r).gateway
  {
  }

  /// `add_route` / `delete_route`: -1 when no socket can be opened (`socket` returned a negative
  /// descriptor), else whatever the kernel answers to the request. The kernel is a parameter.
  function CallKernel(request: Request, e: RtEntry, socket: int, kernel: (Request, RtEntry) -> int): (ret: int)
    ensures socket < 0 ==> ret == -1
    ensures socket >= 0 ==> ret == kernel(request, e)
  {
    if socket < 0 then -1 else kernel(request, e)
  }

  function CAddRoute(r: CItem, socket: int, kernel: (Request, RtEntry) -> int): int
  {
    CallKernel(SiocAddRt, AddEntry(r), socket, kernel)
  }

  function CDeleteRoute(r: CItem, socket: int, kernel: (Request, RtEntry) -> int): int
  {
    CallKernel(SiocDelRt, DeleteEntry(r), socket, kernel)
  }

  // ---------------------------------------------------------------------------
  // get_route_table

  /// One line of `/proc/net/route` as its fields read: interface name, destination, gateway,
  /// flags and mask (the hexadecimal words), the skipped decimal columns left out.
  datatype Line = Line(ifname: string, dest: bv32, gateway: bv32, flags: bv32, mask: bv32)

  /// What one `fscanf` call does: `Scanned(n, l)` assigns the first `n` of its five conversions
  /// (name, destination, gateway, flags, mask) from `l` and returns `n`; `AtEnd` returns `EOF`
  /// with the end-of-file indicator set; `ReadError` returns `EOF` without it.
  datatype ScanResult = Scanned(count: nat, line: Line) | AtEnd | ReadError

  /// The slot after a scan that assigned `n` conversions: the first `n` of the name, destination,
  /// gateway and mask (flags go to the local `f`, the fourth conversion) are overwritten.
  function Store(slot: CItem, n: nat, l: Line): CItem
  {
    CItem(if n >= 2 then l.dest else slot.dest,
          if n >= 5 then l.mask else slot.mask,
          if n >= 3 then l.gateway else slot.nexthop,
          if n >= 1 then l.ifname else slot.ifname)
  }

  /// The local `f` after a scan: the line's flags when the fourth conversion was assigned,
  /// otherwise what it held before (on the first line, an uninitialised value).
  function FlagsAfter(f: bv32, n: nat, l: Line): bv32
  {
    if n >= 4 then l.flags else f
  }

  /// The scan loop from slot `sz` on, with `f` holding the last flags read: the slots it leaves
  /// and the count it returns. Each scan fills the current slot; the slot is kept (and the count
  /// advances) when `f` has `RTF_UP`, otherwise the next scan overwrites it. The loop stops at
  /// `size` entries or at end of file. The scans are finite and end at the end of the file; a
  /// read error repeated forever, on which the C loop spins, is not part of this model.
  function Run(slots: seq<CItem>, size: int, scans: seq<ScanResult>, f: bv32, sz: nat): (r: (seq<CItem>, nat))
    requires size <= |slots| && sz <= |slots|
    ensures |r.0| == |slots| && sz <= r.1
    ensures sz <= size ==> r.1 <= size
    ensures forall k :: 0 <= k < |slots| && (k < sz || k > r.1 || k >= size) ==> r.0[k] == slots[k]
    decreases |scans|
  {
    if sz >= size then (slots, sz)
    else
      var s := if scans == [] then AtEnd else scans[0];
      match s
      case AtEnd => (slots, sz)
      case ReadError =>
        Run(slots, size, scans[1..], f, if f & (RtfUp as bv32) != 0 then sz + 1 else sz)
      case Scanned(n, l) =>
        var f' := FlagsAfter(f, n, l);
        Run(slots[sz := Store(slots[sz], n, l)], size, scans[1..], f', if f' & (RtfUp as bv32) != 0 then sz + 1 else sz)
  }

  /// `get_route_table(arr, size)` on the slots `slots`: -1 when the file cannot be opened, 0 when
  /// skipping the header line already meets the end (an empty table has no header), else the
  /// count of the scan loop. `f0` is the uninitialised value of `f`.
  function GetRouteTable(slots: seq<CItem>, size: int, found: bool, headerAtEnd: bool,
                         scans: seq<ScanResult>, f0: bv32): (r: (int, seq<CItem>))
    requires size <= |slots|
    ensures !found ==> r == (-1, slots)
    ensures found && headerAtEnd ==> r == (0, slots)
    ensures r.0 >= -1 && (size >= 0 ==> r.0 <= size) && |r.1| == |slots|
    ensures forall k :: 0 <= k < |slots| && (size <= k || r.0 < k) ==> r.1[k] == slots[k]
  {
    if !found then (-1, slots)
    else if headerAtEnd then (0, slots)
    else
      var (s, n) := Run(slots, size, scans, f0, 0);
      (n as int, s)
  }

  /// The C loop, advancing through the caller's array. The array holds at least `size` items, as
  /// the C caller must guarantee.
  method GetRouteTableLoop(arr: array<CItem>, size: int, found: bool, headerAtEnd: bool,
                           scans: seq<ScanResult>, f0: bv32) returns (ret: int)
    requires size <= arr.Length
    modifies arr
    ensures (ret, arr[..]) == GetRouteTable(old(arr[..]), size, found, headerAtEnd, scans, f0)
  {
    if !found {
      return -1;
    }
    if headerAtEnd {
      return 0;
    }
    var sz := 0;
    var f := f0;
    var i := 0;
    while sz < size
      invariant 0 <= sz <= arr.Length && 0 <= i <= |scans|
      invariant Run(old(arr[..]), size, scans, f0, 0) == Run(arr[..], size, scans[i..], f, sz)
      decreases |scans| - i, size - sz
    {
      var s := if i < |scans| then scans[i] else AtEnd;
      assert s == (if scans[i..] == [] then AtEnd else scans[i..][0]);
      if s.AtEnd? {
        break;
      }
      if s.Scanned? {
        arr[sz] := Store(arr[sz], s.count, s.line);
        f := FlagsAfter(f, s.count, s.line);
      }
      assert scans[i..][1..] == scans[i + 1..];
      i := i + 1;
      if f & (RtfUp as bv32) != 0 {
        sz := sz + 1;
      }
    }
    ret := sz;
  }

  /// Every line read in full: its flags alone decide whether it is kept.
  function Full(lines: seq<Line>): seq<ScanResult>
  {
    if lines == [] then [] else [Scanned(5, lines[0])] + Full(lines[1..])
  }

  /// The lines whose flags contain `RTF_UP`, in order.
  function UpLines(lines: seq<Line>): seq<Line>
  {
    if lines == [] then []
    else if lines[0].flags & (RtfUp as bv32) != 0 then [lines[0]] + UpLines(lines[1..])
    else UpLines(lines[1..])
  }

  function ItemOfLine(l: Line): CItem
  {
    CItem(l.dest, l.mask, l.gateway, l.ifname)
  }

  function ItemsOfLines(lines: seq<Line>): (r: seq<CItem>)
    ensures |r| == |lines|
    ensures forall k :: 0 <= k < |lines| ==> r[k] == ItemOfLine(lines[k])
  {
    if lines == [] then [] else [ItemOfLine(lines[0])] + ItemsOfLines(lines[1..])
  }

  function Min(a: int, b: int): int { if a <= b then a else b }

  /// `r` holds, after the first `sz` slots, the items of `ups` until `size` slots are used.
  predicate Collected(r: (seq<CItem>, nat), slots: seq<CItem>, size: int, sz: nat, ups: seq<Line>)
  {
    r.1 == Min(size, sz + |ups|) && sz <= r.1 <= |r.0| && sz <= |slots| && r.1 - sz <= |ups| &&
    r.0[..r.1] == slots[..sz] + ItemsOfLines(ups)[..r.1 - sz]
  }

  /// On a file whose every line reads in full, the loop collects the up routes, in file order,
  /// until `size` of them are held: the not-up lines leave no trace in the collected prefix.
  lemma {:induction false} RunFull(slots: seq<CItem>, size: int, lines: seq<Line>, f: bv32, sz: nat)
    requires size <= |slots| && sz <= size
    ensures Collected(Run(slots, size, Full(lines), f, sz), slots, size, sz, UpLines(lines))
    decreases lines
  {
    if sz < size && lines != [] {
      var l, rest := lines[0], lines[1..];
      var slots' := slots[sz := ItemOfLine(l)];
      var up := l.flags & (RtfUp as bv32) != 0;
      var sz' := if up then sz + 1 else sz;
      FullStep(slots, size, lines, f, sz);
      RunFull(slots', size, rest, l.flags, sz');
      assert UpLines(lines) == if up then [l] + UpLines(rest) else UpLines(rest);
      CollectedStep(Run(slots', size, Full(rest), l.flags, sz'), slots, size, sz, l, up, UpLines(rest));
    }
  }

  /// One line more: an up line's item joins the collected prefix, a not-up line's slot is
  /// taken by the next line.
  lemma CollectedStep(r: (seq<CItem>, nat), slots: seq<CItem>, size: int, sz: nat, l: Line, up: bool, ups: seq<Line>)
    requires sz < size <= |slots|
    requires Collected(r, slots[sz := ItemOfLine(l)], size, if up then sz + 1 else sz, ups)
    ensures Collected(r, slots, size, sz, if up then [l] + ups else ups)
  {
    if up {
      assert ItemsOfLines([l] + ups) == [ItemOfLine(l)] + ItemsOfLines(ups);
      PrefixCons(slots, sz, ItemOfLine(l), ItemsOfLines(ups), r.1 - sz - 1);
    } else {
      assert slots[sz := ItemOfLine(l)][..sz] == slots[..sz];
    }
  }

  /// One step of the loop on a fully read line.
  lemma FullStep(slots: seq<CItem>, size: int, lines: seq<Line>, f: bv32, sz: nat)
    requires size <= |slots| && sz < size && lines != []
    ensures Run(slots, size, Full(lines), f, sz)
            == Run(slots[sz := ItemOfLine(lines[0])], size, Full(lines[1..]), lines[0].flags,
                   if lines[0].flags & (RtfUp as bv32) != 0 then sz + 1 else sz)
  {
    assert Full(lines)[0] == Scanned(5, lines[0]) && Full(lines)[1..] == Full(lines[1..]);
    assert Store(slots[sz], 5, lines[0]) == ItemOfLine(lines[0]);
  }

  lemma PrefixCons<X>(s: seq<X>, n: nat, x: X, ys: seq<X>, t: nat)
    requires n < |s| && t <= |ys|
    ensures s[n := x][..n + 1] + ys[..t] == s[..n] + ([x] + ys)[..t + 1]
  {
    assert s[n := x][..n + 1] == s[..n] + [x];
    assert ([x] + ys)[..t + 1] == [x] + ys[..t];
  }

  /// A not-up line's slot is taken by the next line: a down route followed by an up one leaves
  /// one entry, the up one, in the first slot.
  lemma DownSlotReused(slots: seq<CItem>, down: Line, up: Line, f0: bv32)
    requires |slots| >= 1
    requires down.flags & (RtfUp as bv32) == 0 && up.flags & (RtfUp as bv32) != 0
    ensures GetRouteTable(slots, 1, true, false, Full([down, up]), f0).0 == 1
    ensures GetRouteTable(slots, 1, true, false, Full([down, up]), f0).1[0] == ItemOfLine(up)
  {
    var lines := [down, up];
    assert lines[1..] == [up] && lines[1..][1..] == [];
    assert UpLines(lines) == UpLines([up]) == [up] + UpLines([]);
    RunFull(slots, 1, lines, f0, 0);
  }

  /// A line that reads only in part keeps the previous line's flags: after an up route, a line
  /// whose scan stops after the destination is kept too, with the gateway and mask its slot held.
  lemma PartialLineKeepsStaleFlags(slots: seq<CItem>, up: Line, partial: Line, f0: bv32)
    requires |slots| >= 2
    requires up.flags & (RtfUp as bv32) != 0
    ensures GetRouteTable(slots, 2, true, false, [Scanned(5, up), Scanned(2, partial)], f0).0 == 2
    ensures GetRouteTable(slots, 2, true, false, [Scanned(5, up), Scanned(2, partial)], f0).1[1]
            == CItem(partial.dest, slots[1].mask, slots[1].nexthop, partial.ifname)
  {
    var scans := [Scanned(5, up), Scanned(2, partial)];
    assert scans[1..] == [Scanned(2, partial)] && scans[1..][1..] == [];
    var s1 := slots[0 := Store(slots[0], 5, up)];
    var s2 := s1[1 := Store(s1[1], 2, partial)];
    assert Run(slots, 2, scans, f0, 0) == Run(s1, 2, scans[1..], up.flags, 1);
    assert Run(s1, 2, scans[1..], up.flags, 1) == Run(s2, 2, [], up.flags, 2);
  }

  /// The uninitialised `f`: when the first call already fails with a read error, the garbage
  /// value decides whether the untouched first slot counts as a route.
  lemma FirstReadErrorUsesGarbage(slots: seq<CItem>, f0: bv32)
    requires |slots| >= 1
    ensures GetRouteTable(slots, 1, true, false, [ReadError], f0)
            == (if f0 & (RtfUp as bv32) != 0 then 1 else 0, slots)
  {
    assert [ReadError][1..] == [];
  }

  // ---------------------------------------------------------------------------
  // The Rust bindings

  /// `u32::to_be` on a little-endian host: the bytes of the word reversed.
  function ToBe(x: bv32): bv32
  {
    ((x & 0xFF) << 24) | (((x >> 8) & 0xFF) << 16) | (((x >> 16) & 0xFF) << 8) | (x >> 24)
  }

  /// `to_be` is its own inverse.
  lemma ToBeInvolution(x: bv32)
    ensures ToBe(ToBe(x)) == x
  {
  }

  /// The four bytes of a word in the memory of a little-endian host, lowest address first.
  function MemoryBytes(x: bv32): seq<bv8>
  {
    [(x & 0xFF) as bv8, ((x >> 8) & 0xFF) as bv8, ((x >> 16) & 0xFF) as bv8, (x >> 24) as bv8]
  }

  function Octets(ip: Ipv4Addr): seq<bv8>
  {
    [ip.a, ip.b, ip.c, ip.d]
  }

  /// `u32::from(ip).to_be()` lays the address out in memory in network order, first octet first.
  lemma NetworkOrder(ip: Ipv4Addr)
    ensures MemoryBytes(ToBe(Ip2Hex(ip))) == Octets(ip)
  {
    SwappedBytes(Ip2Hex(ip));
  }

  lemma SwappedBytes(x: bv32)
    ensures MemoryBytes(ToBe(x)) == [((x >> 24) & 0xFF) as bv8, ((x >> 16) & 0xFF) as bv8, ((x >> 8) & 0xFF) as bv8, (x & 0xFF) as bv8]
  {
  }

  /// `RoutingItem`: the Rust route, three addresses and no interface name.
  datatype RoutingItem = RoutingItem(dest: Ipv4Addr, mask: Ipv4Addr, nexthop: Ipv4Addr)

  /// The Rust mirror of `routing_item_t`: the three words only.
  datatype RawItem = RawItem(dest: bv32, mask: bv32, nexthop: bv32)

  /// `From<RoutingItem> for routing_item_t`: each address as `u32::from(ip).to_be()`.
  function ToRaw(r: RoutingItem): (w: RawItem)
    ensures MemoryBytes(w.dest) == Octets(r.dest)
    ensures MemoryBytes(w.mask) == Octets(r.mask)
    ensures MemoryBytes(w.nexthop) == Octets(r.nexthop)
  {
    NetworkOrder(r.dest);
    NetworkOrder(r.mask);
    NetworkOrder(r.nexthop);
    RawItem(ToBe(Ip2Hex(r.dest)), ToBe(Ip2Hex(r.mask)), ToBe(Ip2Hex(r.nexthop)))
  }

  /// `From<routing_item_t> for RoutingItem`: each word through `to_be()` into an address.
  function FromRaw(w: RawItem): RoutingItem
  {
    RoutingItem(Hex2Ip(ToBe(w.dest)), Hex2Ip(ToBe(w.mask)), Hex2Ip(ToBe(w.nexthop)))
  }

  /// The two conversions undo each other, in both orders.
  lemma RawRoundTrip(r: RoutingItem, w: RawItem)
    ensures FromRaw(ToRaw(r)) == r
    ensures ToRaw(FromRaw(w)) == w
  {
    Hex2IpOfIp2Hex(r.dest);
    Hex2IpOfIp2Hex(r.mask);
    Hex2IpOfIp2Hex(r.nexthop);
    ToBeInvolution(w.dest);
    ToBeInvolution(w.mask);
    ToBeInvolution(w.nexthop);
  }

  /// The kernel's word for 169.254.100.0, as `/proc/net/route` prints it.
  lemma LinkLocalWord()
    ensures Hex2Ip(ToBe(0x0064_FEA9)) == Ipv4Addr(169, 254, 100, 0)
  {
  }

  /// The item the C side reads: the three words of the Rust record, and an interface name from
  /// whatever memory follows it.
  function CItemOf(w: RawItem, following: string): CItem
  {
    CItem(w.dest, w.mask, w.nexthop, following)
  }

  /// `std::io::Error::last_os_error()`: the error number the failed call left.
  datatype OsError = OsError(errno: int)

  /// `add_route` / `delete_route` in Rust: `Err` exactly when the C call returns a negative value.
  function ResultOf(ret: int, errno: int): (r: Result<(), OsError>)
    ensures r.Err? <==> ret < 0
  {
    if ret < 0 then Err(OsError(errno)) else Ok(())
  }

  function AddRoute(r: RoutingItem, following: string, socket: int, kernel: (Request, RtEntry) -> int,
                    errno: int): (res: Result<(), OsError>)
    ensures res.Err? <==> socket < 0 || kernel(SiocAddRt, AddEntry(CItemOf(ToRaw(r), following))) < 0
  {
    ResultOf(CAddRoute(CItemOf(ToRaw(r), following), socket, kernel), errno)
  }

  function DeleteRoute(r: RoutingItem, following: string, socket: int, kernel: (Request, RtEntry) -> int,
                       errno: int): (res: Result<(), OsError>)
    ensures res.Err? <==> socket < 0 || kernel(SiocDelRt, DeleteEntry(CItemOf(ToRaw(r), following))) < 0
  {
    ResultOf(CDeleteRoute(CItemOf(ToRaw(r), following), socket, kernel), errno)
  }

  /// The slot count of the Rust wrapper's buffer.
  const Slots: nat := 128

  /// 128 zeroed slots.
  function ZeroSlots(): (s: seq<CItem>)
    ensures |s| == Slots && forall k :: 0 <= k < |s| ==> s[k] == CItem(0, 0, 0, "")
  {
    seq(Slots, _ => CItem(0, 0, 0, ""))
  }

  function RawOfC(c: CItem): RawItem
  {
    RawItem(c.dest, c.mask, c.nexthop)
  }

  function Converted(cs: seq<CItem>): (r: seq<RoutingItem>)
    ensures |r| == |cs| && forall k :: 0 <= k < |cs| ==> r[k] == FromRaw(RawOfC(cs[k]))
  {
    if cs == [] then [] else [FromRaw(RawOfC(cs[0]))] + Converted(cs[1..])
  }

  /// `get_route_table` in Rust: 128 zeroed slots handed to the C function; a negative count is an
  /// error, otherwise the first `count` slots are converted.
  function RustGetRouteTable(found: bool, headerAtEnd: bool, scans: seq<ScanResult>, f0: bv32,
                             errno: int): (r: Result<seq<RoutingItem>, OsError>)
    ensures r.Err? <==> !found
    ensures r.Ok? ==> |r.value| <= Slots
  {
    var (n, s) := GetRouteTable(ZeroSlots(), Slots, found, headerAtEnd, scans, f0);
    if n < 0 then Err(OsError(errno)) else Ok(Converted(s[..n]))
  }

  /// When every line reads in full, the Rust call lists the up routes of the file, in order,
  /// the first 128 of them.
  lemma RustTableFull(lines: seq<Line>, f0: bv32, errno: int)
    ensures RustGetRouteTable(true, false, Full(lines), f0, errno)
            == Ok(Converted(ItemsOfLines(UpLines(lines))[..Min(Slots, |UpLines(lines)|)]))
  {
    RunFull(ZeroSlots(), Slots, lines, f0, 0);
    var r := Run(ZeroSlots(), Slots, Full(lines), f0, 0);
    var items := ItemsOfLines(UpLines(lines))[..r.1];
    assert ZeroSlots()[..0] + items == items;
    assert GetRouteTable(ZeroSlots(), Slots, true, false, Full(lines), f0) == (r.1 as int, r.0);
  }

  // ---------------------------------------------------------------------------
  // Display

  /// The decimal digits of a number, most significant first, without leading zeros.
  function DecimalText(n: nat): (s: string)
    ensures |s| >= 1 && forall k :: 0 <= k < |s| ==> '0' <= s[k] <= '9'
  {
    if n < 10 then [('0' as int + n) as char] else DecimalText(n / 10) + [('0' as int + n % 10) as char]
  }

  /// The number a string of decimal digits stands for.
  function DecimalValue(s: string): nat
  {
    if s == [] then 0
    else
      var d := s[|s| - 1] as int - '0' as int;
      DecimalValue(s[..|s| - 1]) * 10 + (if 0 <= d < 10 then d else 0)
  }

  /// Reading the decimal text back gives the number.
  lemma {:induction false} DecimalRoundTrip(n: nat)
    ensures DecimalValue(DecimalText(n)) == n
  {
    if n >= 10 {
      DecimalRoundTrip(n / 10);
      var s := DecimalText(n);
      assert s[..|s| - 1] == DecimalText(n / 10);
    }
  }

  /// `Ipv4Addr`'s dotted-decimal text.
  function AddrText(ip: Ipv4Addr): string
  {
    DecimalText(ip.a as nat) + "." + DecimalText(ip.b as nat) + "." + DecimalText(ip.c as nat) + "."
    + DecimalText(ip.d as nat)
  }

  /// The number of one bits among the lowest `k` bits of `x`.
  function Ones(x: nat, k: nat): nat
  {
    if k == 0 then 0 else x % 2 + Ones(x / 2, k - 1)
  }

  /// `u32::count_ones`.
  function CountOnes(x: bv32): nat
  {
    Ones(x as nat, 32)
  }

  /// The value of an `n`-bit mask whose top `p` bits are ones and the rest zeros.
  function TopOnes(n: nat, p: nat): nat
    requires p <= n
  {
    Pow2Monotone(n - p, n);
    Pow2(n) - Pow2(n - p)
  }

  lemma {:induction false} OnesOfTopOnes(n: nat, p: nat)
    requires p <= n
    ensures Ones(TopOnes(n, p), n) == p
  {
    if n > 0 {
      var v := TopOnes(n, p);
      if p < n {
        assert Pow2(n - p) == 2 * Pow2(n - 1 - p);
        assert v == 2 * TopOnes(n - 1, p);
        OnesOfTopOnes(n - 1, p);
      } else {
        assert v == 2 * TopOnes(n - 1, p - 1) + 1;
        OnesOfTopOnes(n - 1, p - 1);
      }
    }
  }

  /// A prefix mask has as many one bits as its prefix length.
  lemma CountOnesOfPrefix(x: bv32, p: nat)
    requires p <= 32 && x as nat == TopOnes(32, p)
    ensures CountOnes(x) == p
  {
    OnesOfTopOnes(32, p);
  }

  /// `Display for RoutingItem`: `dest/ones-of-mask, nexthop: nexthop`.
  function Display(r: RoutingItem): string
  {
    AddrText(r.dest) + "/" + DecimalText(CountOnes(Ip2Hex(r.mask))) + ", nexthop: " + AddrText(r.nexthop)
  }

  /// For a prefix mask the text shows the prefix length after the slash.
  lemma DisplayPrefix(r: RoutingItem, p: nat)
    requires p <= 32 && Ip2Hex(r.mask) as nat == TopOnes(32, p)
    ensures Display(r) == AddrText(r.dest) + "/" + DecimalText(p) + ", nexthop: " + AddrText(r.nexthop)
  {
    CountOnesOfPrefix(Ip2Hex(r.mask), p);
  }
}
