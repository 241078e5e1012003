# rust-ospfd core, modelled in Dafny

This project models the sequential logic of `rust-ospfd`, an OSPFv2 daemon written in Rust with a
small C shim for the kernel routing table, and proves properties of that model. Clocks, sockets,
locks, terminal I/O and the kernel are parameters of the model; everything else is stated as
datatypes, functions, lemmas and, where the daemon changes state in place, classes and methods
with loop invariants.

The model is organised as the program is:

- **Kernel route table** (`kroute.dfy`, module `KernelRoute`). The C functions `add_route` and
  `delete_route` become a pure mapping from a route item to an `rtentry` record; the `ioctl`
  is an abstract kernel function. `get_route_table` is a loop over an `array` of C route items
  that reads `/proc/net/route` scan results; it reproduces the slot reuse for routes that are
  not up and the stale flags left by a line that reads only in part. The Rust bindings convert
  between `Ipv4Addr` and network-order words with `to_be()` on a little-endian host, map
  negative C results to errors, and render a route as text.
- **OSPF routing table** (`routing.dfy`, module `Routing`). Prefix arithmetic
  (`Ipv4AddrMask`), route preference (`better_than`), longest-prefix lookup, the external-route
  derivation of section 16.4 of RFC 2328, and `recalculate` with its kernel add/delete
  synchronisation, as a `RoutingTable` class over a map.
- **Shortest-path tree** (`spf.dfy`, module `Spf`). Dijkstra's algorithm over router,
  network and stub vertices (section 16.1 of RFC 2328), with the heap as a sequence of candidates
  and the router id as a parameter; next-hop calculation and the area routes the tree yields.
- **Wire codec** (`bits.dfy`, `decorator.dfy`, `lsa.dfy`, `packet.dfy`, `testvector.dfy`).
  The MSB-first bit reader and writer as classes; the code that `#[raw_packet]` generates
  (`to_bytes_mut`, `from_buf`, `Default`) stated once for any field layout and proved to
  round-trip; the LSA and packet layouts of appendices A.3 and A.4 of RFC 2328; and the Link
  State Update test vector of `packet.rs` encoded to its expected bytes and decoded back.
- **Helpers** (`util.dfy`, `rawhex.dfy`, `define.dfy`, `common.dfy`). `ip2hex`/`hex2ip` and the
  `hex!`/`ip2hex!` macros, the two copies of the `raw_hex!` decoder (`ospf-macros/src/decls.rs`
  and `src/macros.rs`), and the `#[define]` token-substitution attribute.
- **Link-state database** (`lsaview.dfy`, `lsdb.dfy`). The daemon's view of an LSA and its
  ageing; an area's database and the AS-external database shared by all areas, gated by the
  area's external routing capability, as classes `Area` and `ExternalDb`; the summary routes
  (`get_routing_external`) an area's tree yields.
- **Protocol state** (`neighbor.dfy`, `interface.dfy`, `flooding.dfy`, `genlsa.dfy`,
  `handler.dfy`, `capture.dfy`). Neighbour and interface records as classes; the flooding
  procedure of section 13.3 of RFC 2328 over the neighbours of each interface; router- and
  network-LSA origination with sequence numbering and the identical-instance rule; the
  acceptance checks and neighbour creation on packet receipt; the acknowledgment handler; and
  the capture filter.
- **Command line** (`command.dfy`, `lineedit.dfy`). The tokenizer and prefix-trie command
  matcher with help, bad and ambiguous outcomes; the line editor as a class editing a buffer at
  a cursor; and the main loop's history, bounded at 50 lines.

Where the code and its evident intent disagree, "## Findings" gives both halves: a member that
models the code as written with the input that shows the difference, and the corrected member.
The rest of the model follows the code as written, except for the members that "## Left out"
names as using a corrected version.

## Model

The table lists every member whose contract states something about the source. Functions that
only compute, with no contract of their own, are stated through the lemmas about them and have
no row: the encoders (`Lsa.HeaderToBytes` and the other `*ToBytes`, `Lsa.DataToBytes`,
`Lsa.U32FromBuf`, `Packet.*ToBytes`) through the round-trip lemmas `Lsa.*RoundTrip` and
`Packet.*RoundTrip`; `DecoratorCodec.PutField`, `PutFields`, `ToBytesMut` and `FromBuf` through
`DecoratorCodec.FromBufToBytes` and `EncodeAligned`; `Define.Process` and `Define.Parse` through
`Define.ProcessDefined`, `NotReprocessed`, `DuplicateKeepsLater` and `ParseLoop`;
`KernelRoute.CAddRoute` and `CDeleteRoute` through `KernelRoute.CallKernel`, `AddRoute` and
`DeleteRoute`; `Capture.CheckIp`, `HandlePacket` and `HandlePacketAsWritten` through
`Capture.DeliveredFrames`, `AllSpfRoutersFrameDelivered` and `AllSpfRoutersFrameDroppedAsWritten`;
`Routing.MaskOf`, `ToDelete` and `ToAdd` through `Routing.MaskLeadingOnes`, `SyncReachesNew`,
`NoChangeNoSync` and `KernelKey`; and the field lists `Lsa.SummaryDecls` and `Lsa.ExternalDecls`
through the `Lsa.*PadPanics` and `Lsa.*PadLayout` lemmas.

| member | source | states |
|---|---|---|
| Bits.BitReader.constructor | ospf-packet/src/bits.rs:37-43 | a reader over a buffer starts at bit 0 with every bit of the buffer unread |
| Bits.BitReader.GetUn | ospf-packet/src/bits.rs:45-64 | `get_un(n)` returns the value of the next `n` unread bits, most significant first, consumes exactly them and advances the bit cursor by `n` modulo 8; it fails exactly when fewer than `n` bits remain |
| Bits.BitReader.GetBytes | ospf-packet/src/bits.rs:46-52 | the byte-aligned path reads `n / 8` whole bytes as a big-endian number and leaves the cursor on a byte boundary |
| Bits.BitReader.GetBits | ospf-packet/src/bits.rs:53-63 | the bit-by-bit path returns the value of the next `n` bits and advances the cursor by `n` modulo 8 |
| Bits.BitReader.ReadBit | ospf-packet/src/bits.rs:56-60 | one step reads bit `7 - bit` of the current byte, loading a new byte on a boundary |
| Bits.BitWriter.constructor | ospf-packet/src/bits.rs:84-90 | a new writer has written nothing |
| Bits.BitWriter.PutUn | ospf-packet/src/bits.rs:92-111 | `put_un(val, n)` appends exactly the low `n` bits of `val`, most significant first, and advances the bit cursor by `n` modulo 8 |
| Bits.BitWriter.PutBytes | ospf-packet/src/bits.rs:93-99 | the byte-aligned path appends the `n / 8` big-endian bytes of the value |
| Bits.BitWriter.PutBits | ospf-packet/src/bits.rs:100-110 | the bit-by-bit path appends the low `n` bits of the value |
| Bits.BitWriter.PutBit | ospf-packet/src/bits.rs:103-108 | one step shifts one bit into the pending byte and emits the byte when it holds eight bits |
| Bits.BitWriter.ExtendFromSlice | ospf-packet/src/bits.rs:113-116 | on a byte boundary, whole bytes are appended unchanged |
| Bits.BitWriter.IntoBytes | ospf-packet/src/bits.rs:119-122 | the bytes handed out are the completed bytes; the pending bits of an unfinished byte are dropped |
| Bits.ValueOfBitsOf | ospf-packet/src/bits.rs:45-111 | reading `n` bits back after writing the `n`-bit encoding of a value that fits gives the value (the codec round trip for every field width) |
| Bits.BitsOfValueOf | ospf-packet/src/bits.rs:45-111 | writing back the value read from `n` bits gives the same bits (the other direction of the round trip) |
| Bits.ValueOfAppend | ospf-packet/src/bits.rs:48-62 | shifting in more bits multiplies the value read so far by 2 to the number of new bits and adds their value |
| Bits.BitsOfAt | ospf-packet/src/bits.rs:103 | bit `i` written is `(num >> (n - i)) & 1` |
| Bits.BitsOfLow | ospf-packet/src/bits.rs:101-104 | writing a value into an `n`-bit field writes it modulo 2^n |
| Bits.ShrDiv | ospf-packet/src/bits.rs:98 | a right shift by `k` is a division by 2^k |
| Bits.BigEndianBits | ospf-packet/src/bits.rs:180-218 | the `to_be_bytes` bytes of a number carry its bits most significant first |
| Bits.BigEndianValue | ospf-packet/src/bits.rs:220-248 | reading `k` big-endian bytes back gives the number when it fits in them |
| Bits.BitsToBytes | ospf-packet/src/bits.rs:119-122 | a whole number of octets of bits gives one byte per octet, each byte holding the value of its octet read most significant bit first |
| Bits.BitsToBytesOfBytesToBits | ospf-packet/src/bits.rs:119-122 | grouping the bits of a byte buffer into octets gives the buffer back |
| Bits.BytesToBitsOfBitsToBytes | ospf-packet/src/bits.rs:119-122 | splitting the octets of a whole number of bytes gives the bits back |
| Decorator.ParseU32 | ospf-macros/src/decorator.rs:51-55 | a width parses only when it fits in a `u32` |
| Decorator.ZeroAt | ospf-macros/src/decorator.rs:49 | the padding pattern anchored at a position captures a non-empty run of digits |
| Decorator.DataWidth | ospf-macros/src/decorator.rs:53 | the anchored integer pattern captures a non-empty run of digits |
| Decorator.VecAt | ospf-macros/src/decorator.rs:57 | the vector pattern captures a non-empty element type name |
| Decorator.DigitsOfZero | ospf-macros/src/decorator.rs:49-51 | whatever the unanchored padding search captures is all digits, so only the `u32` range can make its parse fail |
| Decorator.NoPadding | ospf-macros/src/decorator.rs:49-50 | a type text without a `P` never matches the padding pattern |
| Decorator.NoVector | ospf-macros/src/decorator.rs:57-58 | a type text without a `V` never matches the vector pattern |
| Decorator.Classify | ospf-macros/src/decorator.rs:20-64 | a field is classified only when it is public, and a vector keeps the `#[size]` attribute of its declaration |
| Decorator.FieldTuples | ospf-macros/src/decorator.rs:15-66 | the fields come out in declaration order, each with its own name and classification, and only for a struct with named fields |
| Decorator.ClassifyInteger | ospf-macros/src/decorator.rs:53-56 | a type `u<digits>` or `i<digits>` is a data field of that many bits, and the macro panics when the width overflows a `u32` |
| Decorator.ClassifyPadding | ospf-macros/src/decorator.rs:49-52 | `PhantomData<u<digits>>` is that many bits of padding, with the same overflow panic |
| Decorator.ClassifyVector | ospf-macros/src/decorator.rs:57-60 | `Vec<name>` is a vector of `name` sized by the field's `#[size]` attribute |
| Decorator.ClassifyAddress | ospf-macros/src/decorator.rs:61-63 | an `Ipv4Addr` field is an address field |
| Decorator.ClassifyWidths | ospf-macros/src/decorator.rs:49-56 | `u8`, `u16`, `u32` and `PhantomData<u8>` become fields of 8, 16, 32 and 8 padding bits |
| Decorator.ClassifyPrivate | ospf-macros/src/decorator.rs:23-25 | a field without `pub` makes the macro panic, whatever its type |
| Decorator.ClassifySuffixed | ospf-macros/src/decorator.rs:53-56 | a public type `u<digits>` or `i<digits>` followed by more text, such as `u24be`, is still a data field of the leading digits' width, as the unanchored-at-the-end pattern `^[ui](\d+)` matches, and is rejected when that width does not fit a `u32` |
| Decorator.TuplesCons | ospf-macros/src/decorator.rs:20-65 | a field the macro accepts, put in front of fields it accepts, is accepted together with them, its tuple coming first |
| Decorator.TuplesRejected | ospf-macros/src/decorator.rs:20-65 | one field the macro rejects, wherever it stands, makes the whole derive fail |
| Decorator.TuplesNeedNames | ospf-macros/src/decorator.rs:16-19 | a tuple or unit struct makes the macro panic |
| DecoratorCodec.IpOfOctetsOfIp | ospf-macros/src/decorator.rs:73-92 | an address read back from its four octets is the address |
| DecoratorCodec.TakeFromBuffer | ospf-macros/src/decorator.rs:92-110 | taking whole bytes from the reader's buffer removes exactly eight bits per byte |
| DecoratorCodec.GetField | ospf-macros/src/decorator.rs:88-93 | one declaration of the struct literal reads no more than what is left |
| DecoratorCodec.GetFields | ospf-macros/src/decorator.rs:125 | the struct literal yields one value per field and reads no more than what is left |
| DecoratorCodec.DecodeCount | ospf-macros/src/decorator.rs:107-115 | a sized vector decodes exactly `size` elements within the buffer |
| DecoratorCodec.DecodeUntilEmpty | ospf-macros/src/decorator.rs:97-105 | a vector without a size consumes the whole remaining buffer |
| DecoratorCodec.FillOne | ospf-macros/src/decorator.rs:95-116 | one vector assignment reads within the buffer |
| DecoratorCodec.FillVecs | ospf-macros/src/decorator.rs:94-126 | the assignments after the struct literal keep one value per field and read within the buffer |
| DecoratorCodec.FillSized | ospf-macros/src/decorator.rs:108-115 | the `for` loop over `s.size` computes the sized decoding, or the panic of an element decoder |
| DecoratorCodec.FillUntilEmpty | ospf-macros/src/decorator.rs:98-105 | the `while buf.has_remaining()` loop computes the decoding to the end of the buffer |
| DecoratorCodec.FromBufFits | ospf-macros/src/decorator.rs:86-131 | every value the generated decoder produces has its field's shape and fits its width, and it reads no more than the buffer |
| DecoratorCodec.GetFieldsFits | ospf-macros/src/decorator.rs:88-93 | the struct literal's values fit their fields |
| DecoratorCodec.FillVecsFits | ospf-macros/src/decorator.rs:94-120 | the vector assignments keep every value fitting its field |
| DecoratorCodec.DefaultValues | ospf-macros/src/decorator.rs:133-147 | the generated `Default` is 0 for integers, empty for vectors and the unspecified address, and fits every field |
| DecoratorCodec.ByteLayout | ospf-macros/src/decorator.rs:70-92 | a struct of whole-byte scalars never trips an alignment assertion and reads nothing to the end |
| DecoratorCodec.ByteLayoutThenVector | ospf-macros/src/decorator.rs:70-116 | whole-byte scalars followed by one vector form a valid layout, which reads to the end exactly when the vector has no size |
| DecoratorCodec.ScalarLayout | ospf-macros/src/decorator.rs:70-73 | scalars whose alignment assertions hold form a valid layout |
| DecoratorCodec.PutFieldsAligned | ospf-macros/src/decorator.rs:68-84 | under the alignment rule the encoder never panics and writes the fields' bits back to back, ending on a byte boundary |
| DecoratorCodec.EncodeAligned | ospf-macros/src/decorator.rs:68-84 | under the alignment rule the encoder succeeds and its bytes carry every field's bits |
| DecoratorCodec.ByteLayoutEncodes | ospf-macros/src/decorator.rs:68-84 | a whole-byte struct encodes as its fields in declaration order: integers big-endian, padding as zeros, vectors as their elements, addresses as four octets |
| DecoratorCodec.GetScalar | ospf-macros/src/decorator.rs:89-92 | one scalar field decodes to the value it was encoded from |
| DecoratorCodec.GetScalars | ospf-macros/src/decorator.rs:88-125 | the scalar fields decode to the values they were encoded from, leaving the bits after them |
| DecoratorCodec.GetVecs | ospf-macros/src/decorator.rs:91 | vector fields start empty in the struct literal and read nothing |
| DecoratorCodec.Ipv4Decodes | ospf-macros/src/decorator.rs:92 | an address field reads its four octets from the underlying buffer |
| DecoratorCodec.CountRoundTrip | ospf-macros/src/decorator.rs:72-115 | a sized vector decodes back to the encoded elements and consumes exactly their bytes |
| DecoratorCodec.UntilEmptyRoundTrip | ospf-macros/src/decorator.rs:72-105 | a vector without a size, as the last field, decodes back to its elements |
| DecoratorCodec.FillOneRoundTrip | ospf-macros/src/decorator.rs:95-116 | one vector assignment undoes the vector's encoding |
| DecoratorCodec.FillVecsRoundTrip | ospf-macros/src/decorator.rs:94-120 | the assignments after the struct literal put every encoded vector back |
| DecoratorCodec.DecodeScalarsFirst | ospf-macros/src/decorator.rs:125 | on an encoding followed by other bytes, the struct literal restores every scalar and stops at the vector bytes |
| DecoratorCodec.FromBufToBytes | ospf-macros/src/decorator.rs:68-131 | for a layout whose alignment assertions hold, whose vectors come last, whose size fields hold the vectors' lengths and whose element codecs round-trip, `from_buf(to_bytes(s))` is `s` and consumes exactly the encoding |
| Define.ProcessDefined | ospf-macros/src/define.rs:30-32 | an identifier that names a definition becomes exactly that definition's tokens |
| Define.ProcessKept | ospf-macros/src/define.rs:33-43 | an identifier naming no definition, a punctuation mark and a literal are kept |
| Define.ProcessGroup | ospf-macros/src/define.rs:37-42 | a group keeps its delimiter and has its contents processed |
| Define.ProcessAppend | ospf-macros/src/define.rs:26-46 | processing works token by token: a stream cut in two is processed part by part |
| Define.ProcessNoDefines | ospf-macros/src/define.rs:26-46 | with no definitions the item comes out unchanged at every depth |
| Define.ProcessFree | ospf-macros/src/define.rs:26-46 | a stream that uses none of the definitions comes out unchanged |
| Define.ProcessIdempotent | ospf-macros/src/define.rs:26-46 | when no definition uses another, processing twice is processing once and nothing left names a definition |
| Define.NotReprocessed | ospf-macros/src/define.rs:31-32 | replacement tokens are not processed again: with `a => b` and `b => c`, `a` becomes `b` |
| Define.ParseFrom | ospf-macros/src/define.rs:13-22 | a successful parse only adds keys to the map; an error is reported at a position inside the input |
| Define.ParseLoop | ospf-macros/src/define.rs:11-24 | the loop of `DefineAttr::parse` computes the parse: the map, or the first syntax error |
| Define.ParseRender | ospf-macros/src/define.rs:11-24 | a list of `name => expr` separated by `;` parses to the map that inserts them in order, with or without a final `;` |
| Define.InsertLast | ospf-macros/src/define.rs:17 | of several definitions of one name the last one wins |
| Define.InsertOther | ospf-macros/src/define.rs:17 | a name no definition uses keeps its entry or its absence |
| Define.DuplicateKeepsLater | ospf-macros/src/define.rs:17 | a second definition of the same name overrides the first |
| Define.MissingSemicolon | ospf-macros/src/define.rs:18-21 | two definitions with no `;` between them fail at the second identifier, where the `;` belongs |
| Util.Ip2Hex | ospfd/util.rs:17-19 | the word holds the address's octets, most significant first |
| Util.Hex2Ip | ospfd/util.rs:21-24 | `ip2hex` of the address `hex2ip` builds is the word it started from |
| Util.Hex2IpOfIp2Hex | ospfd/util.rs:17-24 | `hex2ip(ip2hex(ip)) == ip`: the conversions are inverse bijections |
| Util.Ip2HexInjective | ospfd/util.rs:17-19 | two addresses have the same word exactly when they are equal |
| Util.HexMacroIsIp2Hex | ospf-macros/src/decls.rs:27-31 | `ip2hex!(a, b, c, d)`, the four octets shifted into place and OR-ed together, is `ip2hex` of the address with those octets |
| Util.AddrLessTotal | ospfd/area/tree.rs:247-279 | distinct addresses are ordered one way or the other |
| Util.AddrLessTransitive | ospfd/area/tree.rs:247-279 | the address order is irreflexive and transitive |
| Util.AddrAnd | ospfd/database/routing.rs:111-116 | the octet-wise `&` of two addresses is the `&` of their words |
| Constants.AllSpfRoutersAsWrittenHex | ospfd/util.rs:31-35 | the declared AllSPFRouters converts to and from 0xf4000005, as the module's unit test expects |
| Constants.AllSpfRoutersAsWrittenIsNotTheRfcGroup | ospfd/constant.rs:16 | the declared constant 244.0.0.5 is not the RFC group 224.0.0.5 (0xe0000005) |
| Spf.NodeLessStrictTotal | ospfd/area/tree.rs:271-279 | the derived order on vertex addresses (router, then network, then stub; then the payload) is irreflexive, transitive and total |
| Spf.HopsLessStrictTotal | ospfd/area/tree.rs:247-249 | the derived lexicographic order on next-hop lists is irreflexive, transitive and total |
| Spf.BeforeStrictTotal | ospfd/area/tree.rs:247-249 | the max-heap order on candidates (distance reversed, then the network flag, the vertex, the hops) is a strict total order |
| Spf.PopIndex | ospfd/area/tree.rs:62-70 | the candidate popped is a greatest one: no other candidate precedes it, its distance is the smallest, and among equal distances it came from a transit network whenever any such candidate did |
| Spf.PopDetermined | ospfd/area/tree.rs:70 | two greatest candidates of one candidate list are the same candidate, so the pop is determined |
| Spf.LinkNode | ospfd/area/tree.rs:220-233 | a stub link leads to the stub prefix of its id and data, a transit link to the network of its id, a point-to-point or virtual link to the router of its id; any other link type has no vertex |
| Spf.LinksIntoSpec | ospfd/area/tree.rs:218-236 | a router-LSA's edges exist iff every link type is known; then their vertices are exactly the links' vertices, and each cost is that of the last link to the vertex |
| Spf.Lsa2Nodes | ospfd/area/tree.rs:215-245 | the edge map built link by link equals the specified adjacency of the LSA, `None` where the source reaches `unreachable!()` |
| Spf.FindTransit | ospfd/area/tree.rs:114-116 | the link found is a transit link of the LSA to the given network; none is found iff there is no such link |
| Spf.FindTransitFirst | ospfd/area/tree.rs:114-116 | the link found is the first matching link |
| Spf.CalcNexthop | ospfd/area/tree.rs:108-125 | a vertex inherits its parent's first hops when the parent has some; else a router reached from a network gets the data of its transit link to that network (or none); every other vertex gets none |
| Spf.ChildCandidate | ospfd/area/tree.rs:85-102 | a child becomes a candidate iff it is not yet in the tree and is a stub or links back to the parent; a stub's distance adds the parent's edge cost, another vertex's adds the larger of the two edge costs; the hops are those of `calc_nexthop` |
| Spf.Expand | ospfd/area/tree.rs:85-103 | the candidates pushed for a settled vertex are exactly its qualifying children, none nearer than the vertex |
| Spf.VertexOf | ospfd/area/tree.rs:37-46 | an LSA below MaxAge is a vertex, a router-LSA a router and a network-LSA a network, keyed by its link state id |
| Spf.VerticesInto | ospfd/area/tree.rs:35-47 | the vertex map keeps what it held and adds only vertices drawn from the LSAs |
| Spf.Vertices | ospfd/area/tree.rs:35-47 | each collected vertex is keyed by its own LSA's vertex, which is one of the area's LSAs, and is never a stub |
| Spf.AddStubs | ospfd/area/tree.rs:52-58 | every stub an edge leads to gains an entry holding the LSA of a vertex that links to it; the vertices already present keep their LSA |
| Spf.WithHopsKeeps | ospfd/area/tree.rs:72-76 | adding first hops to a vertex already in the tree keeps the tree's shape, listing, transit flag and distances |
| Spf.EnterKeeps | ospfd/area/tree.rs:79-84 | a vertex entering at a distance no smaller than the tree's keeps the tree's shape and listing and adds its V bit to the transit flag when it is expanded |
| Spf.Settle | ospfd/area/tree.rs:71-103 | the new tree is given case by case: a popped vertex already in the tree gains the candidate's hops when the distances are equal and is otherwise left alone; one without an LSA changes nothing; one with an LSA enters under its id at the candidate's distance and is appended to the settled order; a non-stub vertex with edges pushes exactly its qualifying children, none nearer, and adds its V bit to the transit flag; distances already settled never change |
| Spf.Round | ospfd/area/tree.rs:70-104 | one pop and settle keeps the search invariant (every vertex of the tree entered by a step from an earlier one at the sum of the costs, every queued candidate was pushed by a settled vertex at its distance plus the step's cost, every step out of the tree is covered by the tree or the queue within its cost) and either adds a vertex of the database or shrinks the queue |
| Spf.RoundKeeps | ospfd/area/tree.rs:70-104 | given what settling the popped candidate does, the new tree, order and queue satisfy the search invariant at the popped distance |
| Spf.RoundDerived | ospfd/area/tree.rs:79-80 | a vertex that enters the tree is at the distance of the settled vertex that pushed it plus the step between them, and the earlier vertices keep theirs |
| Spf.RoundPushed | ospfd/area/tree.rs:85-102 | the candidates left in the queue keep the settled vertex that pushed them, and each candidate the new vertex pushes is one step from it at its distance plus the step's cost |
| Spf.RoundClosed | ospfd/area/tree.rs:70-104 | every step out of a vertex of the tree stays covered by the tree or the queue within its cost: the popped vertex is in the tree within its distance, and the steps out of a new vertex are in the tree or pushed |
| Spf.RoundAtLeast | ospfd/area/tree.rs:70-102 | no candidate left in the queue, nor any the popped vertex pushes, is nearer than the popped candidate |
| Spf.RoundShrinks | ospfd/area/tree.rs:70-104 | a round either adds a vertex of the database to the tree or pushes nothing, so the loop ends |
| Spf.Search | ospfd/area/tree.rs:70-104 | the rounds of the loop run until the queue is empty and keep the search invariant |
| Spf.SearchEnds | ospfd/area/tree.rs:70-105 | with the queue empty the invariant gives the tree's shape, listing and transit flag, the router at distance 0, the path cost of every vertex, and the shortest path costs when the router has an LSA |
| Spf.PathTo | ospfd/area/tree.rs:79-102 | following the vertices that pushed each settled vertex back to the router gives a path from the router to it whose cost is its distance in the tree |
| Spf.DerivedReached | ospfd/area/tree.rs:79-102 | when every vertex entered by a step from an earlier one, every vertex of the tree is at the cost of a path from the router |
| Spf.ClosedShortest | ospfd/area/tree.rs:85-102 | when the queue is empty and every step out of the tree is covered, every path from the router ends in the tree at a distance no greater than its cost |
| Spf.Dijkstra | ospfd/area/tree.rs:60-104 | the loop leaves a tree with every vertex stored under its id with its LSA, listed once in order of distance, the transit flag the V bit of an expanded vertex, and the router itself at distance 0 when it has an LSA; every vertex of the tree is at the cost of some path from the router, and when the router has an LSA every path from it ends in the tree at a distance no greater than its cost, so the distances are the shortest path costs and every reachable vertex is in the tree |
| Spf.Calculate | ospfd/area/tree.rs:30-106 | the tree is `None` exactly where `lsa2nodes` panics on a vertex; otherwise it has the properties of the loop over the vertices built from the area's LSAs, and its distances are the shortest path costs over the edges those LSAs give |
| Spf.NodeRoute | ospfd/area/tree.rs:127-167 | a vertex gives an intra-area route unless it is a router without the E bit; the cost is its distance, the next hop its first hop or 0.0.0.0, and the route's key is the router or the masked network |
| Spf.NodeDest | ospfd/area/tree.rs:132-146 | a router's destination is its id with mask 0.0.0.0; a network's and a stub's is the masked prefix, which reads back as the same prefix |
| Spf.TreeRoutes | ospfd/area/tree.rs:127-167 | the routes collected are exactly the routes of the vertices visited |
| Routing.MaskLeadingOnes | ospfd/database/routing.rs:169-172 | the mask of a prefix length `p` has exactly `p` leading one bits, so `from` reads a prefix mask back as its length |
| Routing.MaskShift | ospfd/database/routing.rs:174-177 | for lengths 1 to 32 the mask is the all-ones word shifted left by `32 - p` |
| Routing.MasksNested | ospfd/database/routing.rs:174-177 | the mask of a shorter prefix lies within the mask of a longer one |
| Routing.From | ospfd/database/routing.rs:169-172 | `Ipv4AddrMask::from` keeps the address ANDed with the mask |
| Routing.FromPrefixMask | ospfd/database/routing.rs:169-172 | for a prefix mask of length `p`, `from` gives the masked address with length `p` |
| Routing.MaskAsWritten | ospfd/database/routing.rs:174-177 | `mask()` as written overflows its shift exactly at prefix length 0 and otherwise gives the mask of the length |
| Routing.NetworkOf | ospfd/database/routing.rs:179-181 | `network()` is the address under the prefix mask, and masking it again changes nothing |
| Routing.DefaultPrefix | ospfd/database/routing.rs:184-188 | the default prefix has mask and network 0.0.0.0 and covers every address |
| Routing.DefaultRouteMaskOverflows | ospfd/database/routing.rs:174-177 | an AS-external default route (mask 0.0.0.0) gives prefix length 0, where `mask()` as written overflows while the intended mask is 0.0.0.0 |
| Routing.KeyOfNetwork | ospfd/database/routing.rs:196-205 | the index of a route item built from a prefix's `network()` and `mask()` is that same network prefix |
| Routing.KeyOf | ospfd/database/routing.rs:196-205 | a network item is indexed by its prefix, a router item by its destination id |
| Routing.BetterThanAsWrittenNotAsymmetric | ospfd/database/routing.rs:234-244 | under `better_than` as written two entries of the same path type can each be better than the other |
| Routing.BetterThanStrictOrder | ospfd/database/routing.rs:234-244 | the intended route preference (path type, then type 2 cost, then cost) is irreflexive, asymmetric and transitive |
| Routing.BetterThanVersions | ospfd/database/routing.rs:234-244 | the written and intended preferences agree except when the type 2 costs of the same path type are equal or larger; a lower path type wins under both |
| Routing.TryFrom | ospfd/database/routing.rs:247-257 | only network entries convert to kernel routes, carrying destination, mask and next hop |
| Routing.Upsert | ospfd/database/routing.rs:30-38 | the upsert adds the item's key, leaves every other entry alone, inserts the item under a new key and replaces an existing entry only when the item is better |
| Routing.NotBetterKept | ospfd/database/routing.rs:30-38 | once an item is upserted, later upserts never leave an entry under its key that it is better than |
| Routing.UpsertAllBest | ospfd/database/routing.rs:28-54 | after a run of upserts no upserted item is better than the entry kept under its key |
| Routing.UpsertAllKeys | ospfd/database/routing.rs:28-54 | a run of upserts adds exactly the keys of the upserted items |
| Routing.UpsertAllKeeps | ospfd/database/routing.rs:28-54 | entries under keys no upserted item has are left as they were |
| Routing.UpsertAllKeyed | ospfd/database/routing.rs:28-54 | upserts keep every entry stored under its own key |
| Routing.ProbeAsWritten | ospfd/database/routing.rs:111-116 | the loop as written probes lengths from `p` down with the unmasked address: it returns the entry at the first length whose probe is in the table, and none iff no probe up to `p` hits |
| Routing.GetRoutingAsWritten | ospfd/database/routing.rs:111-116 | `get_routing` as written returns the entry of the longest length whose probe with the unmasked address is in the table, and none iff no such probe hits |
| Routing.LongestMatch | ospfd/database/routing.rs:111-116 | the length found is the longest up to `p` whose prefix containing the address is in the table; no length is found iff none is |
| Routing.GetRouting | ospfd/database/routing.rs:111-116 | the intended lookup returns the entry of a prefix containing the address, and finds none iff no prefix containing it is in the table |
| Routing.LookupMissesContainingPrefix | ospfd/database/routing.rs:111-116 | with only 10.0.0.0/24 in the table, the lookup as written misses 10.0.0.5 while the intended lookup finds the entry |
| Routing.Forwarding | ospfd/database/routing.rs:63-71 | the route forwards through the AS boundary router's entry for forwarding address 0.0.0.0, else through the entry `get_routing` as written finds for the forwarding address |
| Routing.ExternalRoute | ospfd/database/routing.rs:57-85 | an AS-external-LSA yields a route iff its metric is below LSInfinity, another router advertised it, the advertising router has an entry and `get_routing` as written finds a forwarding entry; the route is a backbone network route of type 1 (metric added to the cost) or type 2 (metric added to the type 2 cost), with the forwarding entry's next hop |
| Routing.ExternalsKeyed | ospfd/database/routing.rs:57-94 | processing the AS-external-LSAs keeps every entry under its key and drops no key |
| Routing.KernelKey | ospfd/database/routing.rs:196-205 | in a table keyed by index, the kernel route of a network entry determines its key |
| Routing.SyncReachesNew | ospfd/database/routing.rs:95-108 | deleting the routes to delete and adding the routes to add turns the old table's kernel routes into the new table's |
| Routing.NoChangeNoSync | ospfd/database/routing.rs:95-108 | a table recalculated to itself sends no delete and no add |
| Routing.Diff | ospfd/database/routing.rs:95-108 | the loop over a table emits exactly the kernel routes of its network entries that the other table does not hold, equal, under the same key |
| Routing.DeleteRouteWrapper | ospfd/database/routing.rs:144-151 | deleting succeeds iff the next hop is 0.0.0.0, the kernel call succeeds, or the kernel reports that no such route exists (errno 3); other errors are passed on |
| Routing.AddRouteWrapper | ospfd/database/routing.rs:132-142 | adding succeeds iff the next hop is 0.0.0.0, the first add succeeds, or it fails with "already exists" (errno 17) and both the delete and the second add succeed; any other error of the first add is passed on |
| Routing.UpsertEach | ospfd/database/routing.rs:28-54 | the loop upserting items in order leaves the table the upserts specify, with every entry under its key |
| Routing.ExternalEach | ospfd/database/routing.rs:57-94 | the AS-external loop leaves the table the external upserts specify, with every entry under its key |
| Routing.RoutingTable.constructor | ospfd/database/routing.rs:20-24 | a new routing table is empty |
| Routing.RoutingTable.Recalculate | ospfd/database/routing.rs:26-109 | the new table is the areas' routes, then their inter-area routes, then the AS-external routes, upserted into an empty table; the kernel deletes and adds are exactly those that move the old table's routes to the new one's |
| Routing.RoutingTable.DeleteAllRouting | ospfd/database/routing.rs:122-127 | every network route of the table is deleted from the kernel |
| KernelRoute.AddEntry | ospf-routing/src/routing.c:16-33 | the add request carries destination, gateway and mask as `AF_INET` addresses, the flags `RTF_UP` and `RTF_GATEWAY`, and the item's interface name as device |
| KernelRoute.DeleteEntry | ospf-routing/src/routing.c:45-58 | the delete request leaves the gateway unset |
| KernelRoute.DeleteIsAddWithoutGateway | ospf-routing/src/routing.c:11-63 | the delete request is the add request without the gateway, so a route is deleted by destination and mask whatever its next hop |
| KernelRoute.CallKernel | ospf-routing/src/routing.c:13-37 | the call returns -1 when no socket can be opened and otherwise the kernel's answer to the request |
| KernelRoute.Run | ospf-routing/src/routing.c:83-91 | the scan loop never counts past `size`, never writes a slot below the start or beyond the count, and never shrinks the count |
| KernelRoute.GetRouteTable | ospf-routing/src/routing.c:65-94 | the result is -1 when the route file cannot be opened, 0 when the header line meets the end, else a count between 0 and `size`; slots beyond the count or `size` are untouched |
| KernelRoute.GetRouteTableLoop | ospf-routing/src/routing.c:83-93 | the loop over the caller's array leaves the count and the array contents that the scan specification gives |
| KernelRoute.RunFull | ospf-routing/src/routing.c:83-91 | on a file whose lines all read in full, the loop collects the up routes in file order until `size` are held, and down routes leave no trace |
| KernelRoute.DownSlotReused | ospf-routing/src/routing.c:90 | a down route followed by an up route leaves one entry, the up route, in the first slot |
| KernelRoute.PartialLineKeepsStaleFlags | ospf-routing/src/routing.c:85-90 | a line that reads only in part keeps the previous line's flags, so after an up route it is counted with the gateway and mask its slot already held |
| KernelRoute.FirstReadErrorUsesGarbage | ospf-routing/src/routing.c:68-90 | when the first scan fails with a read error, the uninitialised flags decide whether the untouched first slot counts |
| KernelRoute.ToBeInvolution | ospf-routing/src/lib.rs:19-37 | `to_be` on a little-endian host is its own inverse |
| KernelRoute.NetworkOrder | ospf-routing/src/lib.rs:29-37 | `u32::from(ip).to_be()` lays the address out in memory in network order, first octet first |
| KernelRoute.SwappedBytes | ospf-routing/src/lib.rs:19-37 | the memory bytes of a swapped word are its bytes from most to least significant |
| KernelRoute.ToRaw | ospf-routing/src/lib.rs:29-37 | the C record holds each of destination, mask and next hop in network byte order |
| KernelRoute.RawRoundTrip | ospf-routing/src/lib.rs:19-37 | converting a route to the C record and back gives the route again, in both orders |
| KernelRoute.LinkLocalWord | ospf-routing/src/lib.rs:19-27 | the kernel's word 0x0064FEA9 reads as 169.254.100.0 |
| KernelRoute.ResultOf | ospf-routing/src/lib.rs:58-72 | the Rust wrapper fails exactly when the C call returns a negative value |
| KernelRoute.AddRoute | ospf-routing/src/lib.rs:58-64 | adding fails iff no socket opens or the kernel rejects the add request built from the route |
| KernelRoute.DeleteRoute | ospf-routing/src/lib.rs:66-72 | deleting fails iff no socket opens or the kernel rejects the delete request built from the route |
| KernelRoute.ZeroSlots | ospf-routing/src/lib.rs:75 | the buffer holds 128 zeroed items |
| KernelRoute.Converted | ospf-routing/src/lib.rs:80-83 | each slot is converted into a route by `From<routing_item_t>` |
| KernelRoute.RustGetRouteTable | ospf-routing/src/lib.rs:74-85 | the Rust call fails iff the route file cannot be opened, and otherwise lists at most 128 routes |
| KernelRoute.RustTableFull | ospf-routing/src/lib.rs:74-85 | when every line reads in full, the Rust call lists the first 128 up routes of the file in order |
| KernelRoute.DecimalText | ospf-routing/src/lib.rs:39-47 | a number's decimal text is non-empty and made of digits |
| KernelRoute.DecimalRoundTrip | ospf-routing/src/lib.rs:39-47 | reading a number's decimal text back gives the number |
| KernelRoute.OnesOfTopOnes | ospf-routing/src/lib.rs:44 | a mask whose top `p` bits are ones has `p` one bits |
| KernelRoute.CountOnesOfPrefix | ospf-routing/src/lib.rs:44 | a prefix mask has as many one bits as its prefix length |
| KernelRoute.DisplayPrefix | ospf-routing/src/lib.rs:39-47 | for a prefix mask the route's text is `dest/len, nexthop: hop` |
| Lsa.UintFromBuf | ospf-packet/src/bits.rs:220-248 | reading a `k`-byte integer takes exactly `k` bytes and gives a value below 2^(8k), and fails when the buffer runs dry |
| Lsa.U32RoundTrip | ospf-packet/src/bits.rs:180-248 | reading a `u32` back undoes writing it, whatever follows |
| Lsa.HeaderWellFormed | ospf-packet/src/lsa.rs:49-59 | the LSA header's derived layout is well formed and has no unsized field |
| Lsa.HeaderFromBuf | ospf-packet/src/lsa.rs:49-59 | the derived header decoder never takes more bytes than the buffer holds |
| Lsa.HeaderBytes | ospf-packet/src/lsa.rs:49-59 | the derived header encoder writes the 20-byte LSA header of appendix A.4.1 of RFC 2328, every field big-endian in declaration order |
| Lsa.HeaderRoundTrip | ospf-packet/src/lsa.rs:49-59 | decoding a header undoes encoding it and takes exactly 20 bytes, whatever follows |
| Lsa.HeadersRoundTrip | ospf-packet/src/lsa.rs:49-59 | the header codec round-trips every element of a header vector |
| Lsa.HeadersLength | ospf-packet/src/lsa.rs:49-59 | a vector of headers encodes to 20 bytes per header |
| Lsa.LinkFromBuf | ospf-packet/src/lsa.rs:115-122 | the derived link decoder never takes more bytes than the buffer holds |
| Lsa.LinkBytes | ospf-packet/src/lsa.rs:115-122 | a router link encodes to the 12 bytes of appendix A.4.2 of RFC 2328 (id, data, type, TOS count, metric) |
| Lsa.LinkRoundTrip | ospf-packet/src/lsa.rs:115-122 | decoding a link undoes encoding it and takes 12 bytes, whatever follows |
| Lsa.LinksRoundTrip | ospf-packet/src/lsa.rs:115-122 | the link codec round-trips every element of a link vector |
| Lsa.LinksLength | ospf-packet/src/lsa.rs:115-122 | a vector of links encodes to 12 bytes per link |
| Lsa.RouterWellFormed | ospf-packet/src/lsa.rs:82-88 | the router-LSA layout is byte-aligned and well formed, its link vector sized by `num_links` |
| Lsa.RouterFromBuf | ospf-packet/src/lsa.rs:82-88 | the router-LSA decoder never takes more bytes than the buffer holds |
| Lsa.RouterBytes | ospf-packet/src/lsa.rs:82-88 | a router-LSA body encodes to flags, link count and the links back to back, 4 + 12 bytes per link |
| Lsa.RouterSizes | ospf-packet/src/lsa.rs:85-87 | when `num_links` counts the links, the vector's size field agrees and every link round-trips |
| Lsa.RouterRoundTrip | ospf-packet/src/lsa.rs:82-88 | when `num_links` counts the links, decoding a router-LSA body undoes encoding it, whatever follows |
| Lsa.NetworkWellFormed | ospf-packet/src/lsa.rs:90-94 | the network-LSA layout is well formed and ends in a vector read to the end of the buffer |
| Lsa.NetworkFromBuf | ospf-packet/src/lsa.rs:90-94 | the network-LSA decoder never takes more bytes than the buffer holds |
| Lsa.NetworkBytes | ospf-packet/src/lsa.rs:90-94 | a network-LSA body encodes to the mask then one 4-byte router id per attached router (appendix A.4.3 of RFC 2328) |
| Lsa.U32sRoundTrip | ospf-packet/src/lsa.rs:93 | the `u32` codec round-trips every element of a `Vec<u32>` |
| Lsa.U32sLength | ospf-packet/src/lsa.rs:93 | a `Vec<u32>` encodes to 4 bytes per element |
| Lsa.NetworkRoundTrip | ospf-packet/src/lsa.rs:90-94 | decoding a network-LSA body undoes encoding it when nothing follows, since the router list reads to the end |
| Lsa.SummaryFromBuf | ospf-packet/src/lsa.rs:96-103 | the summary-LSA decoder never takes more bytes than the buffer holds |
| Lsa.SummaryBytes | ospf-packet/src/lsa.rs:96-103 | a summary-LSA body encodes to 12 bytes: mask, a zero byte, the 3-byte metric, the TOS and its 3-byte metric (appendix A.4.4 of RFC 2328) |
| Lsa.SummaryRoundTrip | ospf-packet/src/lsa.rs:96-103 | decoding undoes encoding, with both 24-bit metrics coming back modulo 2^24 |
| Lsa.ClassifyU8 | ospf-macros/src/decorator.rs:53-56 | a public `u8` field is 8 bits of data |
| Lsa.ClassifyU32 | ospf-macros/src/decorator.rs:53-56 | a public `u32` field is 32 bits of data |
| Lsa.ClassifyU24 | ospf-macros/src/decorator.rs:53-56 | a public `u24be` field is 24 bits of data |
| Lsa.ClassifyU1 | ospf-macros/src/decorator.rs:53-56 | a public `u1` field is 1 bit of data |
| Lsa.ClassifyU7Padding | ospf-macros/src/decorator.rs:49-52 | a public `PhantomData<u7>` field is 7 bits of padding |
| Lsa.ClassifyU8Padding | ospf-macros/src/decorator.rs:49-52 | a public `PhantomData<u8>` field is 8 bits of padding |
| Lsa.SummaryPrivatePadPanics | ospf-packet/src/lsa.rs:96-103 | as declared, with `_zeros` not public, the derive on `SummaryLSA` panics ("All fields must be public") |
| Lsa.SummaryPublicPadLayout | ospf-packet/src/lsa.rs:96-103 | with `_zeros` public, the declared fields give exactly the summary layout the codec uses: a 32-bit mask, 8 bits of padding, a 24-bit metric, an 8-bit TOS and a 24-bit TOS metric |
| Lsa.FiveFields | ospf-macros/src/decorator.rs:20-65 | five fields the macro accepts one by one are accepted together, in order |
| Lsa.ExternalWellFormed | ospf-packet/src/lsa.rs:105-113 | the AS-external layout is well formed: the 1-bit `e` and 7 padding bits complete a byte |
| Lsa.ExternalFromBuf | ospf-packet/src/lsa.rs:105-113 | the AS-external decoder never takes more bytes than the buffer holds |
| Lsa.ExternalBytes | ospf-packet/src/lsa.rs:105-113 | an AS-external body encodes to 16 bytes: the mask, a byte whose top bit is E, the 3-byte metric, forwarding address and route tag (appendix A.4.5 of RFC 2328) |
| Lsa.ExternalRoundTrip | ospf-packet/src/lsa.rs:105-113 | decoding undoes encoding, with `e` coming back modulo 2 and the metric modulo 2^24 |
| Lsa.ExternalPrivatePadPanics | ospf-packet/src/lsa.rs:105-113 | as declared, with `_zeros` not public, the derive on `AsExternalLSA` panics ("All fields must be public") |
| Lsa.ExternalPublicPadLayout | ospf-packet/src/lsa.rs:105-113 | with `_zeros` public, the declared fields give exactly the AS-external layout the codec uses: a 32-bit mask, the 1-bit `e`, 7 bits of padding, a 24-bit metric and two 32-bit fields |
| Lsa.SixFields | ospf-macros/src/decorator.rs:20-65 | six fields the macro accepts one by one are accepted together, in order |
| Lsa.LsType | ospf-packet/src/lsa.rs:36-43 | each body variant belongs to its LS type code 1 to 5 |
| Lsa.LsaToBytes | ospf-packet/src/lsa.rs:23-30 | an LSA encodes to its 20-byte header followed by its body |
| Lsa.DataFromBuf | ospf-packet/src/lsa.rs:36-43 | the body decoder chosen by the type code yields a body of that type and fails for a code outside 1 to 5 |
| Lsa.LsaFromBuf | ospf-packet/src/lsa.rs:32-47 | a decoded LSA has the header read first, a length of at least 20, a body of the header's type, and takes no more than the header plus `length - 20` bytes |
| Lsa.DataRoundTrip | ospf-packet/src/lsa.rs:36-80 | decoding a canonical body with its own type code undoes encoding it and takes all its bytes |
| Lsa.RouterDataRoundTrip | ospf-packet/src/lsa.rs:37 | a canonical router-LSA body round-trips through the type-1 decoder |
| Lsa.NetworkDataRoundTrip | ospf-packet/src/lsa.rs:38 | a network-LSA body round-trips through the type-2 decoder |
| Lsa.SummaryDataRoundTrip | ospf-packet/src/lsa.rs:39-40 | a canonical summary body round-trips through the type-3 and the type-4 decoder |
| Lsa.SummaryKept | ospf-packet/src/lsa.rs:100-102 | metrics within 24 bits survive the writer unchanged |
| Lsa.ExternalDataRoundTrip | ospf-packet/src/lsa.rs:41 | a canonical AS-external body round-trips through the type-5 decoder |
| Lsa.ExternalKept | ospf-packet/src/lsa.rs:108-110 | an `e` of 0 or 1 and a metric within 24 bits survive the writer unchanged |
| Lsa.LsaRoundTrip | ospf-packet/src/lsa.rs:23-47 | decoding a consistent LSA undoes encoding it and takes exactly its bytes, whatever follows |
| Lsa.LsasRoundTrip | ospf-packet/src/lsa.rs:23-47 | the LSA codec round-trips every element of a vector of consistent LSAs |
| Lsa.LsaRejects | ospf-packet/src/lsa.rs:35-42 | a header length below 20 and a type code outside 1 to 5 are decoding failures |
| Packet.HelloWellFormed | ospf-packet/src/packet.rs:31-42 | the hello layout is byte-aligned and well formed, ending in a neighbour vector read to the end |
| Packet.HelloFromBuf | ospf-packet/src/packet.rs:31-42 | the hello decoder never takes more bytes than the buffer holds |
| Packet.HelloBytes | ospf-packet/src/packet.rs:31-42 | a hello encodes to the 20-byte fixed part of appendix A.3.2 of RFC 2328, then one 4-byte router id per neighbour |
| Packet.HelloRoundTrip | ospf-packet/src/packet.rs:31-42 | decoding a hello undoes encoding it when nothing follows |
| Packet.HelloElems | ospf-packet/src/packet.rs:41 | every neighbour of a hello round-trips through the `u32` codec |
| Packet.DdWellFormed | ospf-packet/src/packet.rs:44-52 | the database description layout is well formed, ending in a header vector read to the end |
| Packet.DdFromBuf | ospf-packet/src/packet.rs:44-52 | the database description decoder never takes more bytes than the buffer holds |
| Packet.DdBytes | ospf-packet/src/packet.rs:44-52 | a database description encodes to MTU, options, flags byte and sequence number (appendix A.3.3 of RFC 2328), then 20 bytes per LSA header |
| Packet.DdRoundTrip | ospf-packet/src/packet.rs:44-52 | decoding a database description undoes encoding it when nothing follows |
| Packet.DdElems | ospf-packet/src/packet.rs:51 | every LSA header of a database description round-trips through the header codec |
| Packet.LsrByteFields | ospf-packet/src/packet.rs:54-60 | a link state request is three whole 32-bit fields and no vector |
| Packet.LsrFromBuf | ospf-packet/src/packet.rs:54-60 | the request decoder never takes more bytes than the buffer holds |
| Packet.LsrBytes | ospf-packet/src/packet.rs:54-60 | a request encodes to the 12-byte (type, id, advertising router) entry of appendix A.3.4 of RFC 2328 |
| Packet.LsrRoundTrip | ospf-packet/src/packet.rs:54-60 | decoding a request undoes encoding it and takes 12 bytes, whatever follows |
| Packet.LsuWellFormed | ospf-packet/src/packet.rs:62-68 | the update layout is well formed, its LSA vector sized by `num_lsa` |
| Packet.LsuFromBuf | ospf-packet/src/packet.rs:62-68 | the update decoder never takes more bytes than the buffer holds |
| Packet.LsuBytes | ospf-packet/src/packet.rs:62-68 | an update encodes to the 32-bit count then the LSAs back to back (appendix A.3.5 of RFC 2328) |
| Packet.LsuRoundTrip | ospf-packet/src/packet.rs:62-68 | when `num_lsa` counts the LSAs and each is consistent, decoding an update undoes encoding it, whatever follows |
| Packet.LsackWellFormed | ospf-packet/src/packet.rs:70-74 | the acknowledgement layout is a header vector read to the end |
| Packet.LsackFromBuf | ospf-packet/src/packet.rs:70-74 | the acknowledgement decoder never takes more bytes than the buffer holds |
| Packet.LsackBytes | ospf-packet/src/packet.rs:70-74 | an acknowledgement encodes to its headers back to back, 20 bytes each (appendix A.3.6 of RFC 2328) |
| Packet.LsackRoundTrip | ospf-packet/src/packet.rs:70-74 | decoding an acknowledgement undoes encoding it when nothing follows |
| Packet.FromPayload | ospf-packet/src/packet.rs:93-97 | the addressed packet keeps the given addresses and holds the decoded payload, and exists iff the payload decodes |
| Packet.HelloPayload | ospf-packet/src/packet.rs:83-97 | an encoded hello arrives unchanged between the addresses it was captured with |
| RawHex.DigitValue | ospf-macros/src/decls.rs:9 | a character is a base-16 digit iff it is `0-9`, `a-f` or `A-F`, and its value is below 16 |
| RawHex.PairValue | ospf-macros/src/decls.rs:9 | a pair parses iff its second character is a digit and its first a digit or a leading `+`; two digits give high nibble times 16 plus low nibble |
| RawHex.Decode | src/macros.rs:3-16 | a successful decode gives one byte per two characters, and an odd-length string is an error |
| RawHex.DecodePairs | ospf-macros/src/decls.rs:7-14 | byte `i` of a successful decode is the value of the pair at characters `2i` and `2i+1` |
| RawHex.DecodeOk | ospf-macros/src/decls.rs:7-14 | the decode succeeds exactly on even-length strings whose every pair parses |
| RawHex.Digit | ospf-macros/src/decls.rs:9 | the lower-case digit written for a nibble parses back to the nibble |
| RawHex.Encode | ospf-macros/src/decls.rs:7-14 | hexadecimal text has two characters per byte |
| RawHex.DecodeEncode | ospf-macros/src/decls.rs:7-14 | decoding undoes hexadecimal encoding |
| RawHex.DecodePairAt | ospf-macros/src/decls.rs:7-12 | one decoded pair in front of a decoded rest is one more byte in front |
| RawHex.DecodeQuad | ospf-macros/src/decls.rs:7-14 | four parsing pairs decode to their four bytes |
| RawHex.DecodeAppend | ospf-macros/src/decls.rs:7-14 | decoding a concatenation whose first part decodes continues with the second part, its error positions shifted |
| RawHex.DecodeConcat | ospf-macros/src/decls.rs:7-14 | two texts that decode decode, one after the other, to their bytes one after the other |
| RawHex.JoinedStep | ospf-macros/src/decls.rs:8-12 | each loop step panics at a dangling character or a bad pair, or moves one byte from the rest to the bytes done |
| RawHex.DecodeLoop | ospf-macros/src/decls.rs:3-16 | the macro's loop computes the decode: the bytes, or the first panic |
| PacketExample.LinksBytes | ospf-packet/src/packet.rs:155-170 | a vector of links encodes field by field, link after link |
| PacketExample.RouterUpdateBytes | ospf-packet/src/packet.rs:138-173 | any update of one router-LSA encodes field by field: count, header, flags and link count, links |
| PacketExample.ExampleHeaderWire | ospf-packet/src/packet.rs:142-151 | the test's header encodes to its 20 expected octets |
| PacketExample.ExampleLinksWire | ospf-packet/src/packet.rs:155-170 | the test's two links encode to their 24 expected octets |
| PacketExample.StubLinkWire | ospf-packet/src/packet.rs:156-162 | the test's stub link encodes to its 12 octets |
| PacketExample.TransitLinkWire | ospf-packet/src/packet.rs:163-169 | the test's transit link encodes to its 12 octets |
| PacketExample.CountAndFlagsWire | ospf-packet/src/packet.rs:140-154 | the count 1 and the flags 0 with two links encode to their octets |
| PacketExample.ExampleWire | ospf-packet/src/packet.rs:138-173 | at the test's field values the field-by-field layout gives the expected octets |
| PacketExample.ExampleHex | ospf-packet/src/packet.rs:174 | the test's assertion: the update encodes to what `raw_hex!` makes of the test's string |
| PacketExample.HeaderHexDecodes | ospf-packet/src/packet.rs:174 | the header part of the test's string decodes to the header octets |
| PacketExample.LinkHexDecodes | ospf-packet/src/packet.rs:174 | the link part of the test's string decodes to the link octets |
| PacketExample.Then | ospf-macros/src/decls.rs:7-14 | a decoded text followed by eight more digits decodes to four more bytes |
| PacketExample.ExampleDecodes | ospf-packet/src/packet.rs:137-175 | the expected octets decode back to the test's update, whose length counts its 48 octets and whose link count its two links |
| LsaView.IndexOf | ospfd/handler/lsr.rs:17 | an LSA's index is the type, link state id and advertising router of its header |
| LsaView.Elapsed | ospfd/area/lsa.rs:48 | the seconds elapsed since the timer's creation, none for an instant not yet reached |
| LsaView.AgedHeader | ospfd/area/lsa.rs:47-51 | the aged header keeps every field but the age, which is the stored age plus the seconds elapsed, held at MaxAge |
| LsaView.AgedLsa | ospfd/area/lsa.rs:42-45 | ageing an LSA changes its header's age only |
| LsaView.AgeMonotone | ospfd/area/lsa.rs:47-51 | more elapsed seconds never make an LSA younger |
| LsaView.AgeCompose | ospfd/area/lsa.rs:47-51 | ageing in two steps is ageing by the sum, for a header not past MaxAge |
| LsaView.MaxAgeSticks | ospfd/area/lsa.rs:49 | a header at MaxAge stays at MaxAge |
| AreaDb.Aged | ospfd/area/mod.rs:68 | an entry read at `now` keeps its index, body and times, its header aged by the time since its timer was created |
| AreaDb.LookupAsWritten | ospfd/area/mod.rs:64-69 | `m_get_lsa` as written finds nothing in an area without external routing capability; in a capable one it finds the area's entry first, then the shared one, aged |
| AreaDb.Lookup | ospfd/area/mod.rs:64-69 | the intended lookup finds an entry iff the area contains the index (its own database, or the shared one while capable), the area's entry first, aged |
| AreaDb.LookupAgreesWhenCapable | ospfd/area/mod.rs:56-69 | in a capable area the written and intended lookups agree |
| AreaDb.LookupAsWrittenMissesAreaLsa | ospfd/area/mod.rs:67 | in an area without external routing capability the written lookup misses the area's own LSA, which the intended lookup finds |
| AreaDb.NeedUpdateFrom | ospfd/area/mod.rs:119-128 | no update is needed exactly when a stored copy's header is at least as recent as the given one |
| AreaDb.NeedUpdateAsWrittenInStubArea | ospfd/area/mod.rs:119-134 | in a stub area `need_update` as written always says yes, so `insert_lsa` accepts an older instance over a newer one the intended check rejects |
| AreaDb.Insert | ospfd/area/mod.rs:71-81 | the LSA is stored under its header's index with fresh times: in the shared database for an AS-external LSA of a capable area, in the area's own otherwise |
| AreaDb.InsertKeepsShape | ospfd/area/mod.rs:71-81 | inserting keeps both databases indexed by header and AS-external LSAs in the shared one only |
| AreaDb.InsertThenLookup | ospfd/area/mod.rs:64-81 | a lookup right after an insert finds the new LSA, aged by no time |
| AreaDb.InsertKeepsOthers | ospfd/area/mod.rs:71-81 | an insert leaves the lookup of every other index unchanged |
| AreaDb.NoUpdateAfterInsert | ospfd/area/mod.rs:119-134 | after inserting an LSA no update is needed for its own header |
| AreaDb.MaxAgeOrYounger | ospfd/area/lsa.rs:47-51 | ageing by no time changes nothing in a header not past MaxAge |
| AreaDb.Remove | ospfd/area/mod.rs:83-87 | the entry leaves the area's database if there, else the shared one while the area is capable; an absent index changes nothing |
| AreaDb.RemoveThenAbsent | ospfd/area/mod.rs:83-93 | after a removal the area no longer contains the index |
| AreaDb.RemoveKeepsOthers | ospfd/area/mod.rs:83-87 | a removal leaves the lookup of every other index unchanged |
| AreaDb.InsertThenRemove | ospfd/area/mod.rs:71-87 | removing what was just inserted gives back both databases without that index |
| AreaDb.MarkSent | ospfd/area/mod.rs:141-147 | the entry the area sees under the index, the area's first, gets `now` as its send time; nothing else changes |
| AreaDb.MarkSentOnlyTime | ospfd/area/mod.rs:141-147 | marking an LSA sent keeps what the area contains and every other index's lookup, and changes only the send time of the marked entry |
| AreaDb.FreshHeader | ospfd/area/mod.rs:104 | the header listed for an entry is its aged header |
| AreaDb.Headers | ospfd/area/mod.rs:101-105 | the headers listed are exactly the aged headers of the entries that have not reached MaxAge |
| AreaDb.AllHeaders | ospfd/area/mod.rs:100-117 | `get_all_lsa` lists a header iff it is below MaxAge and the aged header of an area entry or, while capable, of a shared entry |
| AreaDb.SummaryRouteFrom | ospfd/area/tree.rs:169-204 | a header gives an inter-area route iff it is a summary of another router, below MaxAge and found, its metric below LSInfinity, its border router in the tree with a next hop, and for a type 4 the area is capable; cost is the border router's distance plus the metric, next hop its first hop |
| AreaDb.SummaryDest | ospfd/area/tree.rs:182-188 | a type 3 summary's destination is its masked network, a type 4's the router named by its link state id with mask 0.0.0.0 |
| AreaDb.SummaryRoutes | ospfd/area/tree.rs:169-204 | the routes collected are exactly the inter-area routes of the listed headers, each summary fetched through `m_get_lsa` as written |
| AreaDb.SummaryRoutesAsWrittenInStubArea | ospfd/area/tree.rs:176 | in an area without external routing capability the written lookup makes every summary header yield no route |
| AreaDb.AgedLsas | ospfd/area/tree.rs:33-34 | the LSAs the tree reads are the database entries in order, aged as the lookup ages them |
| AreaDb.HasVertexExists | ospfd/area/tree.rs:37-46 | the fetched LSAs include a vertex iff some LSA among them is a router- or network-LSA below MaxAge |
| AreaDb.TreeLookupAsWrittenFailsInStubArea | ospfd/area/tree.rs:34 | in an area without external routing capability the lookup of a vertex LSA as written finds nothing, while the intended lookup returns that very LSA |
| AreaDb.ExternalDb.constructor | ospfd/area/mod.rs:24-28 | the shared AS-external database starts empty |
| AreaDb.Area.constructor | ospfd/area/mod.rs:42-52 | a new area has the given id, empty ranges, database and tree, external routing capability, no transit capability, stub default cost 0 |
| AreaDb.Area.GetLsa | ospfd/area/mod.rs:95-98 | `get_lsa` through `m_get_lsa` as written finds nothing in an area without external routing capability; in a capable area it finds an entry iff `contains_lsa` holds |
| AreaDb.Area.InsertLsa | ospfd/area/mod.rs:130-134 | an LSA for which `need_update` as written says yes is stored as `m_insert_lsa` does; the databases stay well shaped, the intended lookup then finds it aged by no time, and in a capable area `get_lsa` returns it |
| AreaDb.Area.RemoveLsa | ospfd/area/mod.rs:136-139 | the entry is removed as `m_remove_lsa` does, and the area no longer contains the index |
| AreaDb.Area.CalculateTree | ospfd/area/tree.rs:30-106 | `calculate` fails in an area without external routing capability as soon as one of its LSAs is a vertex (the lookup as written is unwrapped), and wherever `lsa2nodes` panics; otherwise the transit capability is the V bit of an expanded vertex, the router itself sits at distance 0, and the tree's distances are the shortest path costs over the edges of the aged LSAs |
| AreaDb.Area.TreeOf | ospfd/area/tree.rs:35-106 | from the fetched LSAs the tree fails iff `lsa2nodes` panics on a vertex; otherwise the transit capability becomes the V bit of an expanded vertex, the router itself sits at distance 0, and the tree's distances are the shortest path costs over the LSAs' edges |
| AreaDb.Area.LsaHasSent | ospfd/area/mod.rs:141-147 | the send time of the entry under the LSA's index becomes `now`, and the databases stay well shaped |
| Neighbors.StateRank | ospfd/neighbor/state.rs:3-11 | the declaration order of the eight neighbour states; rank 0 is exactly Down |
| Neighbors.AtLeastExchange | ospfd/neighbor/state.rs:3-11 | a state is at least Exchange exactly when it is Exchange, Loading or Full |
| Neighbors.CacheOf | ospfd/neighbor/mod.rs:112-121 | the cached DD packet keeps the sequence number and reads each non-zero flag as set |
| Neighbors.CacheOfSame | ospfd/neighbor/mod.rs:104-121 | two DD packets give the same cache iff they agree on the sequence number and on which of I, M, MS are set |
| Neighbors.Neighbor.constructor | ospfd/neighbor/mod.rs:47-66 | a new neighbour is Down, slave, sequence 0, with no DR or BDR, empty lists and nothing to retransmit |
| Neighbors.Neighbor.Reset | ospfd/neighbor/mod.rs:68-75 | sequence 0, no DD retransmission, all three lists empty; every other snapshot field (state, master, ids, priority, DR, BDR) unchanged |
| Neighbors.Neighbor.ResetDdRxmt | ospfd/neighbor/mod.rs:94-96 | the pending DD retransmission becomes None and nothing else changes |
| Neighbors.Neighbor.SetDdRxmt | ospfd/neighbor/mod.rs:98-101 | the pending DD retransmission becomes the given one and nothing else changes |
| Neighbors.Neighbor.Snapshot | ospfd/neighbor/mod.rs:148-163 | every plain field copied verbatim, so the snapshot's DR and BDR tests agree with the neighbour's |
| Interfaces.Interface.constructor | ospfd/interface/mod.rs:67-100 | the defaults: broadcast, Down, hello 10, dead 40, delay 1, priority 1, rxmt 1, cost 0, no DR or BDR, no neighbours |
| Interfaces.Interface.Reset | ospfd/interface/mod.rs:144-150 | both timers off, DR and BDR 0.0.0.0, cost 0, nothing else changes; an addressed interface is then DROther |
| Interfaces.Interface.ShrinkNeighbors | ospfd/interface/mod.rs:135-138 | exactly the neighbours not in Down remain, each under its old key and unchanged |
| Flooding.SwapRemoveBack | ospfd/flooding.rs:54 | removing an entry by `swap_remove_back` takes out exactly that entry, moves the last one into its place and leaves the others where they were |
| Flooding.Position | ospfd/flooding.rs:44-48 | the first request-list entry that is an instance of the LSA, or none iff no entry is |
| Flooding.FloodNeighbor | ospfd/flooding.rs:40-70 | a neighbour below Exchange is untouched; the LSA joins the retransmission list iff the neighbour is at least Exchange, asked for no newer instance and is not the sender; a matching request for the same or an older instance is removed |
| Flooding.FloodNeighborNeverBack | ospfd/flooding.rs:66-68 | the neighbour the LSA came from never gets it on its retransmission list, and no retransmission list loses an entry |
| Flooding.FloodNeighborStep | ospfd/flooding.rs:41-69 | the loop body on one neighbour leaves its request and retransmission lists, and reports the LSA added, exactly as step (1) of section 13.3 of RFC 2328 specifies them for its state, address and lists before the step |
| Flooding.FloodStep | ospfd/flooding.rs:40-70 | one turn of the loop takes the next neighbour through step (1), leaves the neighbours already visited and those still to come as they were, and reports whether that neighbour got the LSA |
| Flooding.FloodAll | ospfd/flooding.rs:40-70 | after the loop every neighbour holds its step-(1) outcome and `success` is true iff some neighbour gained the LSA |
| Flooding.FloodNeighbors | ospfd/flooding.rs:38-70 | step (1) over the interface's neighbour map: every neighbour, looked up by key, ends with its step-(1) lists and its roles unchanged, and `success` is true iff some neighbour needed the LSA |
| Flooding.SentCopy | ospfd/flooding.rs:87-89 | the copy sent out is the LSA aged by the interface's transmission delay, held at MaxAge |
| Flooding.Decide | ospfd/flooding.rs:71-100 | nothing is sent unless some neighbour gained the LSA; an LSA that arrived here is not sent when its sender is DR or BDR or this router is BDR, and a missing sender panics; otherwise the aged copy goes to AllDRouters from a DROther and otherwise to AllSPFRouters as the constant is declared (244.0.0.5) |
| Flooding.FloodOn | ospfd/flooding.rs:37-101 | every neighbour ends with its step-(1) lists and unchanged roles, and the result is the interface decision on whether any neighbour needed the LSA, sent to AllSPFRouters as declared (244.0.0.5) where the decision multicasts |
| Flooding.FloodInterface | ospfd/flooding.rs:20-31 | the neighbours' roles never change; an interface that is not eligible keeps its neighbours' lists and reports nothing flooded; an eligible one ends with every neighbour's step-(1) lists and reports the decision of `flooding_on` taken on its neighbours as they were before |
| Flooding.FloodAt | ospfd/flooding.rs:29-33 | flooding on one interface gives its outcome from its neighbours as they were, leaves it with its step-(1) lists when eligible and its old lists otherwise, and changes no role and no other interface's lists |
| Flooding.FloodNext | ospfd/flooding.rs:29-33 | one turn of the loop over the interfaces extends the outcomes so far by the next interface's, and every interface visited so far holds the lists its outcome gives |
| Flooding.FloodLoop | ospfd/flooding.rs:29-34 | the loop visits the interfaces in order, stops only after an interface with no sender neighbour (the panic), and otherwise reports whether any interface flooded |
| Flooding.Flood | ospfd/flooding.rs:16-35 | every visited interface reports its own outcome from its neighbours as they were before and ends with its step-(1) lists if eligible, its old lists if not; no roles change; interfaces after a panic keep their lists; the result is a panic iff the last visited interface had no neighbour under the sender's address, and otherwise covers every interface and is true iff one of them flooded |
| GenLsa.ViewsOf | ospfd/gen_lsa.rs:26-27 | one view per interface, in iteration order, holding the fields the link builder reads |
| GenLsa.LinkStep | ospfd/gen_lsa.rs:27-58 | an interface outside the area, Down or Loopback adds nothing; a non-broadcast, non-NBMA one panics; a Waiting one adds its stub link; otherwise the transit link is added iff the router is DR with a neighbour or Full with the DR |
| GenLsa.RouterLinks | ospfd/gen_lsa.rs:26-60 | the router-LSA's links, in interface order, at most one per interface, or a panic |
| GenLsa.RouterLinksPanic | ospfd/gen_lsa.rs:32 | the builder panics exactly when some described interface has a network type it does not handle |
| GenLsa.RouterLinksMembers | ospfd/gen_lsa.rs:26-60 | a link is in the router-LSA exactly when some interface contributes it |
| GenLsa.InterfaceLinkPresent | ospfd/gen_lsa.rs:34-58 | every Waiting interface of the area has its stub link in the LSA, and every other one that is DR with a neighbour or Full with the DR its transit link |
| GenLsa.LinksFromDescribed | ospfd/gen_lsa.rs:27-30 | every link is the stub or transit link of an interface in the area that is neither Down nor Loopback |
| GenLsa.BuildLinks | ospfd/gen_lsa.rs:26-60 | the push loop over the interfaces yields exactly the specified link list, or the panic |
| GenLsa.RouterBody | ospfd/gen_lsa.rs:19-61 | B iff more than one area, E iff there are external routes, no V, and `num_links` the link count truncated to 16 bits |
| GenLsa.NextSequenceNumber | ospfd/gen_lsa.rs:112-116 | InitialSequenceNumber with no installed copy, else one more than the installed copy's; a panic iff the installed copy has MaxSequenceNumber |
| GenLsa.NewHeader | ospfd/gen_lsa.rs:95-107 | age 0, the given index and sequence number, and the E option bit set iff the interface routes externally, no other option |
| GenLsa.Originate | ospfd/gen_lsa.rs:95-133 | a panic iff the installed copy has MaxSequenceNumber; suppressed iff the installed copy passes the identity test; otherwise the installed instance has the given body and index, age 0, E iff external routing and a sequence number above the installed one (Initial when none) |
| GenLsa.GenLsaImpl | ospfd/gen_lsa.rs:86-133 | the template with the identity test "younger than LSRefreshTime and the same body" |
| GenLsa.StubAreaReoriginationRestarts | ospfd/gen_lsa.rs:108-116 | in an area without external routing capability the previous instance is looked up through `m_get_lsa` as written, which misses it, so re-origination installs a new instance at InitialSequenceNumber and is never suppressed |
| GenLsa.ReoriginationSuppressed | ospfd/gen_lsa.rs:121-126 | an instance once installed suppresses its own re-origination with the same body for LSRefreshTime seconds |
| GenLsa.RefreshAfterLsRefreshTime | ospfd/gen_lsa.rs:121-126 | an installed copy as old as LSRefreshTime never suppresses the new instance |
| GenLsa.ChangedBodyInstalled | ospfd/gen_lsa.rs:121-132 | a changed body is always installed unless the sequence number is exhausted |
| GenLsa.RouterOrigination | ospfd/gen_lsa.rs:17-64 | a panic iff the link builder panics; an installed router-LSA is typed, indexed by the router id twice and carries the area's links and B/E bits |
| GenLsa.GenRouterLsa | ospfd/gen_lsa.rs:17-64 | the method over the interfaces computes exactly the router origination of their views |
| GenLsa.FullRouterIds | ospfd/gen_lsa.rs:70-75 | the Full neighbours' router ids in iteration order, at most one per neighbour |
| GenLsa.FullRouterIdsMembers | ospfd/gen_lsa.rs:70-75 | an id is listed exactly when a Full neighbour has it |
| GenLsa.FullRouterIdsEmpty | ospfd/gen_lsa.rs:74 | the list is non-empty exactly when some neighbour is Full |
| GenLsa.NetworkLsaContents | ospfd/gen_lsa.rs:66-79 | a network-LSA is built exactly when the router is DR with a Full neighbour; it lists the router itself last and otherwise exactly the Full neighbours' ids, under the interface mask |
| GenLsa.NetworkOrigination | ospfd/gen_lsa.rs:66-83 | a network-LSA origination happens iff one is built; an installed one has link-state id the interface address and advertising router the router id |
| GenLsa.RouterOriginationEarlier | ospfd/gen/router.rs:19-101 | the earlier router-LSA generator: same panic condition, header and links, but any installed copy with the same body suppresses the new one |
| GenLsa.EarlierSuppressesMore | ospfd/gen/router.rs:89-95 | whatever the current generator suppresses the earlier one suppresses too, and both install the same instance when both install |
| GenLsa.EarlierNeverRefreshes | ospfd/gen/router.rs:89-95 | the earlier generator never refreshes an unchanged router-LSA, however old the installed copy |
| Handler.KindOf | ospfd/handler/mod.rs:68-82 | message types 1 to 5 name the five packet kinds, type 5 the acknowledgment; any other type is unknown |
| Handler.ScreenPacket | ospfd/handler/mod.rs:30-56 | dropped iff the checksum test fails, the version is not 2 or the area is not accepted, or it is sent to AllDRouters on a DROther interface; otherwise an authentication type other than 0 panics and type 0 proceeds |
| Handler.BackboneOnlyViaDrOrBdr | ospfd/handler/mod.rs:45-49 | a packet claiming the backbone passes the area check on a non-backbone interface iff the router is DR or BDR there; the interface's own area always passes |
| Handler.AllDRoutersNeedsDrOrBdr | ospfd/handler/mod.rs:50-52 | a DROther interface drops every packet sent to AllDRouters; one that proceeds under some role proceeds when DR too |
| Handler.NeighborKey | ospfd/handler/mod.rs:57-62 | the neighbour is keyed by router id on point-to-point and virtual links and by source address otherwise; the pair is the source and router id in some order |
| Handler.InsertNeighbor | ospfd/handler/mod.rs:63-66 | the key ends up present; an existing neighbour is kept as it is, an absent one is created Down with that address and router id; no other entry changes |
| Handler.OspfHandle | ospfd/handler/mod.rs:43-83 | a screened-out packet leaves the neighbours alone; one that proceeds is dispatched under its neighbour key to the handler of its type, the neighbour created only if absent |
| Handler.WithoutAcked | ospfd/handler/ack.rs:9-11 | removing the acknowledged headers one by one leaves the list minus exactly the acknowledged indices |
| Handler.AcksCommute | ospfd/handler/ack.rs:9-11 | acknowledging is idempotent and the order of acknowledgment packets does not matter |
| Handler.HandleAck | ospfd/handler/ack.rs:7-12 | below Exchange nothing changes; otherwise exactly the acknowledged indices leave the retransmission list and nothing else of the neighbour changes |
| Capture.Ipv4Only | ospfd/capture.rs:52-62 | the interface's IPv4 addresses in listed order, never more than were listed |
| Capture.Ipv4OnlyMembers | ospfd/capture.rs:52-62 | an address is kept exactly when it is listed as IPv4 |
| Capture.Ipv4OnlyKeepsV4 | ospfd/capture.rs:55-61 | a list of IPv4 addresses alone is kept as it is, in order |
| Capture.HandlePacketWith | ospfd/capture.rs:83-109 | only IPv4 OSPF frames whose source fails and whose destination passes the address check reach the handler, with source, destination and payload unchanged; a payload shorter than the OSPF header panics |
| Capture.DeliveredFrames | ospfd/capture.rs:79-101 | an OSPF frame is delivered exactly when its source fails and its destination passes the address check; a frame from one of the router's own addresses never is |
| Capture.AllSpfRoutersFrameDroppedAsWritten | ospfd/constant.rs:16 | with AllSPFRouters declared as 244.0.0.5, a frame to 224.0.0.5 from a neighbour is ignored unless 224.0.0.5 is an interface address |
| Capture.AllSpfRoutersFrameDelivered | ospfd/capture.rs:79-101 | with 224.0.0.5 as AllSPFRouters, the same frame is delivered when long enough and sent from a foreign address |
| Command.TrimStart | ospfd/command.rs:133 | the input from its first non-whitespace character on: only whitespace is cut, and what remains does not start with whitespace |
| Command.TrimEnd | ospfd/command.rs:133 | the input up to its last non-whitespace character: only whitespace is cut, and what remains does not end with whitespace |
| Command.TrimEmpty | ospfd/command.rs:492 | trimming leaves nothing exactly when the line is all whitespace |
| Command.LowerChar | ospfd/command.rs:133 | ASCII capitals become lower case, every other character is kept, and ASCII whitespace stays whitespace |
| Command.Lower | ospfd/command.rs:133 | lower-casing keeps the length and maps each character on its own |
| Command.WordLength | ospfd/command.rs:134 | the leading run of non-whitespace characters, ended by whitespace or the end of the input |
| Command.SplitWords | ospfd/command.rs:134 | every token is non-empty and holds no ASCII whitespace |
| Command.SplitSpells | ospfd/command.rs:134 | the tokens, concatenated, spell the input with its ASCII whitespace removed |
| Command.TrieKeys | ospfd/command.rs:46-64 | the trie holds exactly the description keys that do not start with `<` |
| Command.Matches | ospfd/command.rs:146 | the trie keywords the token is a prefix of, and no others |
| Command.StripQuestion | ospfd/command.rs:141-145 | the help flag is set iff the token ends in `?`, and the stripped token plus that `?` gives the token back |
| Command.StepOn | ospfd/command.rs:136-166 | a step either moves to a set of the menu or stops with help, a bad or an ambiguous command; help is shown only for a `?` token and only from the current set's descriptions |
| Command.ParseCmd | ospfd/command.rs:129-173 | the loop over the trimmed, lower-cased, whitespace-split tokens yields the outcome of the specified walk from the root set, with a line that stops without an Enter action reported by the slice of its last byte |
| Command.ParseLineReports | ospfd/command.rs:168-172 | a line panics at the slice of its last byte iff it stops in a set without an Enter action and its trimmed, lower-cased form is empty or ends in a non-ASCII character; every other outcome is that of the walk |
| Command.BlankLinePanics | ospfd/command.rs:133-172 | a blank line given to `parse_cmd` while the root set has no Enter action panics |
| Command.NoPanicInWalk | ospfd/command.rs:135-166 | the token walk itself never ends in the slice panic: help, bad and ambiguous outcomes return before it |
| Command.TakeToken | ospfd/command.rs:136-166 | one turn of the loop computes exactly the specified step |
| Command.RunHasEnter | ospfd/command.rs:168-172 | a line runs an action only in a set of the menu that has an Enter action |
| Command.HelpNeedsQuestionMark | ospfd/command.rs:137-161 | help is shown only when some token is `?` or ends in `?`, and only with descriptions of a set of the menu |
| Command.Abbreviation | ospfd/command.rs:146-166 | a token that is a prefix of exactly one keyword acts as that keyword |
| Command.ArgumentKeysNeverMatch | ospfd/command.rs:52-56 | description keys starting with `<` never match a token |
| LineEdit.Edit | ospfd/command.rs:397-451 | a typed character lands just before the cursor, with the text after it untouched; Backspace removes the character before the cursor; Left and Right move within the line and stop at its ends; Ctrl+C, Up, Down and other keys leave the line alone; the cursor always stays within the line |
| LineEdit.EditInverses | ospfd/command.rs:412-439 | Left undoes Right, and Backspace undoes a typed character |
| LineEdit.ReadFrom | ospfd/command.rs:392-458 | reading keys until Enter or Ctrl+C; a line still being edited keeps its cursor within the line |
| LineEdit.TypingAppends | ospfd/command.rs:412-449 | typing a string at the end of the line and pressing Enter returns the line with that string appended |
| LineEdit.TypeAtEnd | ospfd/command.rs:412-416 | a character typed at the end of the line is appended and the cursor follows it |
| LineEdit.LineEditor.constructor | ospfd/command.rs:368-374 | a new editor has an empty buffer, no history index and the cursor at 0 |
| LineEdit.LineEditor.HandleKey | ospfd/command.rs:397-451 | the editor's buffer and cursor become the specified edit of the key |
| LineEdit.LineEditor.ReadLine | ospfd/command.rs:376-459 | the editor starts empty and returns what reading the keys from an empty line gives, with no history index |
| LineEdit.Recorded | ospfd/command.rs:492-500 | a blank line leaves the history alone; any other line becomes its newest entry, and a history of at most 50 lines stays within 50 |
| LineEdit.LastAppend | ospfd/command.rs:497-500 | appending a line and dropping the oldest beyond the bound keeps exactly the most recent lines |
| LineEdit.HistoryIsRecentLines | ospfd/command.rs:24 | after any run of lines the history is the last 50 of the old history followed by the non-blank lines entered |
| LineEdit.CommandHistory.constructor | ospfd/command.rs:28 | the history starts empty |
| LineEdit.CommandHistory.Record | ospfd/command.rs:492-500 | the history becomes the specified record of the line |
| LineEdit.PrefixStep | ospfd/command.rs:490-503 | each further line extends the history by one record and the non-blank lines by the line when it is not blank |
| LineEdit.MainLoop | ospfd/command.rs:484-503 | after the lines, the history is their record and each non-blank line, in order, has been parsed |
| LineEdit.InsertAsWritten | ospfd/command.rs:412-416 | as written the cursor advances one byte per character, and the insertion panics when it falls inside a character |
| LineEdit.InsertAsWrittenPanicsAfterNonAscii | ospfd/command.rs:413-414 | typing `é` and then any character panics, since the cursor sits inside the two bytes of `é` |
| LineEdit.BackspaceAsWritten | ospfd/command.rs:419-425 | as written Backspace moves the cursor back one and removes at the byte index before it, which panics inside a character or past the end |
| LineEdit.BackspaceAsWrittenPanicsInsideNonAscii | ospfd/command.rs:421 | with `éa` in the buffer and the cursor two byte steps in, Backspace removes at byte 1, inside `é`, and panics; after `é` alone it removes `é` |

## Left out

- Integer widths: SPF distances, route costs, LSA ages and `num_lsa` are unbounded integers; the source's `u16`/`u32` additions (the age plus `InfTransDelay` in `flooding_on`, a distance plus a link cost in `calculate`) would wrap or panic only far beyond MaxAge and LSInfinity, which the model does not track.
- Clocks: elapsed seconds and instants are parameters (`now`, `elapsed`); timers are modelled by whether they are armed.
- Concurrency: the `tokio` tasks, `block_in_place`, the locks around the databases and the spawned handler tasks are not modelled; each operation runs alone.
- I/O: `send_packet`, the pnet capture channel and `Interface::from`/`get_network_interface`, `/proc/net/route` (its lines are a parameter), the `ioctl` and socket calls (an abstract kernel function and socket result), terminal drawing and the `display_*` printing.
- Iteration order: the order in which a `HashMap` yields its entries (neighbours, interfaces, areas, LSAs) is an explicit parameter wherever the result depends on it.
- The checksum test of `ospf_handler_maker` is a boolean input; the Fletcher checksum and the LSA `update_length`/`update_checksum` calls are not part of this model, so generated LSAs keep length and checksum 0.
- The Hello, Database Description, Link State Request and Link State Update handlers, and the actions the command sets run (displays, interface settings, exit), are not part of this model; the dispatch names the handler or command set that runs.
- The `LsaHeader` order (`>=`, `cmp`) is not defined in the repository's files; it is an abstract comparison parameter.
- The RouterLSA's B, E and V bits are not fields of the shown `RouterLSA` (it has `flags`); the daemon-level view keeps them as separate booleans.
- `get_all_area_lsa` (`ospfd/area/backbone.rs`) is not part of this model; the order of the areas' LSAs is a parameter.
- The ASCII lower-casing of `to_lowercase` is modelled; Unicode case mapping of other characters is not.
- The ospf-routing test that a route added to the kernel shows up in its table needs a live kernel; with the kernel abstract it is not stated.
- KernelRoute.RustGetRouteTable: the Rust `routing_item_t` has no `ifname` field, so the C function writes 28-byte items into a buffer of 128 12-byte items; the model reads the slots at the C layout and does not model that overrun.
- KernelRoute.AddRoute: the C item's interface name is read from the memory that follows the Rust item (a parameter), since the Rust mirror has no such field.
- AreaDb.Area.InsertLsa: the `assert!` of `insert_lsa` (that `need_update` as written says yes) and the `assert!` of `m_insert_lsa` (no AS-external LSA into an area without external routing capability) are preconditions instead of modelled panics.
- AreaDb.Area.CalculateTree: the caller that stores the tree and recalculates the routing table is not modelled; the method returns the tree, `None` where the source panics.
- Flooding.Flood: requires that no neighbour object is reachable from two interfaces (`OwnNeighbors`), which Rust's ownership of each interface's neighbour map guarantees.
- Routing.Upsert: compares routes by the corrected preference `BetterThan`, not by `better_than` as written; where the two differ (equal or larger type 2 costs of one path type, see `Routing.BetterThanVersions`) the source may keep a different entry under a key.
- Routing.NotBetterKept: compares routes by the corrected preference `BetterThan`, not by `better_than` as written; where the two differ (equal or larger type 2 costs of one path type, see `Routing.BetterThanVersions`) the source may keep a different entry under a key.
- Routing.UpsertAllBest: compares routes by the corrected preference `BetterThan`, not by `better_than` as written; where the two differ (equal or larger type 2 costs of one path type, see `Routing.BetterThanVersions`) the source may keep a different entry under a key.
- Routing.UpsertEach: compares routes by the corrected preference `BetterThan`, not by `better_than` as written; where the two differ (equal or larger type 2 costs of one path type, see `Routing.BetterThanVersions`) the source may keep a different entry under a key.
- Routing.RoutingTable.Recalculate: compares routes by the corrected preference `BetterThan`, not by `better_than` as written; where the two differ (equal or larger type 2 costs of one path type, see `Routing.BetterThanVersions`) the source may keep a different entry under a key.
- Spf.NodeRoute: a destination with prefix length 0 gets the corrected mask 0.0.0.0; as written `mask()` overflows there (a debug build panics, a release build yields 255.255.255.255), which `Routing.MaskAsWritten` states.
- Spf.NodeDest: a destination with prefix length 0 gets the corrected mask 0.0.0.0; as written `mask()` overflows there (a debug build panics, a release build yields 255.255.255.255), which `Routing.MaskAsWritten` states.
- Spf.TreeRoutes: a destination with prefix length 0 gets the corrected mask 0.0.0.0; as written `mask()` overflows there (a debug build panics, a release build yields 255.255.255.255), which `Routing.MaskAsWritten` states.
- AreaDb.SummaryDest: a destination with prefix length 0 gets the corrected mask 0.0.0.0; as written `mask()` overflows there (a debug build panics, a release build yields 255.255.255.255), which `Routing.MaskAsWritten` states.
- Routing.ExternalRoute: a destination with prefix length 0 gets the corrected mask 0.0.0.0; as written `mask()` overflows there (a debug build panics, a release build yields 255.255.255.255), which `Routing.MaskAsWritten` states.
- Bits.BitReader.GetUn: the byte-aligned path requires `bit == 0` instead of modelling the panic of `assert_eq!(self.bit, 0)`.
- Bits.BitReader.GetBytes: the byte-aligned path requires `bit == 0` instead of modelling the panic of `assert_eq!(self.bit, 0)`.
- Bits.BitWriter.PutUn: the byte-aligned path requires `bit == 0` instead of modelling the panic of `assert_eq!(self.bit, 0)`.
- Bits.BitWriter.PutBytes: the byte-aligned path requires `bit == 0` instead of modelling the panic of `assert_eq!(self.bit, 0)`.
- Bits.BitWriter.ExtendFromSlice: the byte-aligned path requires `bit == 0` instead of modelling the panic of `assert_eq!(self.bit, 0)`.
- KernelRoute.Run: the scans are a finite sequence ending at the end of the file; a read error that repeats forever, on which the C loop at `routing.c:83-91` spins without end when the stale flags lack `RTF_UP`, is not modelled.
- Command.StepOn: `display_help` panics on an empty description map; the well-formedness of the command sets excludes that case, as every set the `command!` macro builds has a description.
- Decorator.IsSpace: `IsSpace`, `IsDigit` and `IsWordChar` are the ASCII classes, while the `regex` crate's `\s`, `\d` and `\w` are Unicode-aware; the field types the macro sees are ASCII Rust tokens, where the two agree.
- LineEdit.Edit: typing, Backspace and Right count the cursor in characters; as written `insert` and `remove` take it as a byte index and Right compares it with the buffer's byte length, which differ only after a non-ASCII character, the case of the two `command.rs` findings.
- LineEdit.ReadFrom: the Up and Down keys do nothing, as in the source, where their history handling is empty; Ctrl+C ends the read as `Interrupted`; what the exit command set then runs is not part of this model.

## Findings

| source | as written | input that shows it | evidently intended | confidence | as-written member | corrected member |
|---|---|---|---|---|---|---|
| ospfd/area/mod.rs:64-69 | `m_get_lsa` applies `?` to the capability check inside the argument of `or`, so an area without external routing capability returns `None` for every key; `gen_lsa_impl` looks up the previous instance through it, so in such an area every re-origination starts again at InitialSequenceNumber and is never suppressed as unchanged | a stub area whose own database holds the key | look in the area's database first, then in the shared database only while capable | not executed | AreaDb.LookupAsWrittenMissesAreaLsa | AreaDb.Lookup |
| ospfd/database/routing.rs:111-116 | `get_routing` probes each prefix length with the address itself, not with the address masked to that length | a table holding 10.0.0.0/24, looked up for 10.0.0.5 | the entry of the longest prefix containing the address | not executed | Routing.LookupMissesContainingPrefix | Routing.GetRouting |
| ospfd/constant.rs:16 | AllSPFRouters is declared as 244.0.0.5, so `check_ip` rejects frames to the real group and flooding multicasts to 244.0.0.5 | a Hello from a neighbour to 224.0.0.5 | AllSPFRouters is 224.0.0.5, as appendix A.1 of RFC 2328 assigns | not executed | Capture.AllSpfRoutersFrameDroppedAsWritten | Capture.AllSpfRoutersFrameDelivered |
| ospfd/database/routing.rs:174-177 | `mask()` shifts `u32::MAX` left by `32 - len`, which overflows for prefix length 0: a debug build panics, a release build masks the shift amount and yields 255.255.255.255 | an AS-external default route, mask 0.0.0.0 | mask 0.0.0.0 for prefix length 0 | not executed | Routing.DefaultRouteMaskOverflows | Routing.MaskLeadingOnes |
| ospfd/database/routing.rs:238-242 | with equal path types, an equal type 2 cost is never better and a larger type 2 cost falls back to the type 1 cost, so the relation is not asymmetric | same path type, (type 2 cost 2, cost 0) against (type 2 cost 1, cost 5): each is better than the other | lower type 2 cost wins, an equal one falls back to the cost | not executed | Routing.BetterThanAsWrittenNotAsymmetric | Routing.BetterThanStrictOrder |
| ospfd/command.rs:412-416 | a typed character is inserted at `cursor_position`, a byte index, while the cursor advances by one per character | type `é`, then any character: `String::insert` at byte 1 panics | insert at the cursor's character position | not executed | LineEdit.InsertAsWrittenPanicsAfterNonAscii | LineEdit.Edit |
| ospfd/command.rs:419-425 | Backspace removes at byte index `cursor_position - 1` while the cursor moves one per key, and Right lets it run up to the byte length | type `a`, Left, `é`, Right, Backspace: the buffer is `éa`, the cursor is 2 and `String::remove` at byte 1 panics | remove the character before the cursor's character position | not executed | LineEdit.BackspaceAsWrittenPanicsInsideNonAscii | LineEdit.Edit |
| ospfd/area/tree.rs:34 | `calculate` unwraps `m_get_lsa` as written for every vertex LSA, which finds nothing in an area without external routing capability | an area without external routing capability that holds a router-LSA | fetch the area's own LSA | not executed | AreaDb.TreeLookupAsWrittenFailsInStubArea | Spf.Calculate |
| ospf-packet/src/lsa.rs:99 | the `_zeros` field of `SummaryLSA` is declared without `pub`, and `get_field_tuples` (ospf-macros/src/decorator.rs:23-25) panics on any field that is not public | the `SummaryLSA` declaration itself: the derive panics with "All fields must be public" | a public padding field, giving the 12-byte summary layout | not executed | Lsa.SummaryPrivatePadPanics | Lsa.SummaryPublicPadLayout |
| ospf-packet/src/lsa.rs:109 | the `_zeros` field of `AsExternalLSA` is declared without `pub`, and `get_field_tuples` (ospf-macros/src/decorator.rs:23-25) panics on any field that is not public | the `AsExternalLSA` declaration itself: the derive panics with "All fields must be public" | a public padding field, giving the 16-byte AS-external layout | not executed | Lsa.ExternalPrivatePadPanics | Lsa.ExternalPublicPadLayout |
