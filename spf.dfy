/// The shortest-path tree of an area (section 16.1 of RFC 2328): the vertices taken from the
/// area's router- and network-LSAs, the candidate list as a priority sequence, Dijkstra's loop,
/// the next-hop rule, and the intra-area routes read off the tree.
module Spf {
  import opened Common
  import opened Util
  import opened Constants
  import opened LsaView
  import opened Routing

  // ---------------------------------------------------------------------------
  // Vertices and their order

  /// `NodeAddr`: a router by router id, a transit network by its DR's address, a stub network by prefix.
  datatype NodeAddr = RouterNode(router: Ipv4Addr) | NetworkNode(dr: Ipv4Addr) | StubNode(prefix: AddrMask)

  function NodeRank(n: NodeAddr): (k: nat)
    ensures k < 3
  {
    match n
    case RouterNode(_) => 0
    case NetworkNode(_) => 1
    case StubNode(_) => 2
  }

  /// The derived order of `Ipv4AddrMask`: address first, then prefix length.
  predicate PrefixLess(x: AddrMask, y: AddrMask)
  {
    AddrLess(x.addr, y.addr) || (x.addr == y.addr && x.len < y.len)
  }

  /// The derived order of `NodeAddr`: variants in declaration order, then their payload.
  predicate NodeLess(x: NodeAddr, y: NodeAddr)
  {
    if NodeRank(x) != NodeRank(y) then NodeRank(x) < NodeRank(y)
    else match x
      case RouterNode(a) => AddrLess(a, y.router)
      case NetworkNode(a) => AddrLess(a, y.dr)
      case StubNode(p) => PrefixLess(p, y.prefix)
  }

  lemma NodeLessStrictTotal(x: NodeAddr, y: NodeAddr, z: NodeAddr)
    ensures !NodeLess(x, x)
    ensures NodeLess(x, y) && NodeLess(y, z) ==> NodeLess(x, z)
    ensures x == y || NodeLess(x, y) || NodeLess(y, x)
  {
    NodeLessIrreflexive(x);
    if NodeLess(x, y) && NodeLess(y, z) {
      NodeLessTransitive(x, y, z);
    }
    NodeLessTotal(x, y);
  }

  lemma NodeLessIrreflexive(x: NodeAddr)
    ensures !NodeLess(x, x)
  {
    match x
    case RouterNode(a) => AddrLessTransitive(a, a, a);
    case NetworkNode(a) => AddrLessTransitive(a, a, a);
    case StubNode(p) => AddrLessTransitive(p.addr, p.addr, p.addr);
  }

  lemma NodeLessTotal(x: NodeAddr, y: NodeAddr)
    ensures x == y || NodeLess(x, y) || NodeLess(y, x)
  {
    if NodeRank(x) == NodeRank(y) {
      match x
      case RouterNode(a) => AddrLessTotal(a, y.router);
      case NetworkNode(a) => AddrLessTotal(a, y.dr);
      case StubNode(p) => AddrLessTotal(p.addr, y.prefix.addr);
    }
  }

  lemma NodeLessTransitive(x: NodeAddr, y: NodeAddr, z: NodeAddr)
    requires NodeLess(x, y) && NodeLess(y, z)
    ensures NodeLess(x, z)
  {
    if NodeRank(x) == NodeRank(y) == NodeRank(z) {
      match x
      case RouterNode(a) => AddrLessTransitive(a, y.router, z.router);
      case NetworkNode(a) => AddrLessTransitive(a, y.dr, z.dr);
      case StubNode(p) => AddrLessTransitive(p.addr, y.prefix.addr, z.prefix.addr);
    }
  }

  /// The derived order of `Vec<Ipv4Addr>`: lexicographic, a proper prefix first.
  predicate HopsLess(xs: seq<Ipv4Addr>, ys: seq<Ipv4Addr>)
    decreases |xs|
  {
    if xs == [] then ys != []
    else if ys == [] then false
    else AddrLess(xs[0], ys[0]) || (xs[0] == ys[0] && HopsLess(xs[1..], ys[1..]))
  }

  lemma {:induction false} HopsLessStrictTotal(xs: seq<Ipv4Addr>, ys: seq<Ipv4Addr>, zs: seq<Ipv4Addr>)
    ensures !HopsLess(xs, xs)
    ensures HopsLess(xs, ys) && HopsLess(ys, zs) ==> HopsLess(xs, zs)
    ensures xs == ys || HopsLess(xs, ys) || HopsLess(ys, xs)
    decreases |xs|
  {
    if xs != [] && ys != [] && zs != [] {
      HopsLessStrictTotal(xs[1..], ys[1..], zs[1..]);
      AddrLessTotal(xs[0], ys[0]);
      AddrLessTransitive(xs[0], ys[0], zs[0]);
      AddrLessTransitive(xs[0], xs[0], xs[0]);
      if xs[0] == ys[0] && xs[1..] == ys[1..] {
        assert xs == [xs[0]] + xs[1..] && ys == [ys[0]] + ys[1..];
      }
    } else if xs != [] && ys != [] {
      HopsLessStrictTotal(xs[1..], ys[1..], ys[1..]);
      AddrLessTotal(xs[0], ys[0]);
      AddrLessTransitive(xs[0], xs[0], xs[0]);
      if xs[0] == ys[0] && xs[1..] == ys[1..] {
        assert xs == [xs[0]] + xs[1..] && ys == [ys[0]] + ys[1..];
      }
    } else if xs != [] {
      HopsLessStrictTotal(xs[1..], xs[1..], xs[1..]);
      AddrLessTransitive(xs[0], xs[0], xs[0]);
    }
  }

  /// `HeapNode(Reverse(distance), is_network, node_id, next_hop)`.
  datatype HeapNode = HeapNode(dist: nat, fromNetwork: bool, id: NodeAddr, nextHops: seq<Ipv4Addr>)

  /// `x` leaves the max-heap before `y`: the derived order of the tuple, with the distance reversed.
  predicate Before(x: HeapNode, y: HeapNode)
  {
    x.dist < y.dist
    || (x.dist == y.dist && x.fromNetwork && !y.fromNetwork)
    || (x.dist == y.dist && x.fromNetwork == y.fromNetwork && NodeLess(y.id, x.id))
    || (x.dist == y.dist && x.fromNetwork == y.fromNetwork && x.id == y.id && HopsLess(y.nextHops, x.nextHops))
  }

  /// The heap order is a strict total order, so the node popped is determined.
  lemma BeforeStrictTotal(x: HeapNode, y: HeapNode, z: HeapNode)
    ensures !Before(x, x)
    ensures Before(x, y) && Before(y, z) ==> Before(x, z)
    ensures x == y || Before(x, y) || Before(y, x)
  {
    NodeLessStrictTotal(x.id, x.id, x.id);
    NodeLessStrictTotal(z.id, y.id, x.id);
    NodeLessStrictTotal(x.id, y.id, x.id);
    HopsLessStrictTotal(x.nextHops, x.nextHops, x.nextHops);
    HopsLessStrictTotal(z.nextHops, y.nextHops, x.nextHops);
    HopsLessStrictTotal(x.nextHops, y.nextHops, x.nextHops);
  }

  /// `BinaryHeap::pop`: the index of the greatest candidate, which has the smallest distance and,
  /// among equal distances, was pushed from a transit network if any such candidate was.
  method PopIndex(c: seq<HeapNode>) returns (i: nat)
    requires |c| > 0
    ensures i < |c| && forall j | 0 <= j < |c| :: !Before(c[j], c[i])
    ensures forall j | 0 <= j < |c| :: c[i].dist <= c[j].dist
    ensures forall j | 0 <= j < |c| && c[j].dist == c[i].dist && c[j].fromNetwork :: c[i].fromNetwork
  {
    i := 0;
    var k := 1;
    BeforeStrictTotal(c[0], c[0], c[0]);
    while k < |c|
      invariant 1 <= k <= |c| && i < k
      invariant forall j | 0 <= j < k :: !Before(c[j], c[i])
    {
      if Before(c[k], c[i]) {
        forall j | 0 <= j < k
          ensures !Before(c[j], c[k])
        {
          BeforeStrictTotal(c[j], c[k], c[i]);
        }
        BeforeStrictTotal(c[k], c[k], c[k]);
        i := k;
      }
      k := k + 1;
    }
  }

  /// Two greatest candidates are the same candidate.
  lemma PopDetermined(c: seq<HeapNode>, a: nat, b: nat)
    requires a < |c| && b < |c|
    requires forall j | 0 <= j < |c| :: !Before(c[j], c[a])
    requires forall j | 0 <= j < |c| :: !Before(c[j], c[b])
    ensures c[a] == c[b]
  {
    BeforeStrictTotal(c[a], c[b], c[a]);
  }

  // ---------------------------------------------------------------------------
  // Edges: `lsa2nodes`

  /// The vertex a router link leads to, or `None` for an unknown link type (`unreachable!()`).
  function LinkNode(l: RouterLink): (n: Option<NodeAddr>)
    ensures n.Some? <==> l.linkType in {StubLink, P2pLink, VirtualLink, TransitLink}
    ensures l.linkType == StubLink ==> n == Some(StubNode(From(l.linkId, l.linkData)))
    ensures l.linkType == TransitLink ==> n == Some(NetworkNode(l.linkId))
    ensures l.linkType == P2pLink || l.linkType == VirtualLink ==> n == Some(RouterNode(l.linkId))
  {
    if l.linkType == StubLink then Some(StubNode(From(l.linkId, l.linkData)))
    else if l.linkType == P2pLink || l.linkType == VirtualLink then Some(RouterNode(l.linkId))
    else if l.linkType == TransitLink then Some(NetworkNode(l.linkId))
    else None
  }

  /// The links inserted into `m` one after the other; a later link to the same vertex overwrites.
  function LinksInto(m: map<NodeAddr, nat>, links: seq<RouterLink>): Option<map<NodeAddr, nat>>
    decreases |links|
  {
    if links == [] then Some(m)
    else match LinkNode(links[0])
      case None => None
      case Some(n) => LinksInto(m[n := links[0].metric], links[1..])
  }

  /// The vertices an LSA links to, with the link costs; `None` where `lsa2nodes` panics.
  function Adjacent(lsa: Lsa): Option<map<NodeAddr, nat>>
  {
    match lsa.data
    case Router(r) => LinksInto(map[], r.links)
    case Network(n) => Some(map id | id in n.attachedRouters :: RouterNode(id) := 0)
    case _ => None
  }

  /// The vertices of a sequence of links.
  ghost function LinkNodes(links: seq<RouterLink>): set<NodeAddr>
    requires forall i | 0 <= i < |links| :: LinkNode(links[i]).Some?
  {
    set i | 0 <= i < |links| :: LinkNode(links[i]).value
  }

  /// A router-LSA's edges exist iff every link type is known; then they lead exactly to the links'
  /// vertices, a vertex no link leads to keeps its cost, and each cost is that of the last link to
  /// the vertex.
  lemma {:induction false} LinksIntoSpec(m: map<NodeAddr, nat>, links: seq<RouterLink>)
    ensures LinksInto(m, links).Some? <==> forall i | 0 <= i < |links| :: LinkNode(links[i]).Some?
    ensures LinksInto(m, links).Some? ==> LinksInto(m, links).value.Keys == m.Keys + LinkNodes(links)
    ensures LinksInto(m, links).Some? ==>
              forall k | k in m && k !in LinkNodes(links) :: LinksInto(m, links).value[k] == m[k]
    ensures LinksInto(m, links).Some? ==>
              forall i | 0 <= i < |links| && (forall j | i < j < |links| :: LinkNode(links[j]) != LinkNode(links[i])) ::
                LinksInto(m, links).value[LinkNode(links[i]).value] == links[i].metric
    decreases |links|
  {
    if links != [] {
      var rest := links[1..];
      var m' := if LinkNode(links[0]).Some? then m[LinkNode(links[0]).value := links[0].metric] else m;
      LinksIntoSpec(m', rest);
      assert forall i | 1 <= i < |links| :: links[i] == rest[i - 1];
      if LinksInto(m, links).Some? {
        var n := LinkNode(links[0]).value;
        var r := LinksInto(m, links).value;
        var all := LinkNodes(links);
        var later := LinkNodes(rest);
        assert all == {n} + later by {
          forall v | v in all
            ensures v in {n} + later
          {
            var i :| 0 <= i < |links| && v == LinkNode(links[i]).value;
            if i > 0 {
              assert v == LinkNode(rest[i - 1]).value;
            }
          }
        }
        forall i | 0 <= i < |links| && (forall j | i < j < |links| :: LinkNode(links[j]) != LinkNode(links[i]))
          ensures r[LinkNode(links[i]).value] == links[i].metric
        {
          if i > 0 {
            assert forall j | i - 1 < j < |rest| :: rest[j] == links[j + 1];
          }
        }
      }
    }
  }

  /// `lsa2nodes`: the edge map filled link by link.
  method Lsa2Nodes(lsa: Lsa) returns (r: Option<map<NodeAddr, nat>>)
    ensures r == Adjacent(lsa)
  {
    match lsa.data {
      case Router(rl) =>
        var m: map<NodeAddr, nat> := map[];
        var i := 0;
        while i < |rl.links|
          invariant 0 <= i <= |rl.links|
          invariant LinksInto(m, rl.links[i..]) == LinksInto(map[], rl.links)
        {
          assert rl.links[i..][1..] == rl.links[i + 1..];
          var n := LinkNode(rl.links[i]);
          if n.None? {
            return None;
          }
          m := m[n.value := rl.links[i].metric];
          i := i + 1;
        }
        r := Some(m);
      case Network(nl) =>
        var m: map<NodeAddr, nat> := map[];
        var i := 0;
        while i < |nl.attachedRouters|
          invariant 0 <= i <= |nl.attachedRouters|
          invariant m == map id | id in nl.attachedRouters[..i] :: RouterNode(id) := 0
        {
          assert nl.attachedRouters[..i + 1] == nl.attachedRouters[..i] + [nl.attachedRouters[i]];
          m := m[RouterNode(nl.attachedRouters[i]) := 0];
          i := i + 1;
        }
        assert nl.attachedRouters[..i] == nl.attachedRouters;
        r := Some(m);
      case _ =>
        r := None;
    }
  }

  /// The V bit of a router-LSA (`lsa_have_v`).
  predicate HaveV(lsa: Lsa)
  {
    lsa.data.Router? && lsa.data.router.v
  }

  // ---------------------------------------------------------------------------
  // The tree

  /// `TreeNode`: a vertex in the tree with its LSA, first hops and distance from the root.
  datatype TreeNode = TreeNode(id: NodeAddr, lsa: Lsa, nextHops: seq<Ipv4Addr>, distance: nat)

  /// The first transit link to the network `net`, as `Iterator::find` returns it.
  function FindTransit(links: seq<RouterLink>, net: Ipv4Addr): (r: Option<RouterLink>)
    ensures r.Some? ==> r.value in links && r.value.linkType == TransitLink && r.value.linkId == net
    ensures r.None? <==> forall l | l in links :: !(l.linkType == TransitLink && l.linkId == net)
    decreases |links|
  {
    if links == [] then None
    else if links[0].linkType == TransitLink && links[0].linkId == net then Some(links[0])
    else
      assert forall l | l in links :: l == links[0] || l in links[1..];
      FindTransit(links[1..], net)
  }

  /// The link found is the first that matches.
  lemma {:induction false} FindTransitFirst(links: seq<RouterLink>, net: Ipv4Addr, i: nat)
    requires i < |links| && links[i].linkType == TransitLink && links[i].linkId == net
    requires forall j | 0 <= j < i :: !(links[j].linkType == TransitLink && links[j].linkId == net)
    ensures FindTransit(links, net) == Some(links[i])
    decreases i
  {
    if i > 0 {
      FindTransitFirst(links[1..], net, i - 1);
    }
  }

  /// `calc_nexthop`: a parent's first hops are inherited; a root-adjacent network hands a router
  /// the address its transit link to that network carries; every other vertex gets none.
  function CalcNexthop(node: NodeAddr, lsa: Lsa, parent: TreeNode): (r: seq<Ipv4Addr>)
    ensures parent.nextHops != [] ==> r == parent.nextHops
    ensures parent.nextHops == [] && !(node.RouterNode? && parent.id.NetworkNode? && lsa.data.Router?) ==> r == []
    ensures parent.nextHops == [] && node.RouterNode? && parent.id.NetworkNode? && lsa.data.Router? ==>
              match FindTransit(lsa.data.router.links, parent.id.dr)
              case None => r == []
              case Some(l) => r == [l.linkData]
    ensures |r| <= 1 || r == parent.nextHops
  {
    if parent.nextHops != [] then parent.nextHops
    else if node.RouterNode? && parent.id.NetworkNode? && lsa.data.Router? then
      match FindTransit(lsa.data.router.links, parent.id.dr)
      case None => []
      case Some(l) => [l.linkData]
    else []
  }

  /// Edges only leave non-stub vertices of the database, and every stub they reach has an LSA.
  ghost predicate EdgesClosed(lsaDb: map<NodeAddr, Lsa>, edges: map<NodeAddr, map<NodeAddr, nat>>)
  {
    forall k | k in edges :: k in lsaDb && !k.StubNode? && forall c | c in edges[k] && c.StubNode? :: c in lsaDb
  }

  /// The candidate a child of a newly settled vertex becomes, or `None` when it is skipped:
  /// children already in the tree, and routers or networks without a link back, are skipped.
  function ChildCandidate(lsaDb: map<NodeAddr, Lsa>, edges: map<NodeAddr, map<NodeAddr, nat>>,
                          tree: map<NodeAddr, TreeNode>, parent: TreeNode, child: NodeAddr): (r: Option<HeapNode>)
    requires EdgesClosed(lsaDb, edges) && parent.id in edges && child in edges[parent.id]
    ensures r.Some? <==> child !in tree && (child.StubNode? || (child in edges && parent.id in edges[child]))
    ensures r.Some? ==> r.value.id == child && r.value.fromNetwork == parent.id.NetworkNode? && child in lsaDb
    ensures r.Some? && child.StubNode? ==> r.value.dist == parent.distance + edges[parent.id][child]
    ensures r.Some? && !child.StubNode? ==>
              r.value.dist == parent.distance + Max(edges[parent.id][child], edges[child][parent.id])
    ensures r.Some? ==> r.value.dist >= parent.distance + edges[parent.id][child]
    ensures r.Some? ==> r.value.nextHops == CalcNexthop(child, lsaDb[child], parent)
    ensures r.Some? <==> child !in tree && Step(edges, parent.id, child).Some?
    ensures r.Some? ==> r.value.dist == parent.distance + Step(edges, parent.id, child).value
  {
    var cost := edges[parent.id][child];
    if child in tree then None
    else if child.StubNode? then
      Some(HeapNode(parent.distance + cost, parent.id.NetworkNode?, child, CalcNexthop(child, lsaDb[child], parent)))
    else if child in edges && parent.id in edges[child] then
      Some(HeapNode(parent.distance + Max(cost, edges[child][parent.id]), parent.id.NetworkNode?, child,
                    CalcNexthop(child, lsaDb[child], parent)))
    else None
  }

  function Max(a: nat, b: nat): (m: nat)
    ensures m >= a && m >= b && (m == a || m == b)
  {
    if a >= b then a else b
  }

  /// The cost `calculate` adds when it reaches `c` from the expanded vertex `p`: the link cost for
  /// a stub, the larger of the two link costs for a router or network linked both ways; `None`
  /// where the loop passes `c` by. It does not depend on the tree built so far.
  function Step(edges: map<NodeAddr, map<NodeAddr, nat>>, p: NodeAddr, c: NodeAddr): Option<nat>
  {
    if p in edges && c in edges[p] then
      if c.StubNode? then Some(edges[p][c])
      else if c in edges && p in edges[c] then Some(Max(edges[p][c], edges[c][p]))
      else None
    else None
  }

  /// A walk from vertex to vertex along the edges `calculate` relaxes.
  ghost predicate IsPath(edges: map<NodeAddr, map<NodeAddr, nat>>, path: seq<NodeAddr>)
  {
    |path| > 0 && forall i | 0 <= i < |path| - 1 :: Step(edges, path[i], path[i + 1]).Some?
  }

  /// The sum of the step costs along a path.
  ghost function PathCost(edges: map<NodeAddr, map<NodeAddr, nat>>, path: seq<NodeAddr>): nat
    requires IsPath(edges, path)
    decreases |path|
  {
    if |path| == 1 then 0
    else
      var front := path[..|path| - 1];
      assert forall i | 0 <= i < |front| - 1 :: Step(edges, front[i], front[i + 1]) == Step(edges, path[i], path[i + 1]);
      PathCost(edges, front) + Step(edges, path[|path| - 2], path[|path| - 1]).value
  }

  /// The candidates of a settled vertex's children, as pushed by the loop over its edges.
  ghost function Children(lsaDb: map<NodeAddr, Lsa>, edges: map<NodeAddr, map<NodeAddr, nat>>,
                          tree: map<NodeAddr, TreeNode>, parent: TreeNode): set<HeapNode>
    requires EdgesClosed(lsaDb, edges) && parent.id in edges
  {
    set c | c in edges[parent.id] && ChildCandidate(lsaDb, edges, tree, parent, c).Some?
      :: ChildCandidate(lsaDb, edges, tree, parent, c).value
  }

  /// The loop over a settled vertex's edges, pushing one candidate per child that qualifies.
  method Expand(lsaDb: map<NodeAddr, Lsa>, edges: map<NodeAddr, map<NodeAddr, nat>>,
                tree: map<NodeAddr, TreeNode>, parent: TreeNode) returns (pushed: seq<HeapNode>)
    requires EdgesClosed(lsaDb, edges) && parent.id in edges
    ensures (set h | h in pushed) == Children(lsaDb, edges, tree, parent)
    ensures forall h | h in pushed :: h.dist >= parent.distance && h.id in lsaDb && h.id !in tree
  {
    pushed := [];
    var rest := edges[parent.id].Keys;
    while rest != {}
      invariant rest <= edges[parent.id].Keys
      invariant (set h | h in pushed) == set c | c in edges[parent.id].Keys - rest
                                               && ChildCandidate(lsaDb, edges, tree, parent, c).Some?
                                           :: ChildCandidate(lsaDb, edges, tree, parent, c).value
      invariant forall h | h in pushed :: h.dist >= parent.distance && h.id in lsaDb && h.id !in tree
      decreases |rest|
    {
      var child :| child in rest;
      var c := ChildCandidate(lsaDb, edges, tree, parent, child);
      ghost var before := set c | c in edges[parent.id].Keys - rest && ChildCandidate(lsaDb, edges, tree, parent, c).Some?
                            :: ChildCandidate(lsaDb, edges, tree, parent, c).value;
      ghost var after := set c | c in edges[parent.id].Keys - (rest - {child})
                                 && ChildCandidate(lsaDb, edges, tree, parent, c).Some?
                           :: ChildCandidate(lsaDb, edges, tree, parent, c).value;
      if c.Some? {
        assert after == before + {c.value};
        pushed := pushed + [c.value];
      } else {
        assert after == before;
      }
      rest := rest - {child};
    }
  }

  // ---------------------------------------------------------------------------
  // `calculate`

  /// The vertex an LSA of the area stands for: router- and network-LSAs not at MaxAge, keyed by
  /// their link state id.
  function VertexOf(l: Lsa): (n: Option<NodeAddr>)
    ensures n.Some? <==> l.header.lsAge != LsaMaxAge
                         && (l.header.lsType == RouterLsaType || l.header.lsType == NetworkLsaType)
    ensures n.Some? && l.header.lsType == RouterLsaType ==> n.value == RouterNode(l.header.linkStateId)
    ensures n.Some? && l.header.lsType == NetworkLsaType ==> n.value == NetworkNode(l.header.linkStateId)
  {
    if l.header.lsAge == LsaMaxAge then None
    else if l.header.lsType == RouterLsaType then Some(RouterNode(l.header.linkStateId))
    else if l.header.lsType == NetworkLsaType then Some(NetworkNode(l.header.linkStateId))
    else None
  }

  /// The vertex map collected from the LSAs in order; a later LSA for the same vertex wins.
  function VerticesInto(m: map<NodeAddr, Lsa>, lsas: seq<Lsa>): (r: map<NodeAddr, Lsa>)
    ensures m.Keys <= r.Keys
    ensures forall k | k in r :: (k in m && r[k] == m[k]) || (VertexOf(r[k]) == Some(k) && r[k] in lsas)
    decreases |lsas|
  {
    if lsas == [] then m
    else
      var rest := VerticesInto(match VertexOf(lsas[0]) case None => m case Some(n) => m[n := lsas[0]], lsas[1..]);
      assert forall l | l in lsas[1..] :: l in lsas;
      rest
  }

  function Vertices(lsas: seq<Lsa>): (r: map<NodeAddr, Lsa>)
    ensures forall k | k in r :: VertexOf(r[k]) == Some(k) && r[k] in lsas && !k.StubNode?
  {
    VerticesInto(map[], lsas)
  }

  /// The stub vertices the edges lead to.
  function StubTargets(edges: map<NodeAddr, map<NodeAddr, nat>>): set<NodeAddr>
  {
    set p, c | p in edges && c in edges[p] && c.StubNode? :: c
  }

  /// Each stub an edge leads to gets the LSA of a vertex that links to it (`entry(dest).or_insert(lsa)`:
  /// the first such vertex in the map's iteration order).
  method AddStubs(vertices: map<NodeAddr, Lsa>, edges: map<NodeAddr, map<NodeAddr, nat>>)
    returns (lsaDb: map<NodeAddr, Lsa>)
    requires forall k | k in vertices :: !k.StubNode?
    requires forall k | k in edges :: k in vertices
    ensures lsaDb.Keys == vertices.Keys + StubTargets(edges)
    ensures forall k | k in vertices :: lsaDb[k] == vertices[k]
    ensures forall k | k in lsaDb && k !in vertices :: exists p | p in edges :: k in edges[p] && lsaDb[k] == vertices[p]
  {
    lsaDb := vertices;
    var pending := StubTargets(edges);
    while pending != {}
      invariant pending <= StubTargets(edges)
      invariant lsaDb.Keys == vertices.Keys + (StubTargets(edges) - pending)
      invariant forall k | k in vertices :: lsaDb[k] == vertices[k]
      invariant forall k | k in lsaDb && k !in vertices :: exists p | p in edges :: k in edges[p] && lsaDb[k] == vertices[p]
      decreases pending
    {
      var c :| c in pending;
      var p :| p in edges && c in edges[p] && c.StubNode?;
      lsaDb := lsaDb[c := vertices[p]];
      pending := pending - {c};
    }
  }

  /// Every vertex of the tree is stored under its id with its LSA from the database.
  ghost predicate Shaped(lsaDb: map<NodeAddr, Lsa>, tree: map<NodeAddr, TreeNode>)
  {
    forall k | k in tree :: k in lsaDb && tree[k].id == k && tree[k].lsa == lsaDb[k]
  }

  /// `settled` lists the tree's vertices once each, in order of distance.
  ghost predicate Listed(tree: map<NodeAddr, TreeNode>, settled: seq<NodeAddr>)
  {
    && (forall i | 0 <= i < |settled| :: settled[i] in tree)
    && (forall k | k in tree :: k in settled)
    && (forall i, j | 0 <= i < j < |settled| :: settled[i] != settled[j])
    && (forall i, j | 0 <= i <= j < |settled| :: tree[settled[i]].distance <= tree[settled[j]].distance)
  }

  /// The transit flag is the V bit of some expanded vertex.
  ghost predicate TransitOf(edges: map<NodeAddr, map<NodeAddr, nat>>, tree: map<NodeAddr, TreeNode>, transit: bool)
  {
    transit <==> exists k | k in tree && k in edges :: HaveV(tree[k].lsa)
  }

  ghost predicate Below(tree: map<NodeAddr, TreeNode>, bound: nat)
  {
    forall k | k in tree :: tree[k].distance <= bound
  }

  /// A tree vertex with more first hops.
  function WithHops(tree: map<NodeAddr, TreeNode>, id: NodeAddr, hops: seq<Ipv4Addr>): (r: map<NodeAddr, TreeNode>)
    requires id in tree
    ensures r.Keys == tree.Keys && r[id].nextHops == tree[id].nextHops + hops
    ensures forall k | k in tree :: r[k] == tree[k].(nextHops := r[k].nextHops)
  {
    tree[id := tree[id].(nextHops := tree[id].nextHops + hops)]
  }

  /// Adding first hops keeps the tree's shape, listing, flag and distances.
  lemma WithHopsKeeps(lsaDb: map<NodeAddr, Lsa>, edges: map<NodeAddr, map<NodeAddr, nat>>,
                      tree: map<NodeAddr, TreeNode>, transit: bool, settled: seq<NodeAddr>, bound: nat,
                      id: NodeAddr, hops: seq<Ipv4Addr>)
    requires id in tree
    requires Shaped(lsaDb, tree) && Listed(tree, settled) && TransitOf(edges, tree, transit) && Below(tree, bound)
    ensures var t := WithHops(tree, id, hops);
            Shaped(lsaDb, t) && Listed(t, settled) && TransitOf(edges, t, transit) && Below(t, bound)
  {
    var t := WithHops(tree, id, hops);
    if transit {
      var k :| k in tree && k in edges && HaveV(tree[k].lsa);
      assert t[k].lsa == tree[k].lsa;
    }
  }

  /// A new vertex at a distance no smaller than the tree's enters the tree and the listing, and
  /// adds its V bit to the flag when it is expanded.
  lemma EnterKeeps(lsaDb: map<NodeAddr, Lsa>, edges: map<NodeAddr, map<NodeAddr, nat>>,
                   tree: map<NodeAddr, TreeNode>, transit: bool, settled: seq<NodeAddr>, bound: nat, node: TreeNode)
    requires node.id in lsaDb && node.id !in tree && node.lsa == lsaDb[node.id] && node.distance >= bound
    requires Shaped(lsaDb, tree) && Listed(tree, settled) && TransitOf(edges, tree, transit) && Below(tree, bound)
    ensures var t := tree[node.id := node];
            && Shaped(lsaDb, t) && Listed(t, settled + [node.id]) && Below(t, node.distance)
            && TransitOf(edges, t, if node.id in edges then transit || HaveV(node.lsa) else transit)
  {
    EnterListed(tree, settled, bound, node);
    EnterTransit(edges, tree, transit, node);
  }

  lemma EnterListed(tree: map<NodeAddr, TreeNode>, settled: seq<NodeAddr>, bound: nat, node: TreeNode)
    requires node.id !in tree && node.distance >= bound && Listed(tree, settled) && Below(tree, bound)
    ensures Listed(tree[node.id := node], settled + [node.id])
  {
    var t := tree[node.id := node];
    var s := settled + [node.id];
    forall i, j | 0 <= i <= j < |s|
      ensures t[s[i]].distance <= t[s[j]].distance
    {
      if j < |settled| {
        assert s[i] == settled[i] && s[j] == settled[j];
      }
    }
  }

  lemma EnterTransit(edges: map<NodeAddr, map<NodeAddr, nat>>, tree: map<NodeAddr, TreeNode>, transit: bool,
                     node: TreeNode)
    requires node.id !in tree && TransitOf(edges, tree, transit)
    ensures TransitOf(edges, tree[node.id := node], if node.id in edges then transit || HaveV(node.lsa) else transit)
  {
    var t := tree[node.id := node];
    if transit {
      var k :| k in tree && k in edges && HaveV(tree[k].lsa);
      assert t[k] == tree[k];
    }
    if exists k | k in t && k in edges :: HaveV(t[k].lsa) {
      var k :| k in t && k in edges && HaveV(t[k].lsa);
      if k != node.id {
        assert tree[k] == t[k];
      }
    }
  }

  /// What the loop of `calculate` keeps about the tree built so far: its shape, the listing of
  /// its vertices in order of distance, the transit flag, and no vertex beyond `bound`.
  ghost predicate Grown(lsaDb: map<NodeAddr, Lsa>, edges: map<NodeAddr, map<NodeAddr, nat>>,
                        tree: map<NodeAddr, TreeNode>, transit: bool, settled: seq<NodeAddr>, bound: nat)
  {
    Shaped(lsaDb, tree) && Listed(tree, settled) && TransitOf(edges, tree, transit) && Below(tree, bound)
  }

  /// What settling the popped candidate `next` does to the tree, the listing and the queue: a
  /// vertex already in the tree gains `next`'s first hops when `next` is at its distance and is
  /// left as it is otherwise; a vertex without an LSA is dropped; any other vertex enters the
  /// tree at `next`'s distance and, when it has edges, pushes exactly its children's candidates.
  ghost predicate Settles(lsaDb: map<NodeAddr, Lsa>, edges: map<NodeAddr, map<NodeAddr, nat>>,
                          tree: map<NodeAddr, TreeNode>, settled: seq<NodeAddr>, next: HeapNode,
                          tree': map<NodeAddr, TreeNode>, settled': seq<NodeAddr>, pushed: seq<HeapNode>)
    requires EdgesClosed(lsaDb, edges)
  {
    && (next.id in tree ==>
          && tree' == (if tree[next.id].distance == next.dist then WithHops(tree, next.id, next.nextHops) else tree)
          && settled' == settled && pushed == [])
    && (next.id !in tree && next.id !in lsaDb ==> tree' == tree && settled' == settled && pushed == [])
    && (next.id !in tree && next.id in lsaDb ==>
          && tree' == tree[next.id := TreeNode(next.id, lsaDb[next.id], next.nextHops, next.dist)]
          && settled' == settled + [next.id])
    && (next.id !in tree && next.id in lsaDb && next.id !in edges ==> pushed == [])
    && (next.id !in tree && next.id in edges ==> (set h | h in pushed) == Children(lsaDb, edges, tree', tree'[next.id]))
  }

  /// One popped candidate of `calculate` (`Settles`); a vertex that enters with edges adds its
  /// V bit to the transit flag.
  method Settle(lsaDb: map<NodeAddr, Lsa>, edges: map<NodeAddr, map<NodeAddr, nat>>,
                tree: map<NodeAddr, TreeNode>, transit: bool, ghost settled: seq<NodeAddr>, next: HeapNode)
    returns (tree': map<NodeAddr, TreeNode>, transit': bool, ghost settled': seq<NodeAddr>, pushed: seq<HeapNode>)
    requires EdgesClosed(lsaDb, edges) && Grown(lsaDb, edges, tree, transit, settled, next.dist)
    ensures Grown(lsaDb, edges, tree', transit', settled', next.dist)
    ensures AtLeast(pushed, next.dist)
    ensures forall k | k in tree :: k in tree' && tree'[k].distance == tree[k].distance
    ensures Settles(lsaDb, edges, tree, settled, next, tree', settled', pushed)
    ensures transit' == (if next.id !in tree && next.id in edges then transit || HaveV(lsaDb[next.id]) else transit)
  {
    var id := next.id;
    tree', transit', settled', pushed := tree, transit, settled, [];
    if id in tree {
      if tree[id].distance == next.dist {
        WithHopsKeeps(lsaDb, edges, tree, transit, settled, next.dist, id, next.nextHops);
        tree' := WithHops(tree, id, next.nextHops);
      }
      return;
    }
    if id !in lsaDb {
      return;
    }
    var node := TreeNode(id, lsaDb[id], next.nextHops, next.dist);
    EnterKeeps(lsaDb, edges, tree, transit, settled, next.dist, node);
    tree' := tree[id := node];
    settled' := settled + [id];
    if id.StubNode? || id !in edges {
      return;
    }
    transit' := transit || HaveV(lsaDb[id]);
    pushed := Expand(lsaDb, edges, tree', node);
  }

  /// `h` is what the expansion of the `j`-th settled vertex pushes for the child `h.id`: its
  /// distance is that vertex's plus the step cost.
  ghost predicate PushedBy(edges: map<NodeAddr, map<NodeAddr, nat>>, tree: map<NodeAddr, TreeNode>,
                           settled: seq<NodeAddr>, h: HeapNode, j: nat)
  {
    && j < |settled| && settled[j] in tree
    && Step(edges, settled[j], h.id).Some?
    && h.dist == tree[settled[j]].distance + Step(edges, settled[j], h.id).value
  }

  /// Every vertex after the first entered the tree through the step from an earlier one
  /// (`parents[i]`), at that vertex's distance plus the step cost; the first is the root, at 0.
  ghost predicate Derived(edges: map<NodeAddr, map<NodeAddr, nat>>, root: NodeAddr,
                          tree: map<NodeAddr, TreeNode>, settled: seq<NodeAddr>, parents: seq<nat>)
  {
    && |parents| == |settled|
    && (forall i | 0 <= i < |settled| :: settled[i] in tree)
    && (|settled| > 0 ==> settled[0] == root && tree[root].distance == 0)
    && forall i {:trigger parents[i]} | 0 < i < |settled| ::
         parents[i] < i && Step(edges, settled[parents[i]], settled[i]).Some?
         && tree[settled[i]].distance == tree[settled[parents[i]]].distance
                                         + Step(edges, settled[parents[i]], settled[i]).value
  }

  /// `c` is in the tree within `bound`, or a candidate for it within `bound` is still queued.
  ghost predicate Covered(tree: map<NodeAddr, TreeNode>, candidates: seq<HeapNode>, c: NodeAddr, bound: nat)
  {
    (c in tree && tree[c].distance <= bound) || exists h | h in candidates :: h.id == c && h.dist <= bound
  }

  /// Every step out of a tree vertex is covered at that vertex's distance plus the step cost.
  ghost predicate Closed(edges: map<NodeAddr, map<NodeAddr, nat>>, tree: map<NodeAddr, TreeNode>,
                         candidates: seq<HeapNode>)
  {
    forall p, c | p in tree && Step(edges, p, c).Some? ::
      Covered(tree, candidates, c, tree[p].distance + Step(edges, p, c).value)
  }

  /// No candidate is nearer than `bound`.
  ghost predicate AtLeast(candidates: seq<HeapNode>, bound: nat)
  {
    forall h | h in candidates :: h.dist >= bound
  }

  /// Each queued candidate was pushed by the settled vertex its `from` entry names.
  ghost predicate AllPushedBy(edges: map<NodeAddr, map<NodeAddr, nat>>, tree: map<NodeAddr, TreeNode>,
                              settled: seq<NodeAddr>, candidates: seq<HeapNode>, from: seq<nat>)
  {
    |from| == |candidates| && forall i | 0 <= i < |candidates| :: PushedBy(edges, tree, settled, candidates[i], from[i])
  }

  /// What the loop of `calculate` keeps: the tree grown so far, no candidate below the last
  /// popped distance, the root alone queued before the first pop, every queued candidate pushed
  /// by a settled vertex (`from`), every vertex derived, and every step covered.
  ghost predicate Searching(lsaDb: map<NodeAddr, Lsa>, edges: map<NodeAddr, map<NodeAddr, nat>>, root: NodeAddr,
                            tree: map<NodeAddr, TreeNode>, transit: bool, settled: seq<NodeAddr>,
                            parents: seq<nat>, candidates: seq<HeapNode>, from: seq<nat>, last: nat, started: bool)
  {
    && Grown(lsaDb, edges, tree, transit, settled, last)
    && AtLeast(candidates, last)
    && |from| == |candidates|
    && (!started ==> candidates == [HeapNode(0, false, root, [])] && tree == map[] && settled == [])
    && (started && root in lsaDb ==> root in tree && tree[root].distance == 0)
    && Derived(edges, root, tree, settled, parents)
    && (started ==> AllPushedBy(edges, tree, settled, candidates, from))
    && Closed(edges, tree, candidates)
  }

  /// A step leads to a vertex of the database.
  lemma StepInDb(lsaDb: map<NodeAddr, Lsa>, edges: map<NodeAddr, map<NodeAddr, nat>>, p: NodeAddr, c: NodeAddr)
    requires EdgesClosed(lsaDb, edges) && Step(edges, p, c).Some?
    ensures c in lsaDb
  {
  }

  /// One pass of the loop of `calculate`: pop the nearest candidate, settle it, queue what it pushes.
  method Round(lsaDb: map<NodeAddr, Lsa>, edges: map<NodeAddr, map<NodeAddr, nat>>, ghost root: NodeAddr,
               tree: map<NodeAddr, TreeNode>, transit: bool, ghost settled: seq<NodeAddr>, ghost parents: seq<nat>,
               candidates: seq<HeapNode>, ghost from: seq<nat>, ghost last: nat, ghost started: bool)
    returns (tree': map<NodeAddr, TreeNode>, transit': bool, ghost settled': seq<NodeAddr>, ghost parents': seq<nat>,
             candidates': seq<HeapNode>, ghost from': seq<nat>, ghost last': nat)
    requires EdgesClosed(lsaDb, edges) && candidates != []
    requires Searching(lsaDb, edges, root, tree, transit, settled, parents, candidates, from, last, started)
    ensures Searching(lsaDb, edges, root, tree', transit', settled', parents', candidates', from', last', true)
    ensures |lsaDb.Keys - tree'.Keys| < |lsaDb.Keys - tree.Keys| || (|lsaDb.Keys - tree'.Keys| == |lsaDb.Keys - tree.Keys| && |candidates'| < |candidates|)
  {
    var i := PopIndex(candidates);
    var next := candidates[i];
    var rest := candidates[..i] + candidates[i + 1..];
    ghost var fromRest := from[..i] + from[i + 1..];
    var pushed;
    tree', transit', settled', pushed := Settle(lsaDb, edges, tree, transit, settled, next);
    candidates' := rest + pushed;
    from' := fromRest + Copies(|settled|, |pushed|);
    last' := next.dist;
    parents' := if next.id !in tree && next.id in lsaDb then parents + [if started then from[i] else 0] else parents;
    RoundKeeps(lsaDb, edges, root, tree, transit, settled, parents, candidates, from, last, started,
               i, pushed, tree', transit', settled', parents', candidates', from');
  }

  /// What a round does to the loop's state, given what `Settle` does to the popped candidate.
  lemma RoundKeeps(lsaDb: map<NodeAddr, Lsa>, edges: map<NodeAddr, map<NodeAddr, nat>>, root: NodeAddr,
                   tree: map<NodeAddr, TreeNode>, transit: bool, settled: seq<NodeAddr>, parents: seq<nat>,
                   candidates: seq<HeapNode>, from: seq<nat>, last: nat, started: bool, i: nat, pushed: seq<HeapNode>,
                   tree': map<NodeAddr, TreeNode>, transit': bool, settled': seq<NodeAddr>, parents': seq<nat>,
                   candidates': seq<HeapNode>, from': seq<nat>)
    requires EdgesClosed(lsaDb, edges) && i < |candidates|
    requires Searching(lsaDb, edges, root, tree, transit, settled, parents, candidates, from, last, started)
    requires forall j | 0 <= j < |candidates| :: candidates[i].dist <= candidates[j].dist
    requires Grown(lsaDb, edges, tree', transit', settled', candidates[i].dist)
    requires AtLeast(pushed, candidates[i].dist)
    requires forall k | k in tree :: k in tree' && tree'[k].distance == tree[k].distance
    requires Settles(lsaDb, edges, tree, settled, candidates[i], tree', settled', pushed)
    requires candidates' == candidates[..i] + candidates[i + 1..] + pushed
    requires from' == from[..i] + from[i + 1..] + Copies(|settled|, |pushed|)
    requires var next := candidates[i];
             parents' == if next.id !in tree && next.id in lsaDb then parents + [if started then from[i] else 0] else parents
    ensures Searching(lsaDb, edges, root, tree', transit', settled', parents', candidates', from', candidates[i].dist, true)
    ensures |lsaDb.Keys - tree'.Keys| < |lsaDb.Keys - tree.Keys| || (|lsaDb.Keys - tree'.Keys| == |lsaDb.Keys - tree.Keys| && |candidates'| < |candidates|)
  {
    var next := candidates[i];
    var rest := candidates[..i] + candidates[i + 1..];
    var fromRest := from[..i] + from[i + 1..];
    RoundDerived(lsaDb, edges, root, tree, tree', settled, settled', parents, parents', candidates, from, i, started, pushed);
    RoundPushed(lsaDb, edges, tree, tree', settled, settled', candidates, from, i, rest, fromRest, pushed, started);
    RoundClosed(lsaDb, edges, tree, tree', settled, settled', candidates, i, rest, pushed, last);
    RoundAtLeast(candidates, i, rest, pushed);
    RoundRoot(lsaDb, edges, root, tree, tree', settled, settled', candidates, i, pushed, started);
    RoundShrinks(lsaDb, edges, tree, tree', settled, settled', candidates[i], pushed);
    RestKeeps(candidates, i, from, rest, fromRest);
    SearchingFrom(lsaDb, edges, root, tree', transit', settled', parents', candidates', from', next.dist);
  }

  /// The loop's invariant after a round, from its parts.
  lemma SearchingFrom(lsaDb: map<NodeAddr, Lsa>, edges: map<NodeAddr, map<NodeAddr, nat>>, root: NodeAddr,
                      tree: map<NodeAddr, TreeNode>, transit: bool, settled: seq<NodeAddr>,
                      parents: seq<nat>, candidates: seq<HeapNode>, from: seq<nat>, last: nat)
    requires Grown(lsaDb, edges, tree, transit, settled, last)
    requires AtLeast(candidates, last)
    requires |from| == |candidates|
    requires root in lsaDb ==> root in tree && tree[root].distance == 0
    requires Derived(edges, root, tree, settled, parents)
    requires AllPushedBy(edges, tree, settled, candidates, from)
    requires Closed(edges, tree, candidates)
    ensures Searching(lsaDb, edges, root, tree, transit, settled, parents, candidates, from, last, true)
  {
  }

  /// The candidates left after the nearest is popped, and what it pushes, are no nearer than it.
  lemma RoundAtLeast(candidates: seq<HeapNode>, i: nat, rest: seq<HeapNode>, pushed: seq<HeapNode>)
    requires i < |candidates| && forall j | 0 <= j < |candidates| :: candidates[i].dist <= candidates[j].dist
    requires rest == candidates[..i] + candidates[i + 1..]
    requires AtLeast(pushed, candidates[i].dist)
    ensures AtLeast(rest + pushed, candidates[i].dist)
  {
    RestKeeps(candidates, i, candidates, rest, rest);
    forall h | h in rest + pushed
      ensures h.dist >= candidates[i].dist
    {
      if h in rest {
        var k :| 0 <= k < |rest| && rest[k] == h;
      }
    }
  }

  /// The first round puts the router's own vertex in the tree at 0 when it has an LSA; later
  /// rounds keep it there.
  lemma RoundRoot(lsaDb: map<NodeAddr, Lsa>, edges: map<NodeAddr, map<NodeAddr, nat>>, root: NodeAddr,
                  tree: map<NodeAddr, TreeNode>, tree': map<NodeAddr, TreeNode>,
                  settled: seq<NodeAddr>, settled': seq<NodeAddr>, candidates: seq<HeapNode>, i: nat,
                  pushed: seq<HeapNode>, started: bool)
    requires EdgesClosed(lsaDb, edges) && i < |candidates|
    requires !started ==> candidates == [HeapNode(0, false, root, [])] && tree == map[]
    requires started && root in lsaDb ==> root in tree && tree[root].distance == 0
    requires forall k | k in tree :: k in tree' && tree'[k].distance == tree[k].distance
    requires Settles(lsaDb, edges, tree, settled, candidates[i], tree', settled', pushed)
    ensures root in lsaDb ==> root in tree' && tree'[root].distance == 0
  {
  }

  /// A round that leaves the tree's vertices as they are pushes nothing; one that changes them
  /// adds a vertex of the database.
  lemma RoundShrinks(lsaDb: map<NodeAddr, Lsa>, edges: map<NodeAddr, map<NodeAddr, nat>>,
                     tree: map<NodeAddr, TreeNode>, tree': map<NodeAddr, TreeNode>,
                     settled: seq<NodeAddr>, settled': seq<NodeAddr>, next: HeapNode, pushed: seq<HeapNode>)
    requires EdgesClosed(lsaDb, edges) && Settles(lsaDb, edges, tree, settled, next, tree', settled', pushed)
    ensures |lsaDb.Keys - tree'.Keys| < |lsaDb.Keys - tree.Keys| || (|lsaDb.Keys - tree'.Keys| == |lsaDb.Keys - tree.Keys| && pushed == [])
  {
    if next.id !in tree && next.id in lsaDb {
      assert tree'.Keys == tree.Keys + {next.id};
      LeftShrinks(lsaDb.Keys, tree.Keys, tree'.Keys, next.id);
    } else if next.id in tree {
      assert tree'.Keys == tree.Keys && pushed == [];
    } else {
      assert tree' == tree && pushed == [];
    }
  }

  /// Adding a member of `all` to `s` leaves fewer of `all` outside it.
  lemma LeftShrinks<T>(all: set<T>, s: set<T>, s': set<T>, x: T)
    requires x in all && x !in s && s' == s + {x}
    ensures |all - s'| < |all - s|
  {
    var left := all - s;
    assert all - s' == left - {x};
    assert left == (left - {x}) + {x};
  }

  /// `n` copies of `x`.
  function Copies(x: nat, n: nat): (r: seq<nat>)
    ensures |r| == n && forall k | 0 <= k < n :: r[k] == x
  {
    if n == 0 then [] else Copies(x, n - 1) + [x]
  }

  /// The candidates left after popping the `i`-th keep their order and their origins.
  lemma RestKeeps<T, U>(candidates: seq<T>, i: nat, from: seq<U>, rest: seq<T>, fromRest: seq<U>)
    requires i < |candidates| == |from|
    requires rest == candidates[..i] + candidates[i + 1..] && fromRest == from[..i] + from[i + 1..]
    ensures |rest| == |fromRest| == |candidates| - 1
    ensures forall k | 0 <= k < |rest| :: rest[k] == candidates[if k < i then k else k + 1]
                                         && fromRest[k] == from[if k < i then k else k + 1]
    ensures forall h | h in candidates :: h == candidates[i] || h in rest
  {
    forall h | h in candidates
      ensures h == candidates[i] || h in rest
    {
      var k :| 0 <= k < |candidates| && candidates[k] == h;
      if k < i {
        assert rest[k] == h;
      } else if k > i {
        assert rest[k - 1] == h;
      }
    }
  }

  /// A round keeps every vertex derived: a vertex that enters comes from the settled vertex
  /// that pushed it (the root, first, at 0).
  lemma RoundDerived(lsaDb: map<NodeAddr, Lsa>, edges: map<NodeAddr, map<NodeAddr, nat>>, root: NodeAddr,
                     tree: map<NodeAddr, TreeNode>, tree': map<NodeAddr, TreeNode>,
                     settled: seq<NodeAddr>, settled': seq<NodeAddr>, parents: seq<nat>, parents': seq<nat>,
                     candidates: seq<HeapNode>, from: seq<nat>, i: nat, started: bool, pushed: seq<HeapNode>)
    requires EdgesClosed(lsaDb, edges)
    requires i < |candidates| == |from|
    requires !started ==> candidates == [HeapNode(0, false, root, [])] && tree == map[] && settled == []
    requires started ==> AllPushedBy(edges, tree, settled, candidates, from)
    requires Derived(edges, root, tree, settled, parents)
    requires forall k | k in tree :: k in tree' && tree'[k].distance == tree[k].distance
    requires Settles(lsaDb, edges, tree, settled, candidates[i], tree', settled', pushed)
    requires var next := candidates[i];
             parents' == if next.id !in tree && next.id in lsaDb then parents + [if started then from[i] else 0] else parents
    ensures Derived(edges, root, tree', settled', parents')
  {
    var next := candidates[i];
    if next.id !in tree && next.id in lsaDb {
      var n := |settled|;
      forall k | 0 < k < |settled'|
        ensures parents'[k] < k && Step(edges, settled'[parents'[k]], settled'[k]).Some?
                && tree'[settled'[k]].distance == tree'[settled'[parents'[k]]].distance
                                                  + Step(edges, settled'[parents'[k]], settled'[k]).value
      {
        if k < n {
          assert settled'[k] == settled[k] && parents'[k] == parents[k] && settled'[parents[k]] == settled[parents[k]];
        } else {
          assert PushedBy(edges, tree, settled, candidates[i], from[i]);
          assert settled'[from[i]] == settled[from[i]];
        }
      }
    }
  }

  /// A round keeps every queued candidate pushed by a settled vertex: the rest keep their
  /// origins, and what the new vertex pushes comes from it.
  lemma RoundPushed(lsaDb: map<NodeAddr, Lsa>, edges: map<NodeAddr, map<NodeAddr, nat>>,
                    tree: map<NodeAddr, TreeNode>, tree': map<NodeAddr, TreeNode>,
                    settled: seq<NodeAddr>, settled': seq<NodeAddr>, candidates: seq<HeapNode>, from: seq<nat>,
                    i: nat, rest: seq<HeapNode>, fromRest: seq<nat>, pushed: seq<HeapNode>, started: bool)
    requires EdgesClosed(lsaDb, edges)
    requires i < |candidates| == |from|
    requires rest == candidates[..i] + candidates[i + 1..] && fromRest == from[..i] + from[i + 1..]
    requires !started ==> |candidates| == 1
    requires started ==> AllPushedBy(edges, tree, settled, candidates, from)
    requires forall k | k in tree :: k in tree' && tree'[k].distance == tree[k].distance
    requires Settles(lsaDb, edges, tree, settled, candidates[i], tree', settled', pushed)
    ensures AllPushedBy(edges, tree', settled', rest + pushed, fromRest + Copies(|settled|, |pushed|))
  {
    var id := candidates[i].id;
    assert settled'[..|settled|] == settled;
    if pushed != [] {
      assert id !in tree && id in edges && tree'[id].id == id && settled' == settled + [id];
    }
    PushedFrom(lsaDb, edges, tree, tree', settled, settled', candidates, from, i, rest, fromRest, id, pushed, started);
  }

  /// `RoundPushed` given only what `Settles` says of the tree and the settled vertices.
  lemma PushedFrom(lsaDb: map<NodeAddr, Lsa>, edges: map<NodeAddr, map<NodeAddr, nat>>,
                   tree: map<NodeAddr, TreeNode>, tree': map<NodeAddr, TreeNode>,
                   settled: seq<NodeAddr>, settled': seq<NodeAddr>, candidates: seq<HeapNode>, from: seq<nat>,
                   i: nat, rest: seq<HeapNode>, fromRest: seq<nat>, id: NodeAddr, pushed: seq<HeapNode>, started: bool)
    requires EdgesClosed(lsaDb, edges)
    requires i < |candidates| == |from|
    requires rest == candidates[..i] + candidates[i + 1..] && fromRest == from[..i] + from[i + 1..]
    requires !started ==> |candidates| == 1
    requires started ==> AllPushedBy(edges, tree, settled, candidates, from)
    requires forall k | k in tree :: k in tree' && tree'[k].distance == tree[k].distance
    requires |settled| <= |settled'| && settled'[..|settled|] == settled
    requires pushed != [] ==> id in edges && id in tree' && tree'[id].id == id && settled' == settled + [id]
                              && (set h | h in pushed) == Children(lsaDb, edges, tree', tree'[id])
    ensures AllPushedBy(edges, tree', settled', rest + pushed, fromRest + Copies(|settled|, |pushed|))
  {
    RestKeeps(candidates, i, from, rest, fromRest);
    var from' := fromRest + Copies(|settled|, |pushed|);
    forall k | 0 <= k < |rest + pushed|
      ensures PushedBy(edges, tree', settled', (rest + pushed)[k], from'[k])
    {
      var h, f := (rest + pushed)[k], from'[k];
      if k < |rest| {
        var j := if k < i then k else k + 1;
        assert h == candidates[j] && f == from[j];
        PushedKept(edges, tree, tree', settled, settled', h, f);
      } else {
        assert h == pushed[k - |rest|] && f == |settled|;
        PushedNew(lsaDb, edges, tree', settled, settled', id, h, f);
      }
    }
  }

  /// A candidate pushed by a settled vertex stays so as the tree grows.
  lemma PushedKept(edges: map<NodeAddr, map<NodeAddr, nat>>, tree: map<NodeAddr, TreeNode>, tree': map<NodeAddr, TreeNode>,
                   settled: seq<NodeAddr>, settled': seq<NodeAddr>, h: HeapNode, j: nat)
    requires PushedBy(edges, tree, settled, h, j)
    requires forall k | k in tree :: k in tree' && tree'[k].distance == tree[k].distance
    requires |settled| <= |settled'| && settled'[..|settled|] == settled
    ensures PushedBy(edges, tree', settled', h, j)
  {
    assert settled'[j] == settled[j];
  }

  /// A child pushed by the vertex that just entered is pushed by the last settled vertex.
  lemma PushedNew(lsaDb: map<NodeAddr, Lsa>, edges: map<NodeAddr, map<NodeAddr, nat>>, tree': map<NodeAddr, TreeNode>,
                  settled: seq<NodeAddr>, settled': seq<NodeAddr>, id: NodeAddr, h: HeapNode, j: nat)
    requires EdgesClosed(lsaDb, edges) && id in edges && id in tree' && tree'[id].id == id
    requires settled' == settled + [id] && j == |settled|
    requires h in Children(lsaDb, edges, tree', tree'[id])
    ensures PushedBy(edges, tree', settled', h, j)
  {
    var c :| c in edges[id] && ChildCandidate(lsaDb, edges, tree', tree'[id], c).Some?
             && h == ChildCandidate(lsaDb, edges, tree', tree'[id], c).value;
  }

  /// A round keeps every step covered: the popped candidate's vertex is in the tree within its
  /// distance afterwards, and the steps out of a new vertex are in the tree or pushed.
  lemma RoundClosed(lsaDb: map<NodeAddr, Lsa>, edges: map<NodeAddr, map<NodeAddr, nat>>,
                    tree: map<NodeAddr, TreeNode>, tree': map<NodeAddr, TreeNode>,
                    settled: seq<NodeAddr>, settled': seq<NodeAddr>,
                    candidates: seq<HeapNode>, i: nat, rest: seq<HeapNode>, pushed: seq<HeapNode>, last: nat)
    requires EdgesClosed(lsaDb, edges) && i < |candidates|
    requires Closed(edges, tree, candidates) && Below(tree, last) && candidates[i].dist >= last
    requires Below(tree', candidates[i].dist)
    requires rest == candidates[..i] + candidates[i + 1..]
    requires forall k | k in tree :: k in tree' && tree'[k].distance == tree[k].distance
    requires Settles(lsaDb, edges, tree, settled, candidates[i], tree', settled', pushed)
    ensures Closed(edges, tree', rest + pushed)
  {
    RestKeeps(candidates, i, candidates, rest, rest);
    var next := candidates[i];
    forall p, c | p in tree' && Step(edges, p, c).Some?
      ensures Covered(tree', rest + pushed, c, tree'[p].distance + Step(edges, p, c).value)
    {
      var bound := tree'[p].distance + Step(edges, p, c).value;
      if p in tree {
        assert Covered(tree, candidates, c, tree[p].distance + Step(edges, p, c).value);
        if !(c in tree && tree[c].distance <= bound) {
          var h :| h in candidates && h.id == c && h.dist <= bound;
          if h == next {
            StepInDb(lsaDb, edges, p, c);
            assert c in tree' && tree'[c].distance <= bound;
          } else {
            assert h in rest + pushed;
          }
        }
      } else if c !in tree' {
        var h := ChildCandidate(lsaDb, edges, tree', tree'[p], c).value;
        assert h in Children(lsaDb, edges, tree', tree'[p]);
        assert h in pushed;
        assert h in rest + pushed;
      }
    }
  }

  /// The derivation gives a path from the root to every settled vertex, costing its distance.
  lemma {:induction false} PathTo(edges: map<NodeAddr, map<NodeAddr, nat>>, root: NodeAddr,
                                  tree: map<NodeAddr, TreeNode>, settled: seq<NodeAddr>, parents: seq<nat>, i: nat)
    returns (path: seq<NodeAddr>)
    requires Derived(edges, root, tree, settled, parents) && i < |settled|
    ensures IsPath(edges, path) && path[0] == root && path[|path| - 1] == settled[i]
    ensures PathCost(edges, path) == tree[settled[i]].distance
    decreases i
  {
    if i == 0 {
      path := [root];
    } else {
      var front := PathTo(edges, root, tree, settled, parents, parents[i]);
      path := front + [settled[i]];
      assert path[..|path| - 1] == front;
      assert forall k | 0 <= k < |path| - 1 :: Step(edges, path[k], path[k + 1]).Some? by {
        forall k | 0 <= k < |path| - 1
          ensures Step(edges, path[k], path[k + 1]).Some?
        {
          if k < |front| - 1 {
            assert path[k] == front[k] && path[k + 1] == front[k + 1];
          }
        }
      }
    }
  }

  /// Every vertex of the tree is at the cost of some path from the root.
  ghost predicate Reached(edges: map<NodeAddr, map<NodeAddr, nat>>, root: NodeAddr, tree: map<NodeAddr, TreeNode>)
  {
    forall k | k in tree ::
      exists path | IsPath(edges, path) && path[0] == root && path[|path| - 1] == k :: PathCost(edges, path) == tree[k].distance
  }

  /// Every path from the root ends at a vertex of the tree, at a distance no greater than its cost.
  ghost predicate Shortest(edges: map<NodeAddr, map<NodeAddr, nat>>, root: NodeAddr, tree: map<NodeAddr, TreeNode>)
  {
    forall path | IsPath(edges, path) && path[0] == root ::
      path[|path| - 1] in tree && tree[path[|path| - 1]].distance <= PathCost(edges, path)
  }

  /// A derived tree reaches each of its vertices at the cost of a path.
  lemma DerivedReached(edges: map<NodeAddr, map<NodeAddr, nat>>, root: NodeAddr,
                       tree: map<NodeAddr, TreeNode>, settled: seq<NodeAddr>, parents: seq<nat>)
    requires Derived(edges, root, tree, settled, parents) && Listed(tree, settled)
    ensures Reached(edges, root, tree)
  {
    forall k | k in tree
      ensures exists path | IsPath(edges, path) && path[0] == root && path[|path| - 1] == k
                :: PathCost(edges, path) == tree[k].distance
    {
      var i :| 0 <= i < |settled| && settled[i] == k;
      var path := PathTo(edges, root, tree, settled, parents, i);
    }
  }

  /// With the root at 0 and every step covered by the tree itself, no path from the root is
  /// shorter than the tree's distance to where it ends.
  lemma {:induction false} ClosedShortest(edges: map<NodeAddr, map<NodeAddr, nat>>, root: NodeAddr,
                                          tree: map<NodeAddr, TreeNode>, path: seq<NodeAddr>)
    requires Closed(edges, tree, []) && root in tree && tree[root].distance == 0
    requires IsPath(edges, path) && path[0] == root
    ensures path[|path| - 1] in tree && tree[path[|path| - 1]].distance <= PathCost(edges, path)
    decreases |path|
  {
    if |path| > 1 {
      var front := path[..|path| - 1];
      assert forall k | 0 <= k < |front| - 1 :: Step(edges, front[k], front[k + 1]) == Step(edges, path[k], path[k + 1]);
      ClosedShortest(edges, root, tree, front);
      var p, c := path[|path| - 2], path[|path| - 1];
      assert Step(edges, p, c).Some?;
      assert Covered(tree, [], c, tree[p].distance + Step(edges, p, c).value);
    }
  }

  /// The loop of `calculate`: the candidate with the smallest distance is popped and settled.
  /// `settled` lists the vertices in the order they entered the tree. Every vertex of the tree is
  /// at the cost of a path from the router's own vertex, and when that vertex has an LSA, every
  /// path from it ends in the tree at a distance no greater than its cost: the distances are the
  /// shortest path costs, and the tree holds every reachable vertex.
  method Dijkstra(lsaDb: map<NodeAddr, Lsa>, edges: map<NodeAddr, map<NodeAddr, nat>>, routerId: Ipv4Addr)
    returns (tree: map<NodeAddr, TreeNode>, transit: bool, ghost settled: seq<NodeAddr>)
    requires EdgesClosed(lsaDb, edges)
    ensures Shaped(lsaDb, tree) && Listed(tree, settled) && TransitOf(edges, tree, transit)
    ensures RouterNode(routerId) in lsaDb ==> RouterNode(routerId) in tree && tree[RouterNode(routerId)].distance == 0
    ensures Reached(edges, RouterNode(routerId), tree)
    ensures RouterNode(routerId) in lsaDb ==> Shortest(edges, RouterNode(routerId), tree)
  {
    var root := RouterNode(routerId);
    tree, transit, settled := map[], false, [];
    var candidates := [HeapNode(0, false, root, [])];
    ghost var parents: seq<nat> := [];
    ghost var from: seq<nat> := [0];
    ghost var last: nat := 0;
    ghost var started := false;
    SearchStarts(lsaDb, edges, root);
    tree, transit, settled, parents, from, last, started :=
      Search(lsaDb, edges, root, tree, transit, settled, parents, candidates, from, last, started);
    SearchEnds(lsaDb, edges, root, tree, transit, settled, parents, from, last, started);
  }

  /// The rounds of the loop, until no candidate is left.
  method Search(lsaDb: map<NodeAddr, Lsa>, edges: map<NodeAddr, map<NodeAddr, nat>>, ghost root: NodeAddr,
                tree0: map<NodeAddr, TreeNode>, transit0: bool, ghost settled0: seq<NodeAddr>, ghost parents0: seq<nat>,
                candidates0: seq<HeapNode>, ghost from0: seq<nat>, ghost last0: nat, ghost started0: bool)
    returns (tree: map<NodeAddr, TreeNode>, transit: bool, ghost settled: seq<NodeAddr>, ghost parents: seq<nat>,
             ghost from: seq<nat>, ghost last: nat, ghost started: bool)
    requires EdgesClosed(lsaDb, edges)
    requires Searching(lsaDb, edges, root, tree0, transit0, settled0, parents0, candidates0, from0, last0, started0)
    ensures Searching(lsaDb, edges, root, tree, transit, settled, parents, [], from, last, started)
  {
    tree, transit, settled, parents, from, last, started := tree0, transit0, settled0, parents0, from0, last0, started0;
    var candidates := candidates0;
    // The invariant is compared with `true` so that it is checked as one fact rather than split
    // into its many conjuncts: `Round` keeps it as a whole.
    while candidates != []
      invariant Searching(lsaDb, edges, root, tree, transit, settled, parents, candidates, from, last, started) == true
      decreases |lsaDb.Keys - tree.Keys|, |candidates|
    {
      tree, transit, settled, parents, candidates, from, last :=
        Round(lsaDb, edges, root, tree, transit, settled, parents, candidates, from, last, started);
      started := true;
    }
  }

  /// Before the first pop only the router's own vertex is queued, at 0.
  lemma SearchStarts(lsaDb: map<NodeAddr, Lsa>, edges: map<NodeAddr, map<NodeAddr, nat>>, root: NodeAddr)
    ensures Searching(lsaDb, edges, root, map[], false, [], [], [HeapNode(0, false, root, [])], [0], 0, false)
  {
  }

  /// With nothing left queued, the tree is derived and closed: its distances are the shortest
  /// path costs from the router's own vertex.
  lemma SearchEnds(lsaDb: map<NodeAddr, Lsa>, edges: map<NodeAddr, map<NodeAddr, nat>>, root: NodeAddr,
                   tree: map<NodeAddr, TreeNode>, transit: bool, settled: seq<NodeAddr>, parents: seq<nat>,
                   from: seq<nat>, last: nat, started: bool)
    requires Searching(lsaDb, edges, root, tree, transit, settled, parents, [], from, last, started)
    ensures Shaped(lsaDb, tree) && Listed(tree, settled) && TransitOf(edges, tree, transit)
    ensures root in lsaDb ==> root in tree && tree[root].distance == 0
    ensures Reached(edges, root, tree)
    ensures root in lsaDb ==> Shortest(edges, root, tree)
  {
    DerivedReached(edges, root, tree, settled, parents);
    if root in lsaDb {
      forall path | IsPath(edges, path) && path[0] == root
        ensures path[|path| - 1] in tree && tree[path[|path| - 1]].distance <= PathCost(edges, path)
      {
        ClosedShortest(edges, root, tree, path);
      }
    }
  }

  /// The result of `calculate`: the tree's vertices and the area's new transit capability.
  /// The edges `lsa2nodes` reads from each vertex's LSA.
  function EdgesOf(vertices: map<NodeAddr, Lsa>): map<NodeAddr, map<NodeAddr, nat>>
    requires forall k | k in vertices :: Adjacent(vertices[k]).Some?
  {
    map k | k in vertices :: Adjacent(vertices[k]).value
  }

  datatype SpfTree = SpfTree(nodes: map<NodeAddr, TreeNode>, transit: bool)

  /// `ShortPathTree::calculate` over the area's LSAs (aged, in the database's order): `None` where
  /// `lsa2nodes` panics on a vertex's LSA. The tree holds the router itself at distance 0 when it
  /// has a router-LSA, every vertex under its own id with its LSA (a stub with the LSA of a vertex
  /// that links to it), and vertices enter it in order of distance. Each vertex of the tree is at
  /// the cost of a path from the router over the LSAs' edges, and when the router has an LSA, no
  /// path from it is cheaper: the distances are the shortest path costs.
  method Calculate(lsas: seq<Lsa>, routerId: Ipv4Addr) returns (r: Option<SpfTree>, ghost settled: seq<NodeAddr>)
    ensures r.None? <==> exists k | k in Vertices(lsas) :: Adjacent(Vertices(lsas)[k]).None?
    ensures r.Some? ==> forall k | k in r.value.nodes ::
              r.value.nodes[k].id == k
              && (!k.StubNode? ==> k in Vertices(lsas) && r.value.nodes[k].lsa == Vertices(lsas)[k])
              && (k.StubNode? ==> exists p | p in Vertices(lsas) :: Adjacent(Vertices(lsas)[p]).Some?
                                    && k in Adjacent(Vertices(lsas)[p]).value && r.value.nodes[k].lsa == Vertices(lsas)[p])
    ensures r.Some? && RouterNode(routerId) in Vertices(lsas) ==>
              RouterNode(routerId) in r.value.nodes && r.value.nodes[RouterNode(routerId)].distance == 0
    ensures r.Some? ==> (r.value.transit <==> exists k | k in r.value.nodes && !k.StubNode? :: HaveV(r.value.nodes[k].lsa))
    ensures r.Some? ==> Listed(r.value.nodes, settled)
    ensures r.Some? ==> Reached(EdgesOf(Vertices(lsas)), RouterNode(routerId), r.value.nodes)
    ensures r.Some? && RouterNode(routerId) in Vertices(lsas) ==>
              Shortest(EdgesOf(Vertices(lsas)), RouterNode(routerId), r.value.nodes)
  {
    var vertices := Vertices(lsas);
    if exists k | k in vertices :: Adjacent(vertices[k]).None? {
      return None, [];
    }
    var edges := EdgesOf(vertices);
    var lsaDb := AddStubs(vertices, edges);
    var tree, transit;
    tree, transit, settled := Dijkstra(lsaDb, edges, routerId);
    r := Some(SpfTree(tree, transit));
  }

  // ---------------------------------------------------------------------------
  // `get_routing`

  /// The body of a vertex's LSA is the one its vertex kind reads (`try_into().unwrap()`).
  predicate Readable(node: TreeNode)
  {
    (node.id.RouterNode? ==> node.lsa.data.Router?) && (node.id.NetworkNode? ==> node.lsa.data.Network?)
  }

  /// The intra-area route of one vertex of the tree: routers only when they are AS boundary
  /// routers (E bit), networks and stubs by their masked prefix; the cost is the vertex's
  /// distance and the next hop its first hop, 0.0.0.0 when it has none.
  function NodeRoute(node: TreeNode, externalCap: bool, areaId: Ipv4Addr): (r: Option<RoutingTableItem>)
    requires Readable(node)
    ensures r.None? <==> node.id.RouterNode? && !node.lsa.data.router.e
    ensures r.Some? ==> && r.value.pathType == AreaInternal && r.value.cost == node.distance && r.value.costT2 == 0
                        && r.value.areaId == areaId && r.value.externalCap == externalCap
                        && r.value.lsaOrigin == IndexOf(node.lsa.header)
                        && r.value.adRouter == node.lsa.header.advertisingRouter
                        && r.value.nextHop == (if node.nextHops == [] then Unspecified else node.nextHops[0])
    ensures r.Some? && node.id.RouterNode? ==> KeyOf(r.value) == AsbrIndex(node.id.router)
    ensures r.Some? && node.id.NetworkNode? ==>
              var m := From(node.id.dr, node.lsa.data.network.networkMask);
              KeyOf(r.value) == NetworkIndex(AddrMask(NetworkOf(m), m.len))
    ensures r.Some? && node.id.StubNode? ==>
              KeyOf(r.value) == NetworkIndex(AddrMask(NetworkOf(node.id.prefix), node.id.prefix.len))
  {
    var hop := if node.nextHops == [] then Unspecified else node.nextHops[0];
    var dest := NodeDest(node);
    match dest
    case None => None
    case Some((t, id, mask)) =>
      Some(RoutingTableItem(t, id, mask, externalCap, areaId, AreaInternal, node.distance, 0,
                            IndexOf(node.lsa.header), hop, node.lsa.header.advertisingRouter))
  }

  /// The destination type, id and mask of a vertex's route, `None` for a router without the E bit.
  function NodeDest(node: TreeNode): (r: Option<(DestType, Ipv4Addr, Ipv4Addr)>)
    requires Readable(node)
    ensures r.None? <==> node.id.RouterNode? && !node.lsa.data.router.e
    ensures r.Some? && node.id.RouterNode? ==> r.value == (RouterDest, node.id.router, Unspecified)
    ensures r.Some? && node.id.NetworkNode? ==>
              var m := From(node.id.dr, node.lsa.data.network.networkMask);
              r.value == (NetworkDest, NetworkOf(m), MaskOf(m))
    ensures r.Some? && node.id.StubNode? ==> r.value == (NetworkDest, NetworkOf(node.id.prefix), MaskOf(node.id.prefix))
    ensures r.Some? && node.id.NetworkNode? ==>
              var m := From(node.id.dr, node.lsa.data.network.networkMask);
              From(r.value.1, r.value.2) == AddrMask(NetworkOf(m), m.len)
    ensures r.Some? && node.id.StubNode? ==>
              From(r.value.1, r.value.2) == AddrMask(NetworkOf(node.id.prefix), node.id.prefix.len)
  {
    match node.id
    case RouterNode(id) => if node.lsa.data.router.e then Some((RouterDest, id, Unspecified)) else None
    case NetworkNode(ip) =>
      var m := From(ip, node.lsa.data.network.networkMask);
      KeyOfNetwork(m);
      Some((NetworkDest, NetworkOf(m), MaskOf(m)))
    case StubNode(p) =>
      KeyOfNetwork(p);
      Some((NetworkDest, NetworkOf(p), MaskOf(p)))
  }

  /// `get_routing`: the routes of the tree's vertices, visited in `order` (the map's iteration order).
  function TreeRoutes(nodes: map<NodeAddr, TreeNode>, order: seq<NodeAddr>, externalCap: bool, areaId: Ipv4Addr)
    : (r: seq<RoutingTableItem>)
    requires forall k | k in order :: k in nodes && Readable(nodes[k])
    ensures forall x | x in r :: exists k | k in order :: NodeRoute(nodes[k], externalCap, areaId) == Some(x)
    ensures forall k | k in order && NodeRoute(nodes[k], externalCap, areaId).Some? ::
              NodeRoute(nodes[k], externalCap, areaId).value in r
    decreases |order|
  {
    if order == [] then []
    else
      var rest := TreeRoutes(nodes, order[1..], externalCap, areaId);
      assert forall k | k in order[1..] :: k in order;
      assert forall k | k in order :: k == order[0] || k in order[1..];
      match NodeRoute(nodes[order[0]], externalCap, areaId)
      case None => rest
      case Some(x) => [x] + rest
  }
}
