/// The flooding procedure (section 13.3 of RFC 2328) as the daemon runs it: which interfaces
/// an LSA goes out on, what each neighbour's request and retransmission lists become, and
/// whether, where and with what age the LSA is sent on an interface. Sending is not part of
/// this model: an interface's outcome names the copy and the destination it would be sent to.
module Flooding {
  import opened Common
  import opened Util
  import opened Constants
  import opened LsaView
  import opened Neighbors
  import opened Interfaces

  /// The daemon's order on LSA headers, which decides which of two instances is newer.
  datatype Ordering = Less | Equal | Greater

  /// `VecDeque::swap_remove_back(i)`: the element at `i` leaves and the last element takes its place.
  function SwapRemoveBack<T>(s: seq<T>, i: nat): (r: seq<T>)
    requires i < |s|
    ensures |r| == |s| - 1
    ensures multiset(r) == multiset(s) - multiset{s[i]}
    ensures forall j | 0 <= j < |r| && j != i :: r[j] == s[j]
    ensures i < |r| ==> r[i] == s[|s| - 1]
  {
    SwapRemoveBackMultiset(s, i);
    if i == |s| - 1 then s[..i] else s[..i] + [s[|s| - 1]] + s[i + 1..|s| - 1]
  }

  lemma SwapRemoveBackMultiset<T>(s: seq<T>, i: nat)
    requires i < |s|
    ensures i == |s| - 1 ==> multiset(s[..i]) == multiset(s) - multiset{s[i]}
    ensures i < |s| - 1 ==> multiset(s[..i] + [s[|s| - 1]] + s[i + 1..|s| - 1]) == multiset(s) - multiset{s[i]}
  {
    var a, x := s[..i], s[i];
    if i == |s| - 1 {
      assert s == a + [x];
    } else {
      var b, y := s[i + 1..|s| - 1], s[|s| - 1];
      assert s == a + [x] + b + [y];
      assert multiset(s) == multiset(a) + multiset{x} + multiset(b) + multiset{y};
      assert multiset(a + [y] + b) == multiset(a) + multiset{y} + multiset(b);
    }
  }

  /// `position`: the first entry of the list that is an instance of the LSA `key`.
  function Position(list: seq<LsaHeader>, key: LsaIndex): (r: Option<nat>)
    ensures r.Some? ==> r.value < |list| && IndexOf(list[r.value]) == key
    ensures r.Some? ==> forall j | 0 <= j < r.value :: IndexOf(list[j]) != key
    ensures r.None? <==> forall j | 0 <= j < |list| :: IndexOf(list[j]) != key
    decreases |list|
  {
    if list == [] then None
    else if IndexOf(list[0]) == key then Some(0)
    else match Position(list[1..], key)
      case None => None
      case Some(j) => Some(j + 1)
  }

  /// What flooding does to one neighbour's lists, and whether the neighbour needs the LSA.
  datatype NeighborFlood = NeighborFlood(requests: seq<LsaHeader>, retransmit: set<LsaIndex>, added: bool)

  /// The LSA is newer than what the neighbour asked for, or the neighbour asked for nothing of it.
  predicate NewerThanRequested(requests: seq<LsaHeader>, h: LsaHeader, cmp: (LsaHeader, LsaHeader) -> Ordering)
  {
    var p := Position(requests, IndexOf(h));
    p.None? || cmp(h, requests[p.value]) == Greater
  }

  /// Step (1) of the procedure for one neighbour: one below Exchange is left alone; a request
  /// for an older instance means the neighbour does not need the LSA; a request for the same or
  /// an older instance is dropped from the request list; the neighbour the LSA came from is
  /// skipped; any other neighbour gets the LSA on its retransmission list.
  function FloodNeighbor(state: NeighborState, ip: Ipv4Addr, requests: seq<LsaHeader>, retransmit: set<LsaIndex>,
                         h: LsaHeader, src: Ipv4Addr, cmp: (LsaHeader, LsaHeader) -> Ordering): (r: NeighborFlood)
    ensures !AtLeast(state, Exchange) ==> r == NeighborFlood(requests, retransmit, false)
    ensures r.added <==> AtLeast(state, Exchange) && NewerThanRequested(requests, h, cmp) && src != ip
    ensures r.retransmit == if r.added then retransmit + {IndexOf(h)} else retransmit
    ensures var p := Position(requests, IndexOf(h));
            if AtLeast(state, Exchange) && p.Some? && cmp(h, requests[p.value]) != Less
            then multiset(r.requests) == multiset(requests) - multiset{requests[p.value]}
            else r.requests == requests
  {
    if !AtLeast(state, Exchange) then NeighborFlood(requests, retransmit, false)
    else
      var p := Position(requests, IndexOf(h));
      var requests' := if p.Some? && cmp(h, requests[p.value]) != Less then SwapRemoveBack(requests, p.value) else requests;
      if p.Some? && cmp(h, requests[p.value]) != Greater then NeighborFlood(requests', retransmit, false)
      else if src == ip then NeighborFlood(requests', retransmit, false)
      else NeighborFlood(requests', retransmit + {IndexOf(h)}, true)
  }

  /// The neighbour the LSA came from never gets it on its retransmission list, and no
  /// neighbour loses an entry of that list.
  lemma FloodNeighborNeverBack(state: NeighborState, ip: Ipv4Addr, requests: seq<LsaHeader>, retransmit: set<LsaIndex>,
                               h: LsaHeader, cmp: (LsaHeader, LsaHeader) -> Ordering)
    ensures FloodNeighbor(state, ip, requests, retransmit, h, ip, cmp).retransmit == retransmit
    ensures forall src :: retransmit <= FloodNeighbor(state, ip, requests, retransmit, h, src, cmp).retransmit
  {
  }

  /// The loop body of `flooding_on` for one neighbour.
  method FloodNeighborStep(n: Neighbor, h: LsaHeader, src: Ipv4Addr, cmp: (LsaHeader, LsaHeader) -> Ordering)
    returns (added: bool)
    modifies n`lsRequestList, n`lsRetransmissionList
    ensures NeighborFlood(n.lsRequestList, n.lsRetransmissionList, added)
            == FloodNeighbor(n.state, n.ipAddr, old(n.lsRequestList), old(n.lsRetransmissionList), h, src, cmp)
  {
    added := false;
    if !AtLeast(n.state, Exchange) {
      return;
    }
    var p := Position(n.lsRequestList, IndexOf(h));
    if p.Some? {
      var o := cmp(h, n.lsRequestList[p.value]);
      if o == Less {
        return;
      }
      n.lsRequestList := SwapRemoveBack(n.lsRequestList, p.value);
      if o == Equal {
        return;
      }
    }
    if src == n.ipAddr {
      return;
    }
    n.lsRetransmissionList := n.lsRetransmissionList + {IndexOf(h)};
    added := true;
  }

  /// What `flooding_on` does with an interface: nothing, send the copy to the destination, or
  /// fail to find the neighbour the LSA came from (the `unwrap` panics).
  datatype FloodResult = NotFlooded | Flooded(copy: Lsa, dest: Ipv4Addr) | NoSuchNeighbor

  /// The copy sent out: its age advanced by the interface's transmission delay, held at MaxAge.
  function SentCopy(lsa: Lsa, infTransDelay: nat): (r: Lsa)
    ensures r == AgedLsa(lsa, infTransDelay)
  {
    var age := lsa.header.lsAge + infTransDelay;
    lsa.(header := lsa.header.(lsAge := if age < LsaMaxAge then age else LsaMaxAge))
  }

  /// Steps (2) to (5) of the procedure on an interface, once the neighbours are done:
  /// `success` says some neighbour got the LSA on its retransmission list; `fromHere` that the
  /// LSA arrived on this interface from another address; `srcRole` the role of the neighbour it
  /// came from, DR or BDR, `None` when there is no neighbour under that address.
  function Decide(success: bool, fromHere: bool, srcRole: Option<bool>, isBdr: bool, isDrOther: bool,
                  lsa: Lsa, infTransDelay: nat): (r: FloodResult)
    ensures r.Flooded? <==> success && (fromHere ==> srcRole == Some(false) && !isBdr)
    ensures r.NoSuchNeighbor? <==> success && fromHere && srcRole.None?
    ensures r.Flooded? ==> r.copy == AgedLsa(lsa, infTransDelay)
    ensures r.Flooded? ==> r.dest == if isDrOther then AllDRouters else AllSpfRoutersAsWritten
  {
    if !success then NotFlooded
    else if fromHere && srcRole.None? then NoSuchNeighbor
    else if fromHere && (srcRole.value || isBdr) then NotFlooded
    else Flooded(SentCopy(lsa, infTransDelay), if isDrOther then AllDRouters else AllSpfRoutersAsWritten)
  }

  /// The fields of a neighbour flooding reads and leaves alone: state, address, DR and BDR.
  function RolesOf(n: Neighbor): (r: (NeighborState, Ipv4Addr, Ipv4Addr, Ipv4Addr))
    reads n
    ensures r == (n.state, n.ipAddr, n.dr, n.bdr)
  {
    (n.state, n.ipAddr, n.dr, n.bdr)
  }

  /// The lists of a neighbour flooding changes.
  function ListsOf(n: Neighbor): (r: (seq<LsaHeader>, set<LsaIndex>))
    reads n
    ensures r == (n.lsRequestList, n.lsRetransmissionList)
  {
    (n.lsRequestList, n.lsRetransmissionList)
  }

  /// Every neighbour's roles, by key.
  function RolesMap(iface: Interface): (r: map<Ipv4Addr, (NeighborState, Ipv4Addr, Ipv4Addr, Ipv4Addr)>)
    reads iface, iface.neighbors.Values
    ensures r.Keys == iface.neighbors.Keys
    ensures forall k | k in r :: r[k] == RolesOf(iface.neighbors[k])
  {
    map k | k in iface.neighbors :: RolesOf(iface.neighbors[k])
  }

  /// Every neighbour's lists, by key.
  function ListsMap(iface: Interface): (r: map<Ipv4Addr, (seq<LsaHeader>, set<LsaIndex>)>)
    reads iface, iface.neighbors.Values
    ensures r.Keys == iface.neighbors.Keys
    ensures forall k | k in r :: r[k] == ListsOf(iface.neighbors[k])
  {
    map k | k in iface.neighbors :: ListsOf(iface.neighbors[k])
  }

  /// What step (1) makes of each neighbour, from its roles and its lists before flooding.
  function Outcomes(roles: map<Ipv4Addr, (NeighborState, Ipv4Addr, Ipv4Addr, Ipv4Addr)>,
                    lists: map<Ipv4Addr, (seq<LsaHeader>, set<LsaIndex>)>,
                    h: LsaHeader, src: Ipv4Addr, cmp: (LsaHeader, LsaHeader) -> Ordering): (r: map<Ipv4Addr, NeighborFlood>)
    ensures r.Keys == roles.Keys * lists.Keys
    ensures forall k | k in r :: r[k] == FloodNeighbor(roles[k].0, roles[k].1, lists[k].0, lists[k].1, h, src, cmp)
  {
    map k | k in roles && k in lists :: FloodNeighbor(roles[k].0, roles[k].1, lists[k].0, lists[k].1, h, src, cmp)
  }

  /// The values of `m` under the keys of `order`, in that order.
  function Along<T>(m: map<Ipv4Addr, T>, order: seq<Ipv4Addr>): (r: seq<T>)
    requires forall k | k in order :: k in m
    ensures |r| == |order|
    ensures forall j | 0 <= j < |order| :: r[j] == m[order[j]]
  {
    seq(|order|, j requires 0 <= j < |order| => m[order[j]])
  }

  /// Step (1) applied to each neighbour of a sequence, from its roles and lists.
  function OutcomesAlong(roles: seq<(NeighborState, Ipv4Addr, Ipv4Addr, Ipv4Addr)>, before: seq<(seq<LsaHeader>, set<LsaIndex>)>,
                         h: LsaHeader, src: Ipv4Addr, cmp: (LsaHeader, LsaHeader) -> Ordering): (r: seq<NeighborFlood>)
    requires |roles| == |before|
    ensures |r| == |roles|
    ensures forall j | 0 <= j < |r| :: r[j] == FloodNeighbor(roles[j].0, roles[j].1, before[j].0, before[j].1, h, src, cmp)
  {
    seq(|roles|, j requires 0 <= j < |roles| => FloodNeighbor(roles[j].0, roles[j].1, before[j].0, before[j].1, h, src, cmp))
  }

  /// Some of the first `i` outcomes puts the LSA on a retransmission list.
  predicate AnyAdded(out: seq<NeighborFlood>, i: nat)
    requires i <= |out|
  {
    i > 0 && (out[i - 1].added || AnyAdded(out, i - 1))
  }

  lemma {:induction false} AnyAddedExists(out: seq<NeighborFlood>, i: nat)
    requires i <= |out|
    ensures AnyAdded(out, i) <==> exists j | 0 <= j < i :: out[j].added
  {
    if i > 0 {
      AnyAddedExists(out, i - 1);
    }
  }

  /// Distinct keys of an interface with distinct neighbours give distinct neighbours.
  lemma AlongDistinct(iface: Interface, order: seq<Ipv4Addr>)
    requires iface.Distinct()
    requires forall k | k in order :: k in iface.neighbors
    requires forall i, j | 0 <= i < j < |order| :: order[i] != order[j]
    ensures var ns := Along(iface.neighbors, order);
            forall a, b | 0 <= a < b < |ns| :: ns[a] != ns[b]
  {
  }

  /// Some neighbour needs the LSA: step (1) put it on that neighbour's retransmission list.
  predicate Needed(o: map<Ipv4Addr, NeighborFlood>)
  {
    exists k | k in o :: o[k].added
  }

  /// Part way through `flooding_on` over the neighbours `ns`, in order: the first `i` hold their
  /// outcome `out`, the rest their lists from before, and every one its roles.
  ghost predicate Progress(ns: seq<Neighbor>, i: nat, roles: seq<(NeighborState, Ipv4Addr, Ipv4Addr, Ipv4Addr)>,
                           before: seq<(seq<LsaHeader>, set<LsaIndex>)>, out: seq<NeighborFlood>)
    reads ns
  {
    && i <= |ns| == |roles| == |before| == |out|
    && (forall j | 0 <= j < |ns| :: (ns[j].state, ns[j].ipAddr, ns[j].dr, ns[j].bdr) == roles[j])
    && (forall j | i <= j < |ns| :: (ns[j].lsRequestList, ns[j].lsRetransmissionList) == before[j])
    && (forall j | 0 <= j < i :: (ns[j].lsRequestList, ns[j].lsRetransmissionList) == (out[j].requests, out[j].retransmit))
  }

  /// One turn of the loop in `flooding_on`: neighbour `ns[i]` is taken through step (1).
  method FloodStep(ns: seq<Neighbor>, i: nat, ghost roles: seq<(NeighborState, Ipv4Addr, Ipv4Addr, Ipv4Addr)>,
                   ghost before: seq<(seq<LsaHeader>, set<LsaIndex>)>, ghost out: seq<NeighborFlood>,
                   h: LsaHeader, src: Ipv4Addr, cmp: (LsaHeader, LsaHeader) -> Ordering) returns (added: bool)
    requires i < |ns| && Progress(ns, i, roles, before, out)
    requires forall a, b | 0 <= a < b < |ns| :: ns[a] != ns[b]
    requires out[i] == FloodNeighbor(roles[i].0, roles[i].1, before[i].0, before[i].1, h, src, cmp)
    modifies ns[i]
    ensures Progress(ns, i + 1, roles, before, out)
    ensures added == out[i].added
  {
    var n := ns[i];
    assert forall j | 0 <= j < |ns| && j != i :: ns[j] != n;
    added := FloodNeighborStep(n, h, src, cmp);
  }

  /// The loop of `flooding_on`: every neighbour of `ns`, in order, is taken through step (1);
  /// the result says whether any of them got the LSA on its retransmission list.
  method FloodAll(ns: seq<Neighbor>, ghost roles: seq<(NeighborState, Ipv4Addr, Ipv4Addr, Ipv4Addr)>,
                  ghost before: seq<(seq<LsaHeader>, set<LsaIndex>)>, ghost out: seq<NeighborFlood>,
                  h: LsaHeader, src: Ipv4Addr, cmp: (LsaHeader, LsaHeader) -> Ordering) returns (success: bool)
    requires Progress(ns, 0, roles, before, out)
    requires forall a, b | 0 <= a < b < |ns| :: ns[a] != ns[b]
    requires out == OutcomesAlong(roles, before, h, src, cmp)
    modifies ns
    ensures Progress(ns, |ns|, roles, before, out)
    ensures success == AnyAdded(out, |out|)
  {
    success := false;
    var i := 0;
    while i < |ns|
      invariant Progress(ns, i, roles, before, out)
      invariant success == AnyAdded(out, i)
    {
      var added := FloodStep(ns, i, roles, before, out, h, src, cmp);
      success := success || added;
      i := i + 1;
    }
  }

  /// Once every neighbour of `order` is done, every neighbour still holds its roles.
  lemma {:induction false} RolesDone(iface: Interface, order: seq<Ipv4Addr>, ns: seq<Neighbor>,
                                     roles0: map<Ipv4Addr, (NeighborState, Ipv4Addr, Ipv4Addr, Ipv4Addr)>)
    requires forall k :: k in order <==> k in iface.neighbors
    requires iface.neighbors.Keys == roles0.Keys
    requires |ns| == |order|
    requires forall j | 0 <= j < |order| :: ns[j] == iface.neighbors[order[j]]
    requires forall j | 0 <= j < |order| :: RolesOf(ns[j]) == roles0[order[j]]
    ensures RolesMap(iface) == roles0
  {
    forall k | k in iface.neighbors
      ensures RolesMap(iface)[k] == roles0[k]
    {
      var j :| 0 <= j < |order| && order[j] == k;
      assert ns[j] == iface.neighbors[k];
    }
  }

  /// Once every neighbour of `order` is done, every neighbour holds its outcome, by key.
  lemma {:induction false} ListsDone(iface: Interface, order: seq<Ipv4Addr>, ns: seq<Neighbor>,
                                     o: map<Ipv4Addr, NeighborFlood>, out: seq<NeighborFlood>)
    requires forall k :: k in order <==> k in iface.neighbors
    requires iface.neighbors.Keys <= o.Keys
    requires |ns| == |order| == |out|
    requires forall j | 0 <= j < |order| :: ns[j] == iface.neighbors[order[j]] && out[j] == o[order[j]]
    requires forall j | 0 <= j < |order| :: ListsOf(ns[j]) == (out[j].requests, out[j].retransmit)
    ensures forall k | k in iface.neighbors :: ListsOf(iface.neighbors[k]) == (o[k].requests, o[k].retransmit)
  {
    forall k | k in iface.neighbors
      ensures ListsOf(iface.neighbors[k]) == (o[k].requests, o[k].retransmit)
    {
      var j :| 0 <= j < |order| && order[j] == k;
      assert ns[j] == iface.neighbors[k];
    }
  }

  /// Some neighbour needs the LSA exactly when some outcome along `order` says so.
  lemma NeededAlong(roles0: map<Ipv4Addr, (NeighborState, Ipv4Addr, Ipv4Addr, Ipv4Addr)>,
                    lists0: map<Ipv4Addr, (seq<LsaHeader>, set<LsaIndex>)>, order: seq<Ipv4Addr>, out: seq<NeighborFlood>,
                    h: LsaHeader, src: Ipv4Addr, cmp: (LsaHeader, LsaHeader) -> Ordering)
    requires forall k :: k in order <==> k in roles0
    requires roles0.Keys == lists0.Keys
    requires |order| == |out|
    requires forall j | 0 <= j < |order| ::
               out[j] == FloodNeighbor(roles0[order[j]].0, roles0[order[j]].1, lists0[order[j]].0, lists0[order[j]].1, h, src, cmp)
    ensures Needed(Outcomes(roles0, lists0, h, src, cmp)) <==> AnyAdded(out, |out|)
  {
    var o := Outcomes(roles0, lists0, h, src, cmp);
    AnyAddedExists(out, |out|);
    if Needed(o) {
      var k :| k in o && o[k].added;
      var j :| 0 <= j < |order| && order[j] == k;
      assert out[j].added;
    }
    if AnyAdded(out, |out|) {
      var j :| 0 <= j < |out| && out[j].added;
      var k := order[j];
      assert k in order;
      assert o[k] == out[j];
    }
  }

  /// Step (1) of `flooding_on`: each neighbour, in the map's iteration order `order`, is taken
  /// through steps (a)-(d). `roles0` and `lists0` are the neighbours' roles and lists before;
  /// `success` says whether some neighbour had the LSA added to its retransmission list.
  method FloodNeighbors(iface: Interface, src: Ipv4Addr, h: LsaHeader, cmp: (LsaHeader, LsaHeader) -> Ordering,
                        order: seq<Ipv4Addr>, ghost roles0: map<Ipv4Addr, (NeighborState, Ipv4Addr, Ipv4Addr, Ipv4Addr)>,
                        ghost lists0: map<Ipv4Addr, (seq<LsaHeader>, set<LsaIndex>)>) returns (success: bool)
    requires iface.Distinct()
    requires forall k :: k in order <==> k in iface.neighbors
    requires forall i, j | 0 <= i < j < |order| :: order[i] != order[j]
    requires roles0 == RolesMap(iface) && lists0 == ListsMap(iface)
    modifies iface.neighbors.Values
    ensures success == Needed(Outcomes(roles0, lists0, h, src, cmp))
    ensures RolesMap(iface) == roles0
    ensures var out := Outcomes(roles0, lists0, h, src, cmp);
            forall k | k in iface.neighbors :: ListsOf(iface.neighbors[k]) == (out[k].requests, out[k].retransmit)
  {
    var ns := Along(iface.neighbors, order);
    ghost var roles, before := Along(roles0, order), Along(lists0, order);
    ghost var out := OutcomesAlong(roles, before, h, src, cmp);
    AlongDistinct(iface, order);
    success := FloodAll(ns, roles, before, out, h, src, cmp);
    FloodDone(iface, order, ns, roles0, lists0, before, out, h, src, cmp);
  }

  /// Once every neighbour of `order` is done, the neighbours hold their roles and outcomes by
  /// key, and some outcome along `order` needs the LSA exactly when some neighbour does.
  lemma FloodDone(iface: Interface, order: seq<Ipv4Addr>, ns: seq<Neighbor>,
                  roles0: map<Ipv4Addr, (NeighborState, Ipv4Addr, Ipv4Addr, Ipv4Addr)>,
                  lists0: map<Ipv4Addr, (seq<LsaHeader>, set<LsaIndex>)>,
                  before: seq<(seq<LsaHeader>, set<LsaIndex>)>, out: seq<NeighborFlood>,
                  h: LsaHeader, src: Ipv4Addr, cmp: (LsaHeader, LsaHeader) -> Ordering)
    requires forall k :: k in order <==> k in iface.neighbors
    requires roles0.Keys == iface.neighbors.Keys == lists0.Keys
    requires ns == Along(iface.neighbors, order) && before == Along(lists0, order)
    requires out == OutcomesAlong(Along(roles0, order), before, h, src, cmp)
    requires Progress(ns, |ns|, Along(roles0, order), before, out)
    ensures RolesMap(iface) == roles0
    ensures var o := Outcomes(roles0, lists0, h, src, cmp);
            forall k | k in iface.neighbors :: ListsOf(iface.neighbors[k]) == (o[k].requests, o[k].retransmit)
    ensures Needed(Outcomes(roles0, lists0, h, src, cmp)) <==> AnyAdded(out, |out|)
  {
    RolesDone(iface, order, ns, roles0);
    ListsDone(iface, order, ns, Outcomes(roles0, lists0, h, src, cmp), out);
    NeededAlong(roles0, lists0, order, out, h, src, cmp);
  }

  /// `flooding_on`: step (1) on every neighbour, then the interface decides whether the LSA
  /// goes out. `me` is the address of the interface the LSA arrived on and `src` the address
  /// it came from; `roles0` and `lists0` are the neighbours' roles and lists before.
  method FloodOn(iface: Interface, me: Ipv4Addr, src: Ipv4Addr, lsa: Lsa, cmp: (LsaHeader, LsaHeader) -> Ordering,
                 order: seq<Ipv4Addr>, ghost roles0: map<Ipv4Addr, (NeighborState, Ipv4Addr, Ipv4Addr, Ipv4Addr)>,
                 ghost lists0: map<Ipv4Addr, (seq<LsaHeader>, set<LsaIndex>)>) returns (r: FloodResult)
    requires iface.Distinct()
    requires forall k :: k in order <==> k in iface.neighbors
    requires forall i, j | 0 <= i < j < |order| :: order[i] != order[j]
    requires roles0 == RolesMap(iface) && lists0 == ListsMap(iface)
    modifies iface.neighbors.Values
    ensures RolesMap(iface) == roles0
    ensures var out := Outcomes(roles0, lists0, lsa.header, src, cmp);
            forall k | k in iface.neighbors :: ListsOf(iface.neighbors[k]) == (out[k].requests, out[k].retransmit)
    ensures var fromHere := iface.ipAddr == me && iface.ipAddr != src;
            var srcRole := if src in iface.neighbors then Some(iface.neighbors[src].IsDr() || iface.neighbors[src].IsBdr()) else None;
            r == Decide(Needed(Outcomes(roles0, lists0, lsa.header, src, cmp)), fromHere, srcRole, iface.IsBdr(),
                        iface.IsDrOther(), lsa, iface.infTransDelay)
  {
    var success := FloodNeighbors(iface, src, lsa.header, cmp, order, roles0, lists0);
    var fromHere := iface.ipAddr == me && iface.ipAddr != src;
    var srcRole := if src in iface.neighbors then Some(iface.neighbors[src].IsDr() || iface.neighbors[src].IsBdr()) else None;
    r := Decide(success, fromHere, srcRole, iface.IsBdr(), iface.IsDrOther(), lsa, iface.infTransDelay);
  }

  /// An interface takes part in flooding an AS-external LSA when it routes external traffic,
  /// and any other LSA when it belongs to the area the LSA came from.
  predicate Eligible(lsType: nat, externalRouting: bool, areaId: Ipv4Addr, lsaArea: Ipv4Addr)
  {
    if lsType == AsExternalLsaType then externalRouting else areaId == lsaArea
  }

  /// What the procedure makes of one interface whose neighbours had the roles `roles0` and the
  /// lists `lists0`: nothing when it is not eligible, else the decision of steps (2) to (5).
  function InterfaceOutcome(iface: Interface, roles0: map<Ipv4Addr, (NeighborState, Ipv4Addr, Ipv4Addr, Ipv4Addr)>,
                            lists0: map<Ipv4Addr, (seq<LsaHeader>, set<LsaIndex>)>, lsaArea: Ipv4Addr, me: Ipv4Addr,
                            src: Ipv4Addr, lsa: Lsa, cmp: (LsaHeader, LsaHeader) -> Ordering): FloodResult
    reads iface
  {
    if !Eligible(lsa.header.lsType, iface.externalRouting, iface.areaId, lsaArea) then NotFlooded
    else
      var srcRole := if src in roles0 then Some(roles0[src].1 == roles0[src].2 || roles0[src].1 == roles0[src].3) else None;
      Decide(Needed(Outcomes(roles0, lists0, lsa.header, src, cmp)), iface.ipAddr == me && iface.ipAddr != src, srcRole,
             iface.IsBdr(), iface.IsDrOther(), lsa, iface.infTransDelay)
  }

  /// The neighbours' lists after the procedure: as they were on an interface that is not
  /// eligible, their step-(1) outcomes on one that is.
  function ListsAfter(eligible: bool, roles0: map<Ipv4Addr, (NeighborState, Ipv4Addr, Ipv4Addr, Ipv4Addr)>,
                      lists0: map<Ipv4Addr, (seq<LsaHeader>, set<LsaIndex>)>, h: LsaHeader, src: Ipv4Addr,
                      cmp: (LsaHeader, LsaHeader) -> Ordering): map<Ipv4Addr, (seq<LsaHeader>, set<LsaIndex>)>
  {
    if !eligible then lists0
    else
      var o := Outcomes(roles0, lists0, h, src, cmp);
      map k | k in o :: (o[k].requests, o[k].retransmit)
  }

  /// Lists that agree with the outcomes key by key are the outcomes' lists.
  lemma ListsFromOutcomes(lists: map<Ipv4Addr, (seq<LsaHeader>, set<LsaIndex>)>, o: map<Ipv4Addr, NeighborFlood>)
    requires lists.Keys == o.Keys
    requires forall k | k in lists :: lists[k] == (o[k].requests, o[k].retransmit)
    ensures lists == map k | k in o :: (o[k].requests, o[k].retransmit)
  {
  }

  /// The filter and the call of `flooding` for one interface: an interface that is not
  /// eligible is left alone; an eligible one is flooded on.
  method FloodInterface(iface: Interface, lsaArea: Ipv4Addr, me: Ipv4Addr, src: Ipv4Addr, lsa: Lsa,
                        cmp: (LsaHeader, LsaHeader) -> Ordering, order: seq<Ipv4Addr>) returns (res: FloodResult)
    requires iface.Distinct()
    requires forall k :: k in order <==> k in iface.neighbors
    requires forall a, b | 0 <= a < b < |order| :: order[a] != order[b]
    modifies iface.neighbors.Values
    ensures RolesMap(iface) == old(RolesMap(iface))
    ensures res == InterfaceOutcome(iface, old(RolesMap(iface)), old(ListsMap(iface)), lsaArea, me, src, lsa, cmp)
    ensures ListsMap(iface) == ListsAfter(Eligible(lsa.header.lsType, iface.externalRouting, iface.areaId, lsaArea),
                                          old(RolesMap(iface)), old(ListsMap(iface)), lsa.header, src, cmp)
  {
    res := NotFlooded;
    if Eligible(lsa.header.lsType, iface.externalRouting, iface.areaId, lsaArea) {
      ghost var roles0, lists0 := RolesMap(iface), ListsMap(iface);
      res := FloodOn(iface, me, src, lsa, cmp, order, roles0, lists0);
      if src in iface.neighbors {
        assert RolesOf(iface.neighbors[src]) == roles0[src];
      }
      ListsFromOutcomes(ListsMap(iface), Outcomes(roles0, lists0, lsa.header, src, cmp));
    }
  }

  /// The interfaces own their neighbours: no neighbour belongs to two of them.
  ghost predicate OwnNeighbors(ifaces: seq<Interface>)
    reads ifaces
  {
    forall i, j | 0 <= i < j < |ifaces| :: ifaces[i].neighbors.Values !! ifaces[j].neighbors.Values
  }

  /// An interface whose neighbours were all left alone keeps their roles and their lists.
  twostate lemma NeighborsLeftAlone(iface: Interface)
    requires unchanged(iface)
    requires forall n | n in iface.neighbors.Values :: unchanged(n)
    ensures RolesMap(iface) == old(RolesMap(iface)) && ListsMap(iface) == old(ListsMap(iface))
  {
  }

  /// One turn of the loop of `flooding`: interface `i` is flooded on and, since the interfaces
  /// own their neighbours, every other interface's neighbours are left as they were.
  method FloodAt(ifaces: seq<Interface>, i: nat, lsaArea: Ipv4Addr, me: Ipv4Addr, src: Ipv4Addr, lsa: Lsa,
                 cmp: (LsaHeader, LsaHeader) -> Ordering, order: seq<Ipv4Addr>) returns (res: FloodResult)
    requires i < |ifaces| && OwnNeighbors(ifaces) && ifaces[i].Distinct()
    requires forall k :: k in order <==> k in ifaces[i].neighbors
    requires forall a, b | 0 <= a < b < |order| :: order[a] != order[b]
    modifies ifaces[i].neighbors.Values
    ensures res == InterfaceOutcome(ifaces[i], old(RolesMap(ifaces[i])), old(ListsMap(ifaces[i])), lsaArea, me, src, lsa, cmp)
    ensures forall j | 0 <= j < |ifaces| :: RolesMap(ifaces[j]) == old(RolesMap(ifaces[j]))
    ensures ListsMap(ifaces[i]) == ListsAfter(Eligible(lsa.header.lsType, ifaces[i].externalRouting, ifaces[i].areaId, lsaArea),
                                              old(RolesMap(ifaces[i])), old(ListsMap(ifaces[i])), lsa.header, src, cmp)
    ensures forall j | 0 <= j < |ifaces| && j != i :: ListsMap(ifaces[j]) == old(ListsMap(ifaces[j]))
  {
    res := FloodInterface(ifaces[i], lsaArea, me, src, lsa, cmp, order);
    forall j | 0 <= j < |ifaces| && j != i
      ensures RolesMap(ifaces[j]) == old(RolesMap(ifaces[j])) && ListsMap(ifaces[j]) == old(ListsMap(ifaces[j]))
    {
      assert ifaces[i].neighbors.Values !! ifaces[j].neighbors.Values;
      NeighborsLeftAlone(ifaces[j]);
    }
  }

  /// The neighbours' roles on every interface of `ifaces`.
  ghost function RolesAlong(ifaces: seq<Interface>): (r: seq<map<Ipv4Addr, (NeighborState, Ipv4Addr, Ipv4Addr, Ipv4Addr)>>)
    reads ifaces, set j, n | 0 <= j < |ifaces| && n in ifaces[j].neighbors.Values :: n
    ensures |r| == |ifaces| && forall j | 0 <= j < |ifaces| :: r[j] == RolesMap(ifaces[j])
  {
    seq(|ifaces|, j requires 0 <= j < |ifaces| reads ifaces, if 0 <= j < |ifaces| then {ifaces[j]} + ifaces[j].neighbors.Values else {} =>
          RolesMap(ifaces[j]))
  }

  /// The neighbours' lists on every interface of `ifaces`.
  ghost function ListsAlong(ifaces: seq<Interface>): (r: seq<map<Ipv4Addr, (seq<LsaHeader>, set<LsaIndex>)>>)
    reads ifaces, set j, n | 0 <= j < |ifaces| && n in ifaces[j].neighbors.Values :: n
    ensures |r| == |ifaces| && forall j | 0 <= j < |ifaces| :: r[j] == ListsMap(ifaces[j])
  {
    seq(|ifaces|, j requires 0 <= j < |ifaces| reads ifaces, if 0 <= j < |ifaces| then {ifaces[j]} + ifaces[j].neighbors.Values else {} =>
          ListsMap(ifaces[j]))
  }

  /// The outcome of interface `j`, whose neighbours had the roles `roles0[j]` and the lists `lists0[j]`.
  ghost function OutcomeAt(ifaces: seq<Interface>, roles0: seq<map<Ipv4Addr, (NeighborState, Ipv4Addr, Ipv4Addr, Ipv4Addr)>>,
                           lists0: seq<map<Ipv4Addr, (seq<LsaHeader>, set<LsaIndex>)>>, j: int,
                           lsaArea: Ipv4Addr, me: Ipv4Addr, src: Ipv4Addr, lsa: Lsa, cmp: (LsaHeader, LsaHeader) -> Ordering): FloodResult
    requires 0 <= j < |ifaces| == |roles0| == |lists0|
    reads ifaces
  {
    InterfaceOutcome(ifaces[j], roles0[j], lists0[j], lsaArea, me, src, lsa, cmp)
  }

  /// The lists of interface `j` once it was visited.
  ghost function ListsAt(ifaces: seq<Interface>, roles0: seq<map<Ipv4Addr, (NeighborState, Ipv4Addr, Ipv4Addr, Ipv4Addr)>>,
                         lists0: seq<map<Ipv4Addr, (seq<LsaHeader>, set<LsaIndex>)>>, j: int,
                         lsaArea: Ipv4Addr, lsa: Lsa, src: Ipv4Addr, cmp: (LsaHeader, LsaHeader) -> Ordering): map<Ipv4Addr, (seq<LsaHeader>, set<LsaIndex>)>
    requires 0 <= j < |ifaces| == |roles0| == |lists0|
    reads ifaces
  {
    ListsAfter(Eligible(lsa.header.lsType, ifaces[j].externalRouting, ifaces[j].areaId, lsaArea),
               roles0[j], lists0[j], lsa.header, src, cmp)
  }

  /// The state of `flooding` after the interfaces `ifaces[..|results|]` were visited, from
  /// neighbours that had the roles `roles0` and the lists `lists0`: the roles are unchanged,
  /// every visited interface has its outcome and its new lists, the others keep their lists.
  ghost predicate FloodedSoFar(ifaces: seq<Interface>, roles0: seq<map<Ipv4Addr, (NeighborState, Ipv4Addr, Ipv4Addr, Ipv4Addr)>>,
                               lists0: seq<map<Ipv4Addr, (seq<LsaHeader>, set<LsaIndex>)>>, results: seq<FloodResult>,
                               lsaArea: Ipv4Addr, me: Ipv4Addr, src: Ipv4Addr, lsa: Lsa, cmp: (LsaHeader, LsaHeader) -> Ordering)
    reads ifaces, set j, n | 0 <= j < |ifaces| && n in ifaces[j].neighbors.Values :: n
  {
    && |results| <= |ifaces| == |roles0| == |lists0|
    && (forall j {:trigger RolesMap(ifaces[j])} | 0 <= j < |ifaces| :: RolesMap(ifaces[j]) == roles0[j])
    && (forall j {:trigger OutcomeAt(ifaces, roles0, lists0, j, lsaArea, me, src, lsa, cmp)} | 0 <= j < |results| ::
          results[j] == OutcomeAt(ifaces, roles0, lists0, j, lsaArea, me, src, lsa, cmp))
    && (forall j {:trigger ListsAt(ifaces, roles0, lists0, j, lsaArea, lsa, src, cmp)} | 0 <= j < |results| ::
          ListsMap(ifaces[j]) == ListsAt(ifaces, roles0, lists0, j, lsaArea, lsa, src, cmp))
    && (forall j {:trigger ListsMap(ifaces[j])} | |results| <= j < |ifaces| :: ListsMap(ifaces[j]) == lists0[j])
  }

  /// What the state so far says of each interface, in terms of the procedure's own definitions.
  lemma FloodedSoFarMeans(ifaces: seq<Interface>, roles0: seq<map<Ipv4Addr, (NeighborState, Ipv4Addr, Ipv4Addr, Ipv4Addr)>>,
                          lists0: seq<map<Ipv4Addr, (seq<LsaHeader>, set<LsaIndex>)>>, results: seq<FloodResult>,
                          lsaArea: Ipv4Addr, me: Ipv4Addr, src: Ipv4Addr, lsa: Lsa, cmp: (LsaHeader, LsaHeader) -> Ordering)
    requires FloodedSoFar(ifaces, roles0, lists0, results, lsaArea, me, src, lsa, cmp)
    ensures forall j | 0 <= j < |results| :: results[j] == InterfaceOutcome(ifaces[j], roles0[j], lists0[j], lsaArea, me, src, lsa, cmp)
    ensures forall j | 0 <= j < |results| ::
              ListsMap(ifaces[j]) == ListsAfter(Eligible(lsa.header.lsType, ifaces[j].externalRouting, ifaces[j].areaId, lsaArea),
                                                roles0[j], lists0[j], lsa.header, src, cmp)
  {
    forall j | 0 <= j < |results|
      ensures results[j] == InterfaceOutcome(ifaces[j], roles0[j], lists0[j], lsaArea, me, src, lsa, cmp)
      ensures ListsMap(ifaces[j]) == ListsAfter(Eligible(lsa.header.lsType, ifaces[j].externalRouting, ifaces[j].areaId, lsaArea),
                                                roles0[j], lists0[j], lsa.header, src, cmp)
    {
      assert results[j] == OutcomeAt(ifaces, roles0, lists0, j, lsaArea, me, src, lsa, cmp);
      assert ListsMap(ifaces[j]) == ListsAt(ifaces, roles0, lists0, j, lsaArea, lsa, src, cmp);
    }
  }

  /// One turn of the loop of `flooding`, stated on the state so far.
  method FloodNext(ifaces: seq<Interface>, i: nat, ghost roles0: seq<map<Ipv4Addr, (NeighborState, Ipv4Addr, Ipv4Addr, Ipv4Addr)>>,
                   ghost lists0: seq<map<Ipv4Addr, (seq<LsaHeader>, set<LsaIndex>)>>, ghost results: seq<FloodResult>,
                   lsaArea: Ipv4Addr, me: Ipv4Addr, src: Ipv4Addr, lsa: Lsa, cmp: (LsaHeader, LsaHeader) -> Ordering,
                   order: seq<Ipv4Addr>) returns (res: FloodResult)
    requires FloodedSoFar(ifaces, roles0, lists0, results, lsaArea, me, src, lsa, cmp)
    requires i == |results| < |ifaces| && OwnNeighbors(ifaces) && ifaces[i].Distinct()
    requires forall k :: k in order <==> k in ifaces[i].neighbors
    requires forall a, b | 0 <= a < b < |order| :: order[a] != order[b]
    modifies ifaces[i].neighbors.Values
    ensures FloodedSoFar(ifaces, roles0, lists0, results + [res], lsaArea, me, src, lsa, cmp)
  {
    label before:
    res := FloodAt(ifaces, i, lsaArea, me, src, lsa, cmp, order);
    ghost var now := results + [res];
    forall j | 0 <= j < |now|
      ensures now[j] == OutcomeAt(ifaces, roles0, lists0, j, lsaArea, me, src, lsa, cmp)
      ensures ListsMap(ifaces[j]) == ListsAt(ifaces, roles0, lists0, j, lsaArea, lsa, src, cmp)
    {
      if j < i {
        assert now[j] == results[j] == old@before(OutcomeAt(ifaces, roles0, lists0, j, lsaArea, me, src, lsa, cmp));
        assert old@before(ListsMap(ifaces[j])) == old@before(ListsAt(ifaces, roles0, lists0, j, lsaArea, lsa, src, cmp));
      }
    }
  }

  /// The loop of `flooding`: it visits the interfaces in order until one panics.
  method FloodLoop(ifaces: seq<Interface>, ghost roles0: seq<map<Ipv4Addr, (NeighborState, Ipv4Addr, Ipv4Addr, Ipv4Addr)>>,
                   ghost lists0: seq<map<Ipv4Addr, (seq<LsaHeader>, set<LsaIndex>)>>,
                   lsaArea: Ipv4Addr, me: Ipv4Addr, src: Ipv4Addr, lsa: Lsa, cmp: (LsaHeader, LsaHeader) -> Ordering,
                   orders: seq<seq<Ipv4Addr>>) returns (r: Option<bool>, ghost results: seq<FloodResult>)
    requires |orders| == |ifaces| && OwnNeighbors(ifaces)
    requires forall i | 0 <= i < |ifaces| :: ifaces[i].Distinct()
    requires forall i | 0 <= i < |ifaces| :: forall k :: k in orders[i] <==> k in ifaces[i].neighbors
    requires forall i | 0 <= i < |ifaces| :: forall a, b | 0 <= a < b < |orders[i]| :: orders[i][a] != orders[i][b]
    requires FloodedSoFar(ifaces, roles0, lists0, [], lsaArea, me, src, lsa, cmp)
    modifies set i, n | 0 <= i < |ifaces| && n in ifaces[i].neighbors.Values :: n
    ensures FloodedSoFar(ifaces, roles0, lists0, results, lsaArea, me, src, lsa, cmp)
    ensures r.None? <==> |results| > 0 && results[|results| - 1].NoSuchNeighbor?
    ensures r.Some? ==> |results| == |ifaces| && (r.value <==> exists i | 0 <= i < |results| :: results[i].Flooded?)
  {
    results := [];
    var any, panicked := false, false;
    var i := 0;
    while i < |ifaces| && !panicked
      invariant i == |results| <= |ifaces|
      invariant FloodedSoFar(ifaces, roles0, lists0, results, lsaArea, me, src, lsa, cmp)
      invariant panicked <==> i > 0 && results[i - 1].NoSuchNeighbor?
      invariant any <==> exists j | 0 <= j < i :: results[j].Flooded?
    {
      var res := FloodNext(ifaces, i, roles0, lists0, results, lsaArea, me, src, lsa, cmp, orders[i]);
      assert forall j | 0 <= j < i :: (results + [res])[j] == results[j];
      results := results + [res];
      panicked := res.NoSuchNeighbor?;
      any := any || res.Flooded?;
      i := i + 1;
    }
    r := if panicked then None else Some(any);
  }

  /// `flooding`: every eligible interface, in order, is flooded on; the result says whether the
  /// LSA went out on any of them, or is `None` when the procedure panics on an interface with
  /// no neighbour under the source address. `roles0` and `lists0` are the neighbours' roles and
  /// lists on each interface before; `results` holds each visited interface's outcome.
  method Flood(ifaces: seq<Interface>, lsaArea: Ipv4Addr, me: Ipv4Addr, src: Ipv4Addr, lsa: Lsa,
               cmp: (LsaHeader, LsaHeader) -> Ordering, orders: seq<seq<Ipv4Addr>>,
               ghost roles0: seq<map<Ipv4Addr, (NeighborState, Ipv4Addr, Ipv4Addr, Ipv4Addr)>>,
               ghost lists0: seq<map<Ipv4Addr, (seq<LsaHeader>, set<LsaIndex>)>>)
    returns (r: Option<bool>, ghost results: seq<FloodResult>)
    requires |orders| == |ifaces| && OwnNeighbors(ifaces)
    requires forall i | 0 <= i < |ifaces| :: ifaces[i].Distinct()
    requires forall i | 0 <= i < |ifaces| :: forall k :: k in orders[i] <==> k in ifaces[i].neighbors
    requires forall i | 0 <= i < |ifaces| :: forall a, b | 0 <= a < b < |orders[i]| :: orders[i][a] != orders[i][b]
    requires roles0 == RolesAlong(ifaces) && lists0 == ListsAlong(ifaces)
    modifies set i, n | 0 <= i < |ifaces| && n in ifaces[i].neighbors.Values :: n
    ensures |results| <= |ifaces|
    ensures forall i | 0 <= i < |results| :: results[i] == InterfaceOutcome(ifaces[i], roles0[i], lists0[i], lsaArea, me, src, lsa, cmp)
    ensures forall i | 0 <= i < |ifaces| :: RolesMap(ifaces[i]) == roles0[i]
    ensures forall i | 0 <= i < |results| ::
              ListsMap(ifaces[i]) == ListsAfter(Eligible(lsa.header.lsType, ifaces[i].externalRouting, ifaces[i].areaId, lsaArea),
                                                roles0[i], lists0[i], lsa.header, src, cmp)
    ensures forall i | |results| <= i < |ifaces| :: ListsMap(ifaces[i]) == lists0[i]
    ensures r.None? <==> |results| > 0 && results[|results| - 1].NoSuchNeighbor?
    ensures r.Some? ==> |results| == |ifaces| && (r.value <==> exists i | 0 <= i < |results| :: results[i].Flooded?)
  {
    r, results := FloodLoop(ifaces, roles0, lists0, lsaArea, me, src, lsa, cmp, orders);
    FloodedSoFarMeans(ifaces, roles0, lists0, results, lsaArea, me, src, lsa, cmp);
  }
}
