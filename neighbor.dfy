/// A neighbour as the daemon keeps it (section 10 of RFC 2328): its state, the Database
/// Description exchange bookkeeping and the three lists that drive database synchronisation.
/// Timers and the request sender task are not part of this model.
module Neighbors {
  import opened Common
  import opened Util
  import opened LsaView
  import Packet

  /// `NeighborState`, ordered by declaration.
  datatype NeighborState = Down | Attempt | Init | TwoWay | ExStart | Exchange | Loading | Full

  function StateRank(s: NeighborState): (n: nat)
    ensures n < 8
    ensures n == 0 <==> s == Down
  {
    match s
    case Down => 0
    case Attempt => 1
    case Init => 2
    case TwoWay => 3
    case ExStart => 4
    case Exchange => 5
    case Loading => 6
    case Full => 7
  }

  /// `s >= t` in declaration order.
  predicate AtLeast(s: NeighborState, t: NeighborState)
  {
    StateRank(s) >= StateRank(t)
  }

  /// The neighbours that take part in flooding are exactly those in Exchange, Loading or Full.
  lemma AtLeastExchange(s: NeighborState)
    ensures AtLeast(s, Exchange) <==> s == Exchange || s == Loading || s == Full
  {
  }

  /// `DdPacketCache`: the last Database Description packet received from the neighbour.
  datatype DdPacketCache = DdPacketCache(sequenceNumber: nat, init: bool, more: bool, master: bool)

  /// `DdPacketCache::default`.
  const EmptyCache := DdPacketCache(0, false, false, false)

  /// The fields of a Database Description packet the cache keeps, each flag as its raw value.
  datatype DdFlags = DdFlags(dbSequenceNumber: nat, init: nat, more: nat, master: nat)

  /// `DdPacketCache::from`: the sequence number copied, each non-zero flag read as set.
  function CacheOf(d: DdFlags): (c: DdPacketCache)
    ensures c.sequenceNumber == d.dbSequenceNumber
    ensures (c.init <==> d.init != 0) && (c.more <==> d.more != 0) && (c.master <==> d.master != 0)
  {
    DdPacketCache(d.dbSequenceNumber, d.init != 0, d.more != 0, d.master != 0)
  }

  /// Two packets give the same cache exactly when they agree on the sequence number and on
  /// which flags are set; the cache tells a duplicate from a new packet by that.
  lemma CacheOfSame(d: DdFlags, e: DdFlags)
    ensures CacheOf(d) == CacheOf(e) <==>
              && d.dbSequenceNumber == e.dbSequenceNumber
              && (d.init == 0 <==> e.init == 0) && (d.more == 0 <==> e.more == 0) && (d.master == 0 <==> e.master == 0)
  {
  }

  /// `DdRxmt`: what a master retransmits, a retransmission task or a stored packet, or nothing.
  datatype DdRxmt = RxmtTask | RxmtPacket(packet: Packet.DbDescription) | RxmtNone

  /// `NeighborSubStruct`: a copy of the neighbour's plain fields.
  datatype NeighborSubStruct = NeighborSubStruct(state: NeighborState, master: bool, ddSeqNum: nat,
                                                 ddLastPacket: DdPacketCache, routerId: Ipv4Addr, priority: nat,
                                                 ipAddr: Ipv4Addr, option: nat, dr: Ipv4Addr, bdr: Ipv4Addr)
  {
    predicate IsDr()
    {
      ipAddr == dr
    }

    predicate IsBdr()
    {
      ipAddr == bdr
    }
  }

  class Neighbor {
    var state: NeighborState
    /// Whether the neighbour is the master of the Database Description exchange.
    var master: bool
    var ddSeqNum: nat
    var ddLastPacket: DdPacketCache
    var routerId: Ipv4Addr
    var priority: nat
    var ipAddr: Ipv4Addr
    var option: nat
    var dr: Ipv4Addr
    var bdr: Ipv4Addr
    var ddRxmt: DdRxmt
    /// LSAs flooded to the neighbour and not yet acknowledged.
    var lsRetransmissionList: set<LsaIndex>
    /// The headers still to describe in Database Description packets.
    var dbSummaryList: seq<LsaHeader>
    /// The LSAs still to request from the neighbour.
    var lsRequestList: seq<LsaHeader>

    /// `Neighbor::new`: Down, slave, sequence 0, no DR or BDR, empty lists, nothing to retransmit.
    constructor(routerId: Ipv4Addr, ipAddr: Ipv4Addr)
      ensures this.routerId == routerId && this.ipAddr == ipAddr
      ensures state == Down && !master && ddSeqNum == 0 && ddLastPacket == EmptyCache
      ensures priority == 0 && option == 0 && dr == Unspecified && bdr == Unspecified && ddRxmt == RxmtNone
      ensures lsRetransmissionList == {} && dbSummaryList == [] && lsRequestList == []
    {
      state := Down;
      master := false;
      ddSeqNum := 0;
      ddLastPacket := EmptyCache;
      this.routerId := routerId;
      priority := 0;
      this.ipAddr := ipAddr;
      option := 0;
      dr := Unspecified;
      bdr := Unspecified;
      ddRxmt := RxmtNone;
      lsRetransmissionList := {};
      dbSummaryList := [];
      lsRequestList := [];
    }

    /// `Neighbor::reset`: the exchange starts over; who the neighbour is and its state stay.
    method Reset()
      modifies this
      ensures ddSeqNum == 0 && ddRxmt == RxmtNone
      ensures lsRetransmissionList == {} && dbSummaryList == [] && lsRequestList == []
      ensures Snapshot() == old(Snapshot()).(ddSeqNum := 0)
    {
      ddSeqNum := 0;
      ResetDdRxmt();
      lsRetransmissionList := {};
      dbSummaryList := [];
      lsRequestList := [];
    }

    /// `DdRxmt::reset`.
    method ResetDdRxmt()
      modifies this`ddRxmt
      ensures ddRxmt == RxmtNone
    {
      ddRxmt := RxmtNone;
    }

    /// `DdRxmt::set`: the old retransmission is dropped and `other` takes its place.
    method SetDdRxmt(other: DdRxmt)
      modifies this`ddRxmt
      ensures ddRxmt == other
    {
      ResetDdRxmt();
      ddRxmt := other;
    }

    predicate IsDr()
      reads this
    {
      ipAddr == dr
    }

    predicate IsBdr()
      reads this
    {
      ipAddr == bdr
    }

    /// `NeighborSubStruct::from`: every plain field copied as it is.
    function Snapshot(): (s: NeighborSubStruct)
      reads this
      ensures s.state == state && s.master == master && s.ddSeqNum == ddSeqNum && s.ddLastPacket == ddLastPacket
      ensures s.routerId == routerId && s.priority == priority && s.ipAddr == ipAddr && s.option == option
      ensures s.dr == dr && s.bdr == bdr
      ensures (s.IsDr() <==> IsDr()) && (s.IsBdr() <==> IsBdr())
    {
      NeighborSubStruct(state, master, ddSeqNum, ddLastPacket, routerId, priority, ipAddr, option, dr, bdr)
    }
  }
}
