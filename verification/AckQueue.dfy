/** The receiving half of LpReliability: the queue of pending Acks, how they are piggybacked, the idle
    timer, and the memory of recently received Sequence numbers. */
module AckQueue {
  import opened Sequence64
  import opened LpPackets

  /** `offered` lists the packets that went through sendLpPacket, in order, with their Acks attached. */
  datatype AckState = AckState(queue: seq<Sequence>, idleTimer: bool, offered: seq<LpPacket>)

  const ACK_SIZE := SequenceTlvSize(TLV_ACK)

  /** An MTU is unlimited or a number of octets. */
  predicate ValidMtu(mtu: int) {
    mtu == MTU_UNLIMITED || mtu >= 0
  }

  /** Octets left for Acks after the reserve for a growing TLV-LENGTH. */
  function RemainingSpace(pkt: LpPacket, mtu: int): int {
    var pktSize := WireSize(pkt);
    var reserved := SizeOfVarNumber(MAX_NDN_PACKET_SIZE) - SizeOfVarNumber(pktSize);
    (if mtu == MTU_UNLIMITED then MAX_NDN_PACKET_SIZE else mtu) - reserved - pktSize
  }

  /** How many Acks from a queue of this length get attached. */
  function AttachCount(queueLength: nat, pkt: LpPacket, mtu: int): (n: nat)
    ensures n <= queueLength
  {
    var space := RemainingSpace(pkt, mtu);
    if space < ACK_SIZE then 0
    else if space / ACK_SIZE < queueLength then space / ACK_SIZE
    else queueLength
  }

  function AddAcks(pkt: LpPacket, acks: seq<Sequence>): LpPacket {
    pkt.(acks := pkt.acks + acks)
  }

  /** sendLpPacket up to the point where the packet is encoded. */
  function SendLpPacket(a: AckState, pkt: LpPacket, mtu: int): AckState {
    var n := AttachCount(|a.queue|, pkt, mtu);
    a.(queue := a.queue[n..], offered := a.offered + [AddAcks(pkt, a.queue[..n])])
  }

  function SendAll(a: AckState, pkts: seq<LpPacket>, mtu: int): AckState
    decreases |pkts|
  {
    if pkts == [] then a else SendAll(SendLpPacket(a, pkts[0], mtu), pkts[1..], mtu)
  }

  /** A fragment numbered `txSeq` arrived: queue its Ack and make sure the idle timer runs. */
  function Enqueue(a: AckState, txSeq: Sequence): AckState {
    a.(queue := a.queue + [txSeq], idleTimer := true)
  }

  predicate CanFlush(mtu: int) {
    mtu == MTU_UNLIMITED || mtu >= 16
  }

  /** An IDLE packet takes at least one Ack along exactly when the MTU is unlimited or at least 16. */
  lemma IdlePacketTakesAck(a: AckState, mtu: int)
    requires ValidMtu(mtu) && a.queue != []
    ensures |SendLpPacket(a, EMPTY_PACKET, mtu).queue| < |a.queue| <==> CanFlush(mtu)
    ensures !CanFlush(mtu) ==> SendLpPacket(a, EMPTY_PACKET, mtu).queue == a.queue
  {
    assert WireSize(EMPTY_PACKET) == 2;
  }

  /** The idle timer's loop: request IDLE packets until no Ack is pending. */
  function Flush(a: AckState, mtu: int): AckState
    requires ValidMtu(mtu) && CanFlush(mtu)
    decreases |a.queue|
  {
    if a.queue == [] then a
    else
      IdlePacketTakesAck(a, mtu);
      Flush(SendLpPacket(a, EMPTY_PACKET, mtu), mtu)
  }

  function IdleTimeout(a: AckState, mtu: int): AckState
    requires ValidMtu(mtu) && CanFlush(mtu)
  {
    Flush(a.(idleTimer := false), mtu)
  }

  // ---- every received TxSequence is acknowledged once, in order ----

  function AttachedAcks(pkts: seq<LpPacket>): seq<Sequence> {
    if pkts == [] then [] else AttachedAcks(pkts[..|pkts| - 1]) + pkts[|pkts| - 1].acks
  }

  /** Acks handed over so far, followed by those still queued. */
  function AckStream(a: AckState): seq<Sequence> {
    AttachedAcks(a.offered) + a.queue
  }

  lemma SendKeepsAckStream(a: AckState, pkt: LpPacket, mtu: int)
    requires pkt.acks == []
    ensures AckStream(SendLpPacket(a, pkt, mtu)) == AckStream(a)
    ensures SendLpPacket(a, pkt, mtu).idleTimer == a.idleTimer
  {
    var n := AttachCount(|a.queue|, pkt, mtu);
    var r := SendLpPacket(a, pkt, mtu);
    assert r.offered[..|r.offered| - 1] == a.offered;
    assert a.queue == a.queue[..n] + a.queue[n..];
    calc {
      AckStream(r);
      (AttachedAcks(a.offered) + a.queue[..n]) + a.queue[n..];
      AttachedAcks(a.offered) + (a.queue[..n] + a.queue[n..]);
    }
  }

  lemma {:induction false} SendAllKeepsAckStream(a: AckState, pkts: seq<LpPacket>, mtu: int)
    requires forall p | p in pkts :: p.acks == []
    ensures AckStream(SendAll(a, pkts, mtu)) == AckStream(a)
    ensures SendAll(a, pkts, mtu).idleTimer == a.idleTimer
    ensures |SendAll(a, pkts, mtu).queue| <= |a.queue|
    decreases |pkts|
  {
    if pkts != [] {
      SendKeepsAckStream(a, pkts[0], mtu);
      SendAllKeepsAckStream(SendLpPacket(a, pkts[0], mtu), pkts[1..], mtu);
    }
  }

  /** The idle loop empties the queue and loses no Ack. */
  lemma {:induction false} FlushEmptiesQueue(a: AckState, mtu: int)
    requires ValidMtu(mtu) && CanFlush(mtu)
    ensures Flush(a, mtu).queue == []
    ensures AttachedAcks(Flush(a, mtu).offered) == AckStream(a)
    ensures Flush(a, mtu).idleTimer == a.idleTimer
    decreases |a.queue|
  {
    if a.queue != [] {
      IdlePacketTakesAck(a, mtu);
      SendKeepsAckStream(a, EMPTY_PACKET, mtu);
      FlushEmptiesQueue(SendLpPacket(a, EMPTY_PACKET, mtu), mtu);
    }
  }

  // ---- size of a packet that carries Acks ----

  /** The reserve is computed from the size of the whole packet, but it is the TLV-LENGTH of the
      value that grows: for these two value sizes the reserve is too small. */
  predicate ReserveTooSmall(pkt: LpPacket) {
    ValueSize(pkt) in {251, 252}
  }

  /** A packet within the MTU stays within it when Acks are attached, exactly unless its value is 251
      or 252 octets and the Acks that fit leave fewer than two octets; then it exceeds it by at most 2. */
  lemma PiggybackFits(pkt: LpPacket, mtu: nat, queue: seq<Sequence>)
    requires !IsBare(pkt) && WireSize(pkt) <= mtu <= 0xFFFF
    ensures var n := AttachCount(|queue|, pkt, mtu);
            var size := WireSize(AddAcks(pkt, queue[..n]));
            && size <= mtu + 2
            && (size <= mtu <==> !(ReserveTooSmall(pkt) && n > 0 && mtu - WireSize(pkt) - ACK_SIZE * n < 2))
  {
    var n := AttachCount(|queue|, pkt, mtu);
    var full := AddAcks(pkt, queue[..n]);
    assert |full.acks| == |pkt.acks| + n;
    assert ValueSize(full) == ValueSize(pkt) + ACK_SIZE * n by {
      assert ACK_SIZE * |full.acks| == ACK_SIZE * |pkt.acks| + ACK_SIZE * n;
    }
    assert n == 0 ==> full.acks == pkt.acks;
    assert n > 0 ==> !IsBare(full);
    assert ACK_SIZE * n <= (if n == 0 then 0 else RemainingSpace(pkt, mtu));
  }

  // ---- recently received Sequence numbers ----

  datatype Recent = Recent(times: map<Sequence, int>, order: seq<Sequence>)

  /** The time point a default-constructed map entry gets. */
  const EPOCH := 0

  /** The eviction loop. Reading a missing key through operator[] inserts it with the default time. */
  function Evict(r: Recent, now: int, rto: int): Recent
    decreases |r.order|
  {
    if r.order == [] then r
    else
      var k := r.order[0];
      var times := if k in r.times then r.times else r.times[k := EPOCH];
      if now > times[k] + rto then Evict(Recent(times - {k}, r.order[1..]), now, rto)
      else r.(times := times)
  }

  function Remember(r: Recent, s: Sequence, now: int, rto: int): Recent {
    var e := Evict(r, now, rto);
    Recent(if s in e.times then e.times else e.times[s := now], e.order + [s])
  }

  predicate IsDuplicate(r: Recent, s: Sequence) {
    s in r.times
  }

  /** Everything remembered has been received. */
  ghost predicate OnlyReceived(r: Recent, received: set<Sequence>) {
    r.times.Keys <= received && forall s | s in r.order :: s in received
  }

  lemma {:induction false} EvictOnlyReceived(r: Recent, received: set<Sequence>, now: int, rto: int)
    requires OnlyReceived(r, received)
    ensures OnlyReceived(Evict(r, now, rto), received)
    decreases |r.order|
  {
    if r.order != [] {
      var k := r.order[0];
      var times := if k in r.times then r.times else r.times[k := EPOCH];
      if now > times[k] + rto {
        EvictOnlyReceived(Recent(times - {k}, r.order[1..]), received, now, rto);
      }
    }
  }

  /** Remembering keeps the memory honest, and makes the number a duplicate from now on. */
  lemma RememberSound(r: Recent, received: set<Sequence>, s: Sequence, now: int, rto: int)
    requires OnlyReceived(r, received)
    ensures OnlyReceived(Remember(r, s, now, rto), received + {s})
    ensures IsDuplicate(Remember(r, s, now, rto), s)
    ensures IsDuplicate(r, s) ==> s in received
  {
    EvictOnlyReceived(r, received, now, rto);
  }
}
