/** Two LpReliability instances over a link that may lose, duplicate and reorder packets and may add
    a congestion mark, but does not forge them. */
module Peers {
  import opened Sequence64
  import opened LpPackets
  import opened SendWindow
  import opened SendWindowLaws
  import opened AckProcessing
  import opened Accounting
  import opened Ledger
  import opened Transmissions
  import opened AckQueue
  import SenderRuns

  /** The state of one LpReliability. */
  datatype Peer = Peer(tx: TxState, acks: AckState, recent: Recent)

  const NEW_PEER := Peer(INITIAL, AckState([], false, []), Recent(map[], []))

  ghost function Packets(sent: seq<Sent>): seq<LpPacket> {
    if sent == [] then [] else [sent[0].pkt] + Packets(sent[1..])
  }

  predicate IsFragment(pkt: LpPacket) {
    pkt.fragment.Some? && pkt.txSequence.Some?
  }

  datatype Incoming = Incoming(peer: Peer, isNew: bool, resent: seq<Sent>, outcomes: seq<Outcome>, ok: bool)

  /** processIncomingPacket: Acks first, then the fragment itself. */
  ghost function ProcessIncoming(p: Peer, opt: Options, mtu: int, pkt: LpPacket, now: int, rto: int): Incoming
    requires Inv(p.tx)
  {
    var r := ProcessAcks(p.tx, opt, pkt.acks);
    var acks := SendAll(p.acks, Packets(r.resent), mtu);
    if !r.ok then Incoming(Peer(r.tx, acks, p.recent), false, r.resent, r.outcomes, false)
    else if IsFragment(pkt) then
      var seen := pkt.sequence.Some? && IsDuplicate(p.recent, pkt.sequence.value);
      var recent := if pkt.sequence.Some? then Remember(p.recent, pkt.sequence.value, now, rto) else p.recent;
      Incoming(Peer(r.tx, Enqueue(acks, pkt.txSequence.value), recent), !seen, r.resent, r.outcomes, true)
    else Incoming(Peer(r.tx, acks, p.recent), true, r.resent, r.outcomes, true)
  }

  /** A peer, its past as a sender, and the packets delivered to it. */
  datatype Endpoint = Endpoint(peer: Peer, past: Past, received: seq<LpPacket>)

  const NEW_ENDPOINT := Endpoint(NEW_PEER, NO_PAST, [])

  datatype Config = Config(opt: Options, mtu: int)

  datatype Event =
    | SendPacket(frags: seq<LpPacket>, isInterest: bool)
    | RtoExpires(txSeq: Sequence)
    | IdleExpires
    | Receive(pkt: LpPacket, now: int, rto: int)

  /** A fragment as sendNetPacket hands it to handleOutgoing. */
  predicate Clean(pkt: LpPacket) {
    pkt.acks == [] && pkt.fragment.Some?
  }

  ghost predicate Step(c: Config, e: Endpoint, ev: Event, r: Endpoint) {
    && Inv(e.peer.tx)
    && match ev
       case SendPacket(frags, isInterest) =>
         var s := HandleOutgoing(e.peer.tx, frags, isInterest);
         && frags != [] && DistinctSequences(frags) && (forall f | f in frags :: Clean(f))
         && s.ok
         && r == e.(peer := e.peer.(tx := s.tx, acks := SendAll(e.peer.acks, s.frags, c.mtu)),
                    past := RecordSend(e.past, e.peer.tx.nNetPkts, frags, s.frags))
       case RtoExpires(k) =>
         && k in e.peer.tx.unacked
         && (assert Linked(e.peer.tx, k);
             var s := Lost(e.peer.tx, c.opt, k);
             && s.ok
             && r == e.(peer := e.peer.(tx := s.tx, acks := SendAll(e.peer.acks, Packets(s.resent), c.mtu)),
                        past := Record(e.past, s.resent, s.outcomes)))
       case IdleExpires =>
         && e.peer.acks.idleTimer
         && ValidMtu(c.mtu) && CanFlush(c.mtu)
         && r == e.(peer := e.peer.(acks := IdleTimeout(e.peer.acks, c.mtu)))
       case Receive(pkt, now, rto) =>
         var s := ProcessIncoming(e.peer, c.opt, c.mtu, pkt, now, rto);
         && s.ok
         && r == Endpoint(s.peer, Record(e.past, s.resent, s.outcomes), e.received + [pkt])
  }

  // ---- what one endpoint keeps, whatever it receives ----

  ghost function TxSequences(received: seq<LpPacket>): seq<Sequence> {
    if received == [] then []
    else
      var last := received[|received| - 1];
      TxSequences(received[..|received| - 1]) + (if IsFragment(last) then [last.txSequence.value] else [])
  }

  ghost predicate CleanLog(log: seq<Sent>) {
    forall e | e in log :: Clean(e.pkt)
  }

  ghost predicate CleanWindow(tx: TxState) {
    forall k | k in tx.unacked :: Clean(tx.unacked[k].pkt)
  }

  /** What is offered to the link is a logged transmission plus Acks, or an IDLE packet. */
  ghost predicate OfferedIsLogged(offered: seq<LpPacket>, log: seq<Sent>) {
    forall p | p in offered ::
      if p.txSequence.Some? then exists e :: e in log && e.pkt == p.(acks := []) else p.fragment.None?
  }

  ghost predicate Local(c: Config, e: Endpoint) {
    && SenderRuns.Good(c.opt, SenderRuns.Sender(e.peer.tx, e.past.log))
    && CleanLog(e.past.log) && CleanWindow(e.peer.tx)
    && OfferedIsLogged(e.peer.acks.offered, e.past.log)
    && AckStream(e.peer.acks) == TxSequences(e.received)
    && (e.peer.acks.queue != [] ==> e.peer.acks.idleTimer)
  }

  // ---- cleanliness of resent fragments ----

  lemma LostClean(tx: TxState, opt: Options, k: Sequence)
    requires Inv(tx) && k in tx.unacked && Linked(tx, k) && CleanWindow(tx) && Lost(tx, opt, k).ok
    ensures CleanWindow(Lost(tx, opt, k).tx) && CleanLog(Lost(tx, opt, k).resent)
  {
    if tx.unacked[k].retxCount >= opt.maxRetx { GiveUpRemoves(tx, k); } else { RetransmitWindow(tx, k); }
  }

  lemma {:induction false} LoseAllClean(tx: TxState, opt: Options, lost: seq<Sequence>, removed: set<Sequence>, q: AckResult)
    requires Inv(tx) && Accounted(tx, lost, removed) && CleanWindow(tx)
    requires q == LoseAll(tx, opt, lost, removed) && q.ok
    ensures CleanWindow(q.tx) && CleanLog(q.resent)
    decreases |lost|
  {
    hide WindowInv, Lost, CleanWindow;
    if lost != [] {
      if lost[0] in removed {
        LoseAllClean(tx, opt, lost[1..], removed, q);
      } else {
        assert Linked(tx, lost[0]);
        var r := Lost(tx, opt, lost[0]);
        LostKeepsInv(tx, opt, lost[0]);
        LostClean(tx, opt, lost[0]);
        LoseAllClean(r.tx, opt, lost[1..], removed + Elements(r.removed),
                     LoseAll(r.tx, opt, lost[1..], removed + Elements(r.removed)));
      }
    }
  }

  lemma ProcessAckClean(tx: TxState, opt: Options, ack: Sequence)
    requires Inv(tx) && CleanWindow(tx) && ProcessAck(tx, opt, ack).ok
    ensures CleanWindow(ProcessAck(tx, opt, ack).tx) && CleanLog(ProcessAck(tx, opt, ack).resent)
  {
    if ack in tx.unacked {
      AbsorbKeepsInv(tx, opt, ack);
      AbsorbShape(tx, ack);
      var lost := FindLost(tx, ack, opt.seqNumLossThreshold);
      LoseAllClean(Absorb(tx, ack).tx, opt, lost, {}, LoseAll(Absorb(tx, ack).tx, opt, lost, {}));
    }
  }

  lemma {:induction false} ProcessAcksClean(tx: TxState, opt: Options, acks: seq<Sequence>, q: AckResult)
    requires Inv(tx) && CleanWindow(tx)
    requires q == ProcessAcks(tx, opt, acks) && q.ok
    ensures CleanWindow(q.tx) && CleanLog(q.resent)
    decreases |acks|
  {
    hide Inv, ProcessAck, CleanWindow;
    if acks != [] {
      var r := ProcessAck(tx, opt, acks[0]);
      ProcessAckKeepsInv(tx, opt, acks[0]);
      ProcessAckClean(tx, opt, acks[0]);
      ProcessAcksClean(r.tx, opt, acks[1..], ProcessAcks(r.tx, opt, acks[1..]));
    }
  }

  lemma {:induction false} SendFragsClean(tx: TxState, id: nat, frags: seq<LpPacket>)
    requires id in tx.netPkts && CleanWindow(tx) && forall f | f in frags :: Clean(f)
    ensures SendFrags(tx, id, frags).ok ==>
              && CleanWindow(SendFrags(tx, id, frags).tx)
              && forall f | f in SendFrags(tx, id, frags).frags :: Clean(f) && f.txSequence.Some?
    decreases |frags|
  {
    assert frags != [] ==> Clean(frags[0]);
    if frags != [] && !RangeExceeded(tx) {
      SendFragsClean(SendOne(tx, id, frags[0]), id, frags[1..]);
    }
  }

  lemma HandleOutgoingClean(tx: TxState, frags: seq<LpPacket>, isInterest: bool)
    requires CleanWindow(tx) && (forall f | f in frags :: Clean(f)) && HandleOutgoing(tx, frags, isInterest).ok
    ensures CleanWindow(HandleOutgoing(tx, frags, isInterest).tx)
    ensures forall f | f in HandleOutgoing(tx, frags, isInterest).frags :: Clean(f) && f.txSequence.Some?
  {
    SendFragsClean(Allocate(tx, isInterest), tx.nNetPkts, frags);
  }

  lemma CleanAppend(log: seq<Sent>, more: seq<Sent>)
    requires CleanLog(log) && CleanLog(more)
    ensures CleanLog(log + more)
  {}

  // ---- offering packets ----

  /** Everything in `pkts` is a logged transmission. */
  ghost predicate FromLog(pkts: seq<LpPacket>, log: seq<Sent>) {
    forall p | p in pkts :: p.acks == [] && p.txSequence.Some? && exists e :: e in log && e.pkt == p
  }

  lemma {:induction false} PacketsFromLog(sent: seq<Sent>)
    requires CleanLog(sent) && forall e | e in sent :: e.pkt.txSequence.Some?
    ensures FromLog(Packets(sent), sent)
  {
    if sent != [] {
      PacketsFromLog(sent[1..]);
      forall p | p in Packets(sent) ensures p.acks == [] && p.txSequence.Some? && exists e :: e in sent && e.pkt == p {
        if p == sent[0].pkt {
          assert sent[0] in sent;
        } else {
          assert p in Packets(sent[1..]);
          var e :| e in sent[1..] && e.pkt == p;
          assert e in sent;
        }
      }
    }
  }

  lemma {:induction false} SentAllFromLog(id: nat, frags: seq<LpPacket>)
    requires forall f | f in frags :: f.acks == [] && f.txSequence.Some?
    ensures FromLog(frags, SentAll(id, frags))
    ensures (forall f | f in frags :: Clean(f)) ==> CleanLog(SentAll(id, frags))
  {
    if frags != [] {
      SentAllFromLog(id, frags[1..]);
      assert forall f | f in frags :: f == frags[0] || f in frags[1..];
      var all := SentAll(id, frags);
      assert all[0] == Sent(id, frags[0]);
      forall f | f in frags ensures exists e :: e in all && e.pkt == f {
        if f != frags[0] {
          var e :| e in SentAll(id, frags[1..]) && e.pkt == f;
          assert e in all;
        } else {
          assert all[0] in all;
        }
      }
    }
  }

  lemma FromLogGrows(pkts: seq<LpPacket>, log: seq<Sent>, before: seq<Sent>)
    requires FromLog(pkts, log)
    ensures FromLog(pkts, before + log)
  {
    forall p | p in pkts ensures exists e :: e in before + log && e.pkt == p {
      var e :| e in log && e.pkt == p;
      assert e in before + log;
    }
  }

  lemma OfferedGrows(offered: seq<LpPacket>, log: seq<Sent>, more: seq<Sent>)
    requires OfferedIsLogged(offered, log)
    ensures OfferedIsLogged(offered, log + more)
  {
    forall p | p in offered && p.txSequence.Some? ensures exists e :: e in log + more && e.pkt == p.(acks := []) {
      var e :| e in log && e.pkt == p.(acks := []);
      assert e in log + more;
    }
  }

  lemma {:induction false} SendAllOffers(a: AckState, pkts: seq<LpPacket>, mtu: int, log: seq<Sent>)
    requires OfferedIsLogged(a.offered, log) && FromLog(pkts, log)
    ensures OfferedIsLogged(SendAll(a, pkts, mtu).offered, log)
    ensures AckStream(SendAll(a, pkts, mtu)) == AckStream(a)
    ensures SendAll(a, pkts, mtu).idleTimer == a.idleTimer
    ensures |SendAll(a, pkts, mtu).queue| <= |a.queue|
    decreases |pkts|
  {
    SendAllKeepsAckStream(a, pkts, mtu);
    if pkts != [] {
      var b := SendLpPacket(a, pkts[0], mtu);
      assert b.offered[|a.offered|].(acks := []) == pkts[0];
      SendAllOffers(b, pkts[1..], mtu, log);
    }
  }

  lemma {:induction false} FlushOffers(a: AckState, mtu: int, log: seq<Sent>)
    requires ValidMtu(mtu) && CanFlush(mtu) && OfferedIsLogged(a.offered, log)
    ensures OfferedIsLogged(Flush(a, mtu).offered, log)
    decreases |a.queue|
  {
    if a.queue != [] {
      IdlePacketTakesAck(a, mtu);
      FlushOffers(SendLpPacket(a, EMPTY_PACKET, mtu), mtu, log);
    }
  }

  // ---- Local is kept by every step ----

  lemma NewEndpointLocal(c: Config)
    ensures Local(c, NEW_ENDPOINT)
  {
    SenderRuns.InitialGood(c.opt);
  }

  lemma ResentAreNumbered(tx: TxState, log: seq<Sent>, resent: seq<Sent>)
    requires MatchesLog(tx, log + resent)
    ensures forall e | e in resent :: e.pkt.txSequence.Some?
  {
    forall e | e in resent ensures e.pkt.txSequence.Some? {
      var i :| 0 <= i < |resent| && resent[i] == e;
      assert (log + resent)[|log| + i] == e;
    }
  }

  /** Resending keeps what is offered within the log and the stream of Acks as it was. */
  lemma ResendOffers(a: AckState, log: seq<Sent>, resent: seq<Sent>, tx: TxState, mtu: int)
    requires OfferedIsLogged(a.offered, log) && CleanLog(log) && CleanLog(resent) && MatchesLog(tx, log + resent)
    ensures var b := SendAll(a, Packets(resent), mtu);
            && OfferedIsLogged(b.offered, log + resent) && CleanLog(log + resent)
            && AckStream(b) == AckStream(a) && b.idleTimer == a.idleTimer && |b.queue| <= |a.queue|
  {
    ResentAreNumbered(tx, log, resent);
    PacketsFromLog(resent);
    FromLogGrows(Packets(resent), resent, log);
    OfferedGrows(a.offered, log, resent);
    SendAllOffers(a, Packets(resent), mtu, log + resent);
  }

  lemma SendLocal(c: Config, e: Endpoint, frags: seq<LpPacket>, isInterest: bool, r: Endpoint)
    requires Local(c, e) && Step(c, e, SendPacket(frags, isInterest), r)
    ensures Local(c, r)
  {
    hide SenderRuns.Good, Inv, CleanWindow, OfferedIsLogged, CleanLog;
    var id := e.peer.tx.nNetPkts;
    var s := HandleOutgoing(e.peer.tx, frags, isInterest);
    SenderRuns.SendGood(c.opt, SenderRuns.Sender(e.peer.tx, e.past.log), frags, isInterest);
    HandleOutgoingClean(e.peer.tx, frags, isInterest);
    SentAllFromLog(id, s.frags);
    var more := SentAll(id, s.frags);
    FromLogGrows(s.frags, more, e.past.log);
    OfferedGrows(e.peer.acks.offered, e.past.log, more);
    SendAllOffers(e.peer.acks, s.frags, c.mtu, e.past.log + more);
    CleanAppend(e.past.log, more);
  }

  lemma RtoLocal(c: Config, e: Endpoint, k: Sequence, r: Endpoint)
    requires Local(c, e) && Step(c, e, RtoExpires(k), r)
    ensures Local(c, r)
  {
    hide BelowThreshold, WindowInv, Counted, CleanWindow, OfferedIsLogged, CleanLog, Lost;
    assert Linked(e.peer.tx, k);
    var s := Lost(e.peer.tx, c.opt, k);
    SenderRuns.RtoGood(c.opt, SenderRuns.Sender(e.peer.tx, e.past.log), k);
    LostClean(e.peer.tx, c.opt, k);
    ResendOffers(e.peer.acks, e.past.log, s.resent, s.tx, c.mtu);
  }

  lemma IdleLocal(c: Config, e: Endpoint, r: Endpoint)
    requires Local(c, e) && Step(c, e, IdleExpires, r)
    ensures Local(c, r)
    ensures r.peer.acks.queue == []
  {
    hide SenderRuns.Good, Inv, CleanWindow, CleanLog, OfferedIsLogged;
    var a := e.peer.acks.(idleTimer := false);
    FlushEmptiesQueue(a, c.mtu);
    FlushOffers(a, c.mtu, e.past.log);
  }

  /** The part of Local that is not about the fragment being received. */
  lemma AcksLocal(c: Config, e: Endpoint, acks: seq<Sequence>, q: AckResult, b: AckState)
    requires Local(c, e) && Inv(e.peer.tx) && q == ProcessAcks(e.peer.tx, c.opt, acks) && q.ok
    requires b == SendAll(e.peer.acks, Packets(q.resent), c.mtu)
    ensures SenderRuns.Good(c.opt, SenderRuns.Sender(q.tx, e.past.log + q.resent))
    ensures CleanWindow(q.tx) && CleanLog(e.past.log + q.resent) && OfferedIsLogged(b.offered, e.past.log + q.resent)
    ensures AckStream(b) == AckStream(e.peer.acks) && b.idleTimer == e.peer.acks.idleTimer
    ensures |b.queue| <= |e.peer.acks.queue|
  {
    hide BelowThreshold, WindowInv, LinkInv, Counted, CleanWindow, OfferedIsLogged, CleanLog, Conserved, RetxBounded, SendAll, ProcessAcks, AckStream;
    SenderRuns.ProcessAcksGood(c.opt, e.peer.tx, e.past.log, acks, q);
    ProcessAcksClean(e.peer.tx, c.opt, acks, q);
    ResendOffers(e.peer.acks, e.past.log, q.resent, q.tx, c.mtu);
  }

  lemma TxSequencesSnoc(received: seq<LpPacket>, pkt: LpPacket)
    ensures TxSequences(received + [pkt])
            == TxSequences(received) + (if IsFragment(pkt) then [pkt.txSequence.value] else [])
  {
    assert (received + [pkt])[..|received|] == received;
  }

  lemma EnqueueStream(a: AckState, t: Sequence)
    ensures AckStream(Enqueue(a, t)) == AckStream(a) + [t]
  {
    assert AttachedAcks(a.offered) + (a.queue + [t]) == (AttachedAcks(a.offered) + a.queue) + [t];
  }

  lemma ReceiveLocal(c: Config, e: Endpoint, pkt: LpPacket, now: int, rto: int, r: Endpoint)
    requires Local(c, e) && Step(c, e, Receive(pkt, now, rto), r)
    ensures Local(c, r)
  {
    hide SenderRuns.Good, Inv, CleanWindow, OfferedIsLogged, CleanLog, SendAll, ProcessAcks, AckStream, Remember, IsDuplicate;
    var q := ProcessAcks(e.peer.tx, c.opt, pkt.acks);
    var b := SendAll(e.peer.acks, Packets(q.resent), c.mtu);
    AcksLocal(c, e, pkt.acks, q, b);
    TxSequencesSnoc(e.received, pkt);
    if IsFragment(pkt) {
      EnqueueStream(b, pkt.txSequence.value);
    } else {
      assert TxSequences(e.received) + [] == TxSequences(e.received);
    }
  }

  /** Whatever an endpoint is sent: its send window stays good, and the Acks it has handed over,
      followed by those it has queued, are the TxSequences of the fragments it received, in order; a
      non-empty queue means a running idle timer. */
  lemma StepKeepsLocal(c: Config, e: Endpoint, ev: Event, r: Endpoint)
    requires Local(c, e) && Step(c, e, ev, r)
    ensures Local(c, r)
  {
    match ev
    case SendPacket(frags, isInterest) => SendLocal(c, e, frags, isInterest, r);
    case RtoExpires(k) => RtoLocal(c, e, k, r);
    case IdleExpires => IdleLocal(c, e, r);
    case Receive(pkt, now, rto) => ReceiveLocal(c, e, pkt, now, rto, r);
  }

  // ---- trust between two endpoints ----

  /** The fragments an endpoint has received, without what varies between transmissions. */
  ghost function Got(o: Endpoint): set<LpPacket> {
    set q | q in o.received && IsFragment(q) :: Core(q)
  }

  /** A received fragment is a transmission of the sender. */
  ghost predicate Genuine(log: seq<Sent>, q: LpPacket) {
    exists e :: e in log && e.pkt.txSequence == q.txSequence && Core(e.pkt) == Core(q)
  }

  /** `o` received from `e` only what `e` sent; and, within the first 2^64 transmissions of `e`, the
      book of `e` is true of what `o` received. */
  ghost predicate Trust(e: Endpoint, o: Endpoint) {
    && (forall q | q in o.received && IsFragment(q) :: Genuine(e.past.log, q))
    && (|e.past.log| <= MODULUS ==> Book(e.peer.tx, e.past, Got(o)))
  }

  /** The link delivers a packet that was offered to it, possibly with a congestion mark set. */
  ghost predicate Carries(offered: seq<LpPacket>, pkt: LpPacket) {
    exists p :: p in offered && pkt == p.(congestionMark := pkt.congestionMark)
  }

  lemma {:induction false} AcksAreAttached(offered: seq<LpPacket>, pkt: LpPacket, t: Sequence)
    requires Carries(offered, pkt) && t in pkt.acks
    ensures t in AttachedAcks(offered)
  {
    var p :| p in offered && pkt == p.(congestionMark := pkt.congestionMark);
    var last := offered[|offered| - 1];
    if t !in last.acks {
      assert p in offered[..|offered| - 1];
      AcksAreAttached(offered[..|offered| - 1], pkt, t);
    }
  }

  lemma {:induction false} TxSequencesFrom(received: seq<LpPacket>, t: Sequence)
    requires t in TxSequences(received)
    ensures exists q :: q in received && IsFragment(q) && q.txSequence == Some(t)
  {
    var last := received[|received| - 1];
    if IsFragment(last) && last.txSequence == Some(t) {
      assert last in received;
    } else {
      TxSequencesFrom(received[..|received| - 1], t);
      var q :| q in received[..|received| - 1] && IsFragment(q) && q.txSequence == Some(t);
      assert q in received;
    }
  }

  /** An Ack that reaches `e` is for a transmission that `o` has received. */
  lemma AckIsJustified(c: Config, e: Endpoint, o: Endpoint, pkt: LpPacket, t: Sequence)
    requires Local(c, o) && Trust(e, o) && Numbered(e.past.log) && |e.past.log| <= MODULUS
    requires Carries(o.peer.acks.offered, pkt) && t in pkt.acks
    ensures Justified(e.past.log, Got(o), t)
  {
    hide SenderRuns.Good, Book, CleanLog, CleanWindow, OfferedIsLogged;
    AcksAreAttached(o.peer.acks.offered, pkt, t);
    assert t in AckStream(o.peer.acks);
    TxSequencesFrom(o.received, t);
    var q :| q in o.received && IsFragment(q) && q.txSequence == Some(t);
    assert Genuine(e.past.log, q);
    var x :| x in e.past.log && x.pkt.txSequence == q.txSequence && Core(x.pkt) == Core(q);
    var i :| 0 <= i < |e.past.log| && e.past.log[i] == x;
    assert i % MODULUS == i;
    assert Core(q) in Got(o);
  }

  lemma GenuineGrows(log: seq<Sent>, more: seq<Sent>, q: LpPacket)
    requires Genuine(log, q)
    ensures Genuine(log + more, q)
  {
    var e :| e in log && e.pkt.txSequence == q.txSequence && Core(e.pkt) == Core(q);
    assert e in log + more;
  }

  lemma AcksBooked(c: Config, e: Endpoint, co: Config, o: Endpoint, pkt: LpPacket, q: AckResult)
    requires Inv(e.peer.tx) && Local(co, o) && Trust(e, o) && Carries(o.peer.acks.offered, pkt)
    requires q == ProcessAcks(e.peer.tx, c.opt, pkt.acks) && q.ok && |e.past.log| + |q.resent| <= MODULUS
    ensures Book(q.tx, Record(e.past, q.resent, q.outcomes), Got(o))
  {
    hide Local, Tallied, AllOwed, FullyReceived, WindowInv, LinkInv, ProcessAcks, Record;
    forall t | t in pkt.acks ensures Justified(e.past.log, Got(o), t) {
      AckIsJustified(co, e, o, pkt, t);
    }
    ProcessAcksBook(e.peer.tx, c.opt, e.past, Got(o), pkt.acks, q);
  }

  lemma SenderStepBook(c: Config, e: Endpoint, co: Config, o: Endpoint, ev: Event, r: Endpoint)
    requires Local(co, o) && Trust(e, o)
    requires Step(c, e, ev, r) && (ev.Receive? ==> Carries(o.peer.acks.offered, ev.pkt))
    requires |r.past.log| <= MODULUS
    ensures Book(r.peer.tx, r.past, Got(o))
  {
    hide Local, Inv, Genuine, HandleOutgoing, Lost, ProcessAcks, Book;
    match ev
    case SendPacket(frags, isInterest) =>
      HandleOutgoingBook(e.peer.tx, e.past, Got(o), frags, isInterest);
    case RtoExpires(k) =>
      LinkedFromInv(e.peer.tx, k);
      LostBook(e.peer.tx, c.opt, e.past, Got(o), k);
    case IdleExpires =>
    case Receive(pkt, now, rto) =>
      AcksBooked(c, e, co, o, pkt, ProcessAcks(e.peer.tx, c.opt, pkt.acks));
  }

  lemma LinkedFromInv(tx: TxState, k: Sequence)
    requires Inv(tx) && k in tx.unacked
    ensures Linked(tx, k)
  {}

  ghost predicate Extended(log: seq<Sent>, longer: seq<Sent>) {
    |log| <= |longer| && longer[..|log|] == log
  }

  lemma StepExtendsLog(c: Config, e: Endpoint, ev: Event, r: Endpoint)
    requires Step(c, e, ev, r)
    ensures Extended(e.past.log, r.past.log)
  {
    hide Inv, HandleOutgoing, Lost, ProcessAcks, SendAll;
  }

  /** A step of the sender keeps the trust. */
  lemma SenderStepKeepsTrust(c: Config, e: Endpoint, co: Config, o: Endpoint, ev: Event, r: Endpoint)
    requires Local(co, o) && Trust(e, o)
    requires Step(c, e, ev, r) && (ev.Receive? ==> Carries(o.peer.acks.offered, ev.pkt))
    ensures Trust(r, o)
  {
    hide Local, Book, Step;
    StepExtendsLog(c, e, ev, r);
    forall q | q in o.received && IsFragment(q) ensures Genuine(r.past.log, q) {
      assert Genuine(e.past.log, q);
      GenuineGrows(e.past.log, r.past.log[|e.past.log|..], q);
      assert r.past.log == e.past.log + r.past.log[|e.past.log|..];
    }
    if |r.past.log| <= MODULUS { SenderStepBook(c, e, co, o, ev, r); }
  }

  lemma CarriedIsGenuine(c: Config, e: Endpoint, pkt: LpPacket)
    requires Local(c, e) && Carries(e.peer.acks.offered, pkt) && IsFragment(pkt)
    ensures Genuine(e.past.log, pkt)
  {
    var p :| p in e.peer.acks.offered && pkt == p.(congestionMark := pkt.congestionMark);
    var x :| x in e.past.log && x.pkt == p.(acks := []);
    assert Core(x.pkt) == Core(pkt);
  }

  /** A step of the receiver keeps the trust. */
  lemma ReceiverStepKeepsTrust(ce: Config, e: Endpoint, c: Config, o: Endpoint, ev: Event, r: Endpoint)
    requires Local(ce, e) && Trust(e, o)
    requires Step(c, o, ev, r) && (ev.Receive? ==> Carries(e.peer.acks.offered, ev.pkt))
    ensures Trust(e, r)
  {
    hide Local, Book, Inv, HandleOutgoing, Lost, ProcessAcks, SendAll;
    if ev.Receive? {
      assert r.received == o.received + [ev.pkt];
      forall q | q in r.received && IsFragment(q) ensures Genuine(e.past.log, q) {
        if q in o.received { assert Genuine(e.past.log, q); } else { CarriedIsGenuine(ce, e, q); }
      }
      assert Got(o) <= Got(r);
      if |e.past.log| <= MODULUS { BookGrowsWithGot(e.peer.tx, e.past, Got(o), Got(r)); }
    } else {
      assert r.received == o.received;
      assert Got(r) == Got(o);
    }
  }

  // ---- runs of the two endpoints ----

  datatype System = System(a: Endpoint, b: Endpoint)

  ghost predicate Moves(ca: Config, cb: Config, s: System, byA: bool, ev: Event, t: System) {
    if byA then
      && Step(ca, s.a, ev, t.a) && t.b == s.b && (ev.Receive? ==> Carries(s.b.peer.acks.offered, ev.pkt))
    else
      && Step(cb, s.b, ev, t.b) && t.a == s.a && (ev.Receive? ==> Carries(s.a.peer.acks.offered, ev.pkt))
  }

  ghost predicate IsRun(ca: Config, cb: Config, states: seq<System>, events: seq<(bool, Event)>) {
    && |states| == |events| + 1
    && states[0] == System(NEW_ENDPOINT, NEW_ENDPOINT)
    && forall i | 0 <= i < |events| :: Moves(ca, cb, states[i], events[i].0, events[i].1, states[i + 1])
  }

  ghost predicate Safe(ca: Config, cb: Config, s: System) {
    Local(ca, s.a) && Local(cb, s.b) && Trust(s.a, s.b) && Trust(s.b, s.a)
  }

  lemma MovesKeepsSafe(ca: Config, cb: Config, s: System, byA: bool, ev: Event, t: System)
    requires Safe(ca, cb, s) && Moves(ca, cb, s, byA, ev, t)
    ensures Safe(ca, cb, t)
  {
    hide Local, Trust, Step;
    if byA {
      StepKeepsLocal(ca, s.a, ev, t.a);
      SenderStepKeepsTrust(ca, s.a, cb, s.b, ev, t.a);
      ReceiverStepKeepsTrust(cb, s.b, ca, s.a, ev, t.a);
    } else {
      StepKeepsLocal(cb, s.b, ev, t.b);
      SenderStepKeepsTrust(cb, s.b, ca, s.a, ev, t.b);
      ReceiverStepKeepsTrust(ca, s.a, cb, s.b, ev, t.b);
    }
  }

  lemma InitialSafe(ca: Config, cb: Config)
    ensures Safe(ca, cb, System(NEW_ENDPOINT, NEW_ENDPOINT))
  {
    NewEndpointLocal(ca);
    NewEndpointLocal(cb);
    assert Live(INITIAL) == {};
    assert Got(NEW_ENDPOINT) == {};
  }

  lemma {:induction false} RunsAreSafe(ca: Config, cb: Config, states: seq<System>, events: seq<(bool, Event)>, i: nat)
    requires IsRun(ca, cb, states, events) && i < |states|
    ensures Safe(ca, cb, states[i])
  {
    hide Safe, Moves;
    if i == 0 {
      InitialSafe(ca, cb);
    } else {
      RunsAreSafe(ca, cb, states, events, i - 1);
      MovesKeepsSafe(ca, cb, states[i - 1], events[i - 1].0, events[i - 1].1, states[i]);
    }
  }

  /** In every run in which `a` has made at most 2^64 transmissions: the packets that `a` counts in
      nAcknowledged or nRetransmitted are those in `delivered`, and `b` has received every fragment of
      each of them. */
  lemma DeliveredMeansReceived(ca: Config, cb: Config, states: seq<System>, events: seq<(bool, Event)>, i: nat)
    requires IsRun(ca, cb, states, events) && i < |states| && |states[i].a.past.log| <= MODULUS
    ensures var a := states[i].a; var b := states[i].b;
            && |a.past.delivered| == a.peer.tx.nAcknowledged + a.peer.tx.nRetransmitted
            && forall id | id in a.past.delivered ::
                 id in a.past.given && forall f | f in a.past.given[id] ::
                   exists q :: q in b.received && IsFragment(q) && Core(q) == Core(f)
  {
    hide IsRun, Local, AllOwed, MatchesLog;
    RunsAreSafe(ca, cb, states, events, i);
    var a := states[i].a;
    var b := states[i].b;
    forall id | id in a.past.delivered
      ensures id in a.past.given && forall f | f in a.past.given[id] ::
                exists q :: q in b.received && IsFragment(q) && Core(q) == Core(f)
    {
      assert FullyReceived(a.past, Got(b), id);
    }
  }
}
