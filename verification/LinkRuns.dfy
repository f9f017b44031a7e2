/** Runs of two complete link services: network packets are fragmented, numbered, tracked and sent; packets
    that arrive go through duplicate detection into the reassembler, and the drop timers of its partial
    packets may expire at any time. A packet that the sender counts as acknowledged has been delivered by the
    peer's reassembler iff its fragments all got there without a drop of it in between. */
module LinkRuns {
  import opened Sequence64
  import opened LpPackets
  import opened SendWindow
  import opened SendWindowLaws
  import opened AckProcessing
  import opened Transmissions
  import opened Ledger
  import opened AckQueue
  import opened LpFragmenter
  import opened RoundTrip
  import opened Peers
  import opened Duplicates
  import A = LpReassembler
  import G = GenericLinkService
  import SenderRuns

  /** One side: the options of the link service, of the reliability layer, and of the reassembler. */
  datatype LinkConfig = LinkConfig(opts: G.LinkOptions, peer: Config, limit: nat)

  /** What the reassembler has been through: a packet that passed duplicate detection, or the drop timer of a
      partial packet. */
  datatype Input = Fed(pkt: LpPacket) | Expired(key: A.Key)

  /** A link service: its reliability layer, the packets it was given to send, what its reassembler has been
      through, what that holds, and what came out. */
  datatype Node = Node(end: Endpoint, lastSeqNo: Sequence, outs: seq<Outgoing>,
                       inputs: seq<Input>, partials: A.Partials, delivered: seq<A.Delivery>)

  const FIRST: Sequence := MODULUS - 2
  const NEW_NODE := Node(NEW_ENDPOINT, FIRST, [], [], map[], [])

  datatype LinkEvent = SendNet(pkt: LpPacket, isInterest: bool) | Below(ev: Event) | DropTimer(key: A.Key)

  // ---- sending ----

  /** sendNetPacket gets as far as fragments. */
  predicate CanSend(cfg: LinkConfig, pkt: LpPacket) {
    IsNetPacket(pkt) && G.AssertionHolds(cfg.opts, cfg.peer.mtu) && G.Prepare(cfg.opts, cfg.peer.mtu, pkt).Fragments?
  }

  function SplitRoom(cfg: LinkConfig, pkt: LpPacket): nat
    requires CanSend(cfg, pkt)
  {
    var m := G.Room(cfg.opts, cfg.peer.mtu);
    if cfg.opts.allowFragmentation && m != MTU_UNLIMITED then m else MAX_SINGLE_FRAG_OVERHEAD + WireSize(pkt)
  }

  function OutgoingOf(cfg: LinkConfig, n: Node, pkt: LpPacket): Outgoing
    requires CanSend(cfg, pkt)
  {
    Outgoing(0, pkt, SplitRoom(cfg, pkt), n.lastSeqNo, true)
  }

  /** The fragments that sendNetPacket makes and numbers are those of the message. */
  lemma PreparedIsMessage(cfg: LinkConfig, n: Node, pkt: LpPacket)
    requires CanSend(cfg, pkt)
    ensures MessageOf(OutgoingOf(cfg, n, pkt)).frags == Number(G.Prepare(cfg.opts, cfg.peer.mtu, pkt).frags, n.lastSeqNo)
    ensures Sendable(OutgoingOf(cfg, n, pkt), cfg.opts.nMaxFragments)
  {
    hide WireSize, Payloads, FragmentAll, Number;
  }

  /** The fragments of a message, before it was transmitted. */
  ghost function FragsOf(o: Outgoing): seq<LpPacket> {
    MessageOf(o).frags
  }

  /** What assignSequences gives is what the reliability layer asks for. */
  lemma NumberedAreDistinct(o: Outgoing, limit: nat)
    requires Sendable(o, limit) && o.reliable && |FragsOf(o)| <= MODULUS
    ensures FragsOf(o) != [] && DistinctSequences(FragsOf(o)) && forall f | f in FragsOf(o) :: Clean(f)
    ensures forall j | 0 <= j < |FragsOf(o)| :: FragsOf(o)[j].sequence == Some(Plus(o.lastSeqNo, j + 1))
  {
    hide WireSize, Payloads;
    if !FastPath(o.packet, o.mtu) { PayloadsPartition(o.packet, o.mtu); }
    forall i, j | 0 <= i < j < |FragsOf(o)| ensures FragsOf(o)[i].sequence != FragsOf(o)[j].sequence {
      PlusInjective(o.lastSeqNo, i + 1, j + 1);
    }
  }

  lemma PlusInjective(s: Sequence, x: nat, y: nat)
    requires 1 <= x <= MODULUS && 1 <= y <= MODULUS
    ensures Plus(s, x) == Plus(s, y) ==> x == y
  {}

  // ---- steps ----

  /** A packet reaches the reassembler if it is not a duplicate, has a fragment and reassembly is allowed. */
  ghost predicate Passes(cfg: LinkConfig, n: Node, pkt: LpPacket, now: int, rto: int)
    requires Inv(n.end.peer.tx)
  {
    && ProcessIncoming(n.end.peer, cfg.peer.opt, cfg.peer.mtu, pkt, now, rto).isNew
    && G.Reassemblable(cfg.opts, pkt)
  }

  ghost predicate NodeStep(cfg: LinkConfig, n: Node, ev: LinkEvent, r: Node) {
    match ev
    case SendNet(pkt, isInterest) =>
      && CanSend(cfg, pkt)
      && Step(cfg.peer, n.end, SendPacket(FragsOf(OutgoingOf(cfg, n, pkt)), isInterest), r.end)
      && r == n.(end := r.end, outs := n.outs + [OutgoingOf(cfg, n, pkt)],
                 lastSeqNo := Plus(n.lastSeqNo, |FragsOf(OutgoingOf(cfg, n, pkt))|))
    case Below(e) =>
      && !e.SendPacket? && Step(cfg.peer, n.end, e, r.end)
      && if e.Receive? && Passes(cfg, n, e.pkt, e.now, e.rto) then
           && A.SlotsMatchCount(n.partials)
           && var q := A.Receive(n.partials, cfg.limit, e.pkt, 0);
              r == n.(end := r.end, inputs := n.inputs + [Fed(e.pkt)], partials := q.partials,
                      delivered := n.delivered + (if q.out.Some? then [q.out.value] else []))
         else r == n.(end := r.end)
    case DropTimer(key) =>
      && key in n.partials && n.partials[key].dropTimer
      && r == n.(inputs := n.inputs + [Expired(key)], partials := n.partials - {key})
  }

  ghost function PeerEvent(cfg: LinkConfig, n: Node, ev: LinkEvent): Event
    requires !ev.DropTimer?
  {
    match ev
    case SendNet(pkt, isInterest) =>
      if CanSend(cfg, pkt) then SendPacket(FragsOf(OutgoingOf(cfg, n, pkt)), isInterest) else IdleExpires
    case Below(e) => e
  }

  // ---- where the transmissions come from ----

  /** The packet is a transmission of a fragment given for network packet `id`. */
  ghost predicate From(given: map<nat, seq<LpPacket>>, id: nat, pkt: LpPacket) {
    id in given && exists f :: f in given[id] && Core(f) == Core(pkt)
  }

  ghost predicate LogFrom(log: seq<Sent>, given: map<nat, seq<LpPacket>>) {
    forall e | e in log :: From(given, e.id, e.pkt)
  }

  ghost predicate WindowFrom(tx: TxState, given: map<nat, seq<LpPacket>>) {
    forall k | k in tx.unacked :: From(given, tx.unacked[k].netPkt, tx.unacked[k].pkt)
  }

  lemma LostFrom(tx: TxState, opt: Options, k: Sequence, given: map<nat, seq<LpPacket>>)
    requires Inv(tx) && k in tx.unacked && Linked(tx, k) && WindowFrom(tx, given) && Lost(tx, opt, k).ok
    ensures WindowFrom(Lost(tx, opt, k).tx, given) && LogFrom(Lost(tx, opt, k).resent, given)
  {
    if tx.unacked[k].retxCount >= opt.maxRetx {
      GiveUpRemoves(tx, k);
    } else {
      RetransmitWindow(tx, k);
      var id, pkt := tx.unacked[k].netPkt, tx.unacked[k].pkt;
      var f :| f in given[id] && Core(f) == Core(pkt);
      var n := Next(tx.lastTxSeqNo);
      assert Core(SetTxSequence(pkt, n)) == Core(f);
    }
  }

  lemma {:induction false} LoseAllFrom(tx: TxState, opt: Options, lost: seq<Sequence>, removed: set<Sequence>,
                                       given: map<nat, seq<LpPacket>>, q: AckResult)
    requires Inv(tx) && AckProcessing.Accounted(tx, lost, removed) && WindowFrom(tx, given)
    requires q == LoseAll(tx, opt, lost, removed) && q.ok
    ensures WindowFrom(q.tx, given) && LogFrom(q.resent, given)
    decreases |lost|
  {
    hide WindowInv, Lost, WindowFrom, From;
    if lost != [] {
      if lost[0] in removed {
        LoseAllFrom(tx, opt, lost[1..], removed, given, q);
      } else {
        assert Linked(tx, lost[0]);
        var r := Lost(tx, opt, lost[0]);
        LostKeepsInv(tx, opt, lost[0]);
        LostFrom(tx, opt, lost[0], given);
        LoseAllFrom(r.tx, opt, lost[1..], removed + Elements(r.removed), given,
                    LoseAll(r.tx, opt, lost[1..], removed + Elements(r.removed)));
      }
    }
  }

  lemma ProcessAckFrom(tx: TxState, opt: Options, ack: Sequence, given: map<nat, seq<LpPacket>>)
    requires Inv(tx) && WindowFrom(tx, given) && ProcessAck(tx, opt, ack).ok
    ensures WindowFrom(ProcessAck(tx, opt, ack).tx, given) && LogFrom(ProcessAck(tx, opt, ack).resent, given)
  {
    hide From;
    if ack in tx.unacked {
      AbsorbKeepsInv(tx, opt, ack);
      AbsorbShape(tx, ack);
      var lost := FindLost(tx, ack, opt.seqNumLossThreshold);
      LoseAllFrom(Absorb(tx, ack).tx, opt, lost, {}, given, LoseAll(Absorb(tx, ack).tx, opt, lost, {}));
    }
  }

  lemma {:induction false} ProcessAcksFrom(tx: TxState, opt: Options, acks: seq<Sequence>,
                                           given: map<nat, seq<LpPacket>>, q: AckResult)
    requires Inv(tx) && WindowFrom(tx, given) && q == ProcessAcks(tx, opt, acks) && q.ok
    ensures WindowFrom(q.tx, given) && LogFrom(q.resent, given)
    decreases |acks|
  {
    hide Inv, ProcessAck, WindowFrom, From;
    if acks != [] {
      var r := ProcessAck(tx, opt, acks[0]);
      ProcessAckKeepsInv(tx, opt, acks[0]);
      ProcessAckFrom(tx, opt, acks[0], given);
      ProcessAcksFrom(r.tx, opt, acks[1..], given, ProcessAcks(r.tx, opt, acks[1..]));
    }
  }

  lemma {:induction false} SendFragsFrom(tx: TxState, id: nat, frags: seq<LpPacket>, given: map<nat, seq<LpPacket>>)
    requires id in tx.netPkts && WindowFrom(tx, given) && id in given && forall f | f in frags :: f in given[id]
    ensures SendFrags(tx, id, frags).ok ==>
              && WindowFrom(SendFrags(tx, id, frags).tx, given)
              && LogFrom(SentAll(id, SendFrags(tx, id, frags).frags), given)
    decreases |frags|
  {
    if frags != [] && !RangeExceeded(tx) {
      var n := Next(tx.lastTxSeqNo);
      assert frags[0] in given[id] && Core(SetTxSequence(frags[0], n)) == Core(frags[0]);
      assert From(given, id, SetTxSequence(frags[0], n));
      SendFragsFrom(SendOne(tx, id, frags[0]), id, frags[1..], given);
    }
  }

  // ---- the sender's numbers ----

  /** How many fragments the packets before the m-th had. */
  ghost function Offset(outs: seq<Outgoing>, m: nat): nat
    requires m <= |outs|
  {
    if m == 0 then 0 else Offset(outs, m - 1) + |FragsOf(outs[m - 1])|
  }

  lemma {:induction false} OffsetSame(outs: seq<Outgoing>, o: Outgoing, m: nat)
    requires m <= |outs|
    ensures Offset(outs + [o], m) == Offset(outs, m)
  {
    if m > 0 { OffsetSame(outs, o, m - 1); }
  }

  lemma {:induction false} OffsetGrows(outs: seq<Outgoing>, m: nat, k: nat)
    requires m < k <= |outs|
    ensures Offset(outs, m) + |FragsOf(outs[m])| <= Offset(outs, k)
  {
    hide FragsOf;
    if m + 1 < k { OffsetGrows(outs, m, k - 1); }
  }

  /** Packets are numbered one after the other, and the reliability layer was given their fragments. */
  ghost predicate SenderOk(n: Node, limit: nat) {
    && (forall id: nat :: id in n.end.past.given <==> id < |n.outs|)
    && (forall m: nat | m < |n.outs| ::
          && n.outs[m].reliable && n.outs[m].endpoint == 0 && Sendable(n.outs[m], limit)
          && n.outs[m].lastSeqNo == Plus(FIRST, Offset(n.outs, m))
          && n.end.past.given[m] == FragsOf(n.outs[m]))
    && n.lastSeqNo == Plus(FIRST, Offset(n.outs, |n.outs|))
    && Offset(n.outs, |n.outs|) <= |n.end.past.log|
    && LogFrom(n.end.past.log, n.end.past.given) && WindowFrom(n.end.peer.tx, n.end.past.given)
  }

  lemma LogAppend(log: seq<Sent>, more: seq<Sent>, given: map<nat, seq<LpPacket>>)
    requires LogFrom(log, given) && LogFrom(more, given)
    ensures LogFrom(log + more, given)
  {}

  /** A step that does not send a new packet. */
  lemma OldPacketsOk(cfg: LinkConfig, n: Node, e: Event, r: Node, limit: nat)
    requires SenderOk(n, limit) && !e.SendPacket? && Step(cfg.peer, n.end, e, r.end)
    requires r.outs == n.outs && r.lastSeqNo == n.lastSeqNo
    ensures SenderOk(r, limit)
  {
    hide From, WindowFrom, LogFrom, Lost, ProcessAcks, SendAll, Sendable, FragsOf, Remember, IdleTimeout, Inv;
    var given := n.end.past.given;
    match e
    case RtoExpires(k) =>
      LinkedFromInv(n.end.peer.tx, k);
      LostFrom(n.end.peer.tx, cfg.peer.opt, k, given);
      LogAppend(n.end.past.log, Lost(n.end.peer.tx, cfg.peer.opt, k).resent, given);
    case IdleExpires =>
    case Receive(pkt, now, rto) =>
      var q := ProcessAcks(n.end.peer.tx, cfg.peer.opt, pkt.acks);
      ProcessAcksFrom(n.end.peer.tx, cfg.peer.opt, pkt.acks, given, q);
      LogAppend(n.end.past.log, q.resent, given);
  }

  lemma {:induction false} SentAllSize(id: nat, frags: seq<LpPacket>)
    ensures |SentAll(id, frags)| == |frags|
  {
    if frags != [] { SentAllSize(id, frags[1..]); }
  }

  lemma {:induction false} SendFragsSize(tx: TxState, id: nat, frags: seq<LpPacket>)
    requires id in tx.netPkts
    ensures |SendFrags(tx, id, frags).frags| == |frags|
    decreases |frags|
  {
    if frags != [] && !RangeExceeded(tx) { SendFragsSize(SendOne(tx, id, frags[0]), id, frags[1..]); }
  }

  lemma FromGrows(given: map<nat, seq<LpPacket>>, id: nat, frags: seq<LpPacket>, log: seq<Sent>, tx: TxState)
    requires id !in given && LogFrom(log, given) && WindowFrom(tx, given)
    ensures LogFrom(log, given[id := frags]) && WindowFrom(tx, given[id := frags])
  {
    forall x: nat, pkt | From(given, x, pkt) ensures From(given[id := frags], x, pkt) {
      var f :| f in given[x] && Core(f) == Core(pkt);
      assert f in given[id := frags][x];
    }
  }

  /** What handleOutgoing records. */
  lemma SendRecords(e: Endpoint, id: nat, frags: seq<LpPacket>, isInterest: bool, given: map<nat, seq<LpPacket>>)
    requires id == e.peer.tx.nNetPkts && given == e.past.given[id := frags] && id !in e.past.given
    requires LogFrom(e.past.log, e.past.given) && WindowFrom(e.peer.tx, e.past.given)
    requires HandleOutgoing(e.peer.tx, frags, isInterest).ok
    ensures var s := HandleOutgoing(e.peer.tx, frags, isInterest); var past := RecordSend(e.past, id, frags, s.frags);
            && past.given == given && |past.log| == |e.past.log| + |frags|
            && LogFrom(past.log, given) && WindowFrom(s.tx, given)
  {
    hide From;
    var tx0 := Allocate(e.peer.tx, isInterest);
    FromGrows(e.past.given, id, frags, e.past.log, e.peer.tx);
    SendFragsFrom(tx0, id, frags, given);
    SendFragsSize(tx0, id, frags);
    var s := HandleOutgoing(e.peer.tx, frags, isInterest);
    SentAllSize(id, s.frags);
    LogAppend(e.past.log, SentAll(id, s.frags), given);
  }

  lemma NewPacketOk(cfg: LinkConfig, n: Node, pkt: LpPacket, isInterest: bool, r: Node, limit: nat)
    requires SenderOk(n, limit) && Tallied(n.end.peer.tx, n.end.past) && cfg.opts.nMaxFragments <= limit
    requires NodeStep(cfg, n, SendNet(pkt, isInterest), r)
    ensures SenderOk(r, limit)
  {
    hide From, WindowFrom, LogFrom, HandleOutgoing, SendAll, FragsOf, Inv, CanSend, SplitRoom, Sendable, Plus, Offset;
    var o := OutgoingOf(cfg, n, pkt);
    PreparedIsMessage(cfg, n, pkt);
    SendableWider(o, cfg.opts.nMaxFragments, limit);
    var id := n.end.peer.tx.nNetPkts;
    NextId(n, limit);
    SendRecords(n.end, id, FragsOf(o), isInterest, n.end.past.given[id := FragsOf(o)]);
    Renumbered(n, o, r.outs);
  }

  lemma NextId(n: Node, limit: nat)
    requires SenderOk(n, limit) && Tallied(n.end.peer.tx, n.end.past)
    ensures n.end.peer.tx.nNetPkts == |n.outs| && |n.outs| !in n.end.past.given
  {
    var id := n.end.peer.tx.nNetPkts;
    assert id !in n.end.past.given && (id > 0 ==> id - 1 in n.end.past.given);
  }

  lemma Renumbered(n: Node, o: Outgoing, outs: seq<Outgoing>)
    requires outs == n.outs + [o]
    ensures forall m: nat | m <= |n.outs| :: Offset(outs, m) == Offset(n.outs, m)
    ensures Offset(outs, |outs|) == Offset(n.outs, |n.outs|) + |FragsOf(o)|
    ensures Plus(Plus(FIRST, Offset(n.outs, |n.outs|)), |FragsOf(o)|) == Plus(FIRST, Offset(outs, |outs|))
  {
    hide FragsOf;
    forall m: nat | m <= |n.outs| ensures Offset(outs, m) == Offset(n.outs, m) { OffsetSame(n.outs, o, m); }
    PlusPlusAny(FIRST, Offset(n.outs, |n.outs|), |FragsOf(o)|);
  }

  lemma SendableWider(o: Outgoing, a: nat, b: nat)
    requires Sendable(o, a) && a <= b
    ensures Sendable(o, b)
  {}

  lemma PlusPlusAny(s: Sequence, x: nat, y: nat)
    ensures Plus(Plus(s, x), y) == Plus(s, x + y)
  {}

  // ---- which fragment a packet is ----

  ghost function FragAt(n: Node, m: nat, j: nat): LpPacket
    requires m < |n.outs| && j < |FragsOf(n.outs[m])|
  {
    FragsOf(n.outs[m])[j]
  }

  /** Fragment j of packet m has the number of its place among all fragments. */
  lemma FragNumber(n: Node, limit: nat, m: nat, j: nat)
    requires SenderOk(n, limit) && |n.end.past.log| <= MODULUS && m < |n.outs| && j < |FragsOf(n.outs[m])|
    ensures FragAt(n, m, j).sequence == Some(Plus(FIRST, Offset(n.outs, m) + j + 1))
    ensures Offset(n.outs, m) + j + 1 <= MODULUS
  {
    hide FragsOf, From, LogFrom, WindowFrom, Sendable, Offset, Plus;
    OffsetGrows(n.outs, m, |n.outs|);
    NumberedAreDistinct(n.outs[m], limit);
    PlusPlusAny(FIRST, Offset(n.outs, m), j + 1);
  }

  /** Within 2^64 fragments a Sequence identifies its fragment. */
  lemma SequenceIdentifies(n: Node, limit: nat, m: nat, j: nat, m': nat, j': nat)
    requires SenderOk(n, limit) && |n.end.past.log| <= MODULUS
    requires m < |n.outs| && j < |FragsOf(n.outs[m])| && m' < |n.outs| && j' < |FragsOf(n.outs[m'])|
    requires FragAt(n, m, j).sequence == FragAt(n, m', j').sequence
    ensures m == m' && j == j'
  {
    hide FragsOf, From, LogFrom, WindowFrom, Sendable, SenderOk, Offset, Plus;
    FragNumber(n, limit, m, j);
    FragNumber(n, limit, m', j');
    PlusInjective(FIRST, Offset(n.outs, m) + j + 1, Offset(n.outs, m') + j' + 1);
    if m < m' { OffsetGrows(n.outs, m, m'); }
    if m' < m { OffsetGrows(n.outs, m', m); }
  }

  lemma MessageFrags(n: Node, limit: nat, m: nat)
    requires SenderOk(n, limit) && m < |n.outs|
    ensures Messages(n.outs)[m].frags == FragsOf(n.outs[m]) && Messages(n.outs)[m].endpoint == 0
  {}

  lemma KeysAreDistinct(n: Node, limit: nat, m: nat, m': nat)
    requires SenderOk(n, limit) && |n.end.past.log| <= MODULUS && m < |n.outs| && m' < |n.outs| && m != m'
    requires |FragsOf(n.outs[m])| >= 1 && |FragsOf(n.outs[m'])| >= 1
    ensures MessageKey(Messages(n.outs)[m]) != MessageKey(Messages(n.outs)[m'])
  {
    hide FragsOf, SenderOk, Offset, Plus;
    MessageFrags(n, limit, m);
    MessageFrags(n, limit, m');
    FragNumber(n, limit, m, 0);
    FragNumber(n, limit, m', 0);
    if FragAt(n, m, 0).sequence == FragAt(n, m', 0).sequence { SequenceIdentifies(n, limit, m, 0, m', 0); }
  }

  /** So whatever arrives, identifiers in flight do not clash. */
  lemma {:induction false} ValidIsFair(n: Node, limit: nat, trace: seq<Happening>)
    requires SenderOk(n, limit) && |n.end.past.log| <= MODULUS && AllValid(Messages(n.outs), trace)
    ensures FairTrace(Messages(n.outs), trace)
  {
    hide SenderOk, Messages, Valid, MessageKey, Since;
    if trace != [] {
      var msgs := Messages(n.outs);
      var before, last := trace[..|trace| - 1], trace[|trace| - 1];
      assert last in trace;
      forall h | h in before ensures Valid(msgs, h) { assert h in trace; }
      ValidIsFair(n, limit, before);
      forall m: nat, m': nat | InFlight(msgs, trace, m) && InFlight(msgs, trace, m') && m != m'
        ensures MessageKey(msgs[m]) != MessageKey(msgs[m'])
      {
        MessagesSize(n, limit, m);
        MessagesSize(n, limit, m');
        KeysAreDistinct(n, limit, m, m');
      }
    }
  }

  lemma MessagesSize(n: Node, limit: nat, m: nat)
    requires SenderOk(n, limit)
    ensures |Messages(n.outs)| == |n.outs|
    ensures m < |n.outs| ==> |FragsOf(n.outs[m])| == |Messages(n.outs)[m].frags|
  {}

  /** A genuine packet is a transmission of some fragment. */
  lemma FragmentOf(n: Node, limit: nat, pkt: LpPacket) returns (m: nat, j: nat)
    requires SenderOk(n, limit) && Genuine(n.end.past.log, pkt)
    ensures m < |n.outs| && j < |FragsOf(n.outs[m])| && Core(FragAt(n, m, j)) == Core(pkt)
    ensures Valid(Messages(n.outs), Arrival(m, j, pkt))
  {
    hide FragsOf, WindowFrom, Sendable, Core, Offset;
    var e :| e in n.end.past.log && e.pkt.txSequence == pkt.txSequence && Core(e.pkt) == Core(pkt);
    assert From(n.end.past.given, e.id, e.pkt);
    m := e.id;
    var f :| f in n.end.past.given[m] && Core(f) == Core(e.pkt);
    var i :| 0 <= i < |n.end.past.given[m]| && n.end.past.given[m][i] == f;
    j := i;
    MessageFrags(n, limit, m);
  }

  // ---- what the receiver's reassembler has been through ----

  ghost function Untag(delivered: seq<(nat, A.Delivery)>): seq<A.Delivery> {
    seq(|delivered|, i requires 0 <= i < |delivered| => delivered[i].1)
  }

  ghost predicate Matches(h: Happening, x: Input) {
    match x
    case Fed(pkt) => h.Arrival? && h.pkt == pkt
    case Expired(key) => h == Drop(key)
  }

  /** The trace is what the reassembler has been through, with each packet's place in its message; it explains
      the state. */
  ghost predicate Explains(outs: seq<Outgoing>, o: Node, limit: nat, trace: seq<Happening>) {
    var msgs := Messages(outs);
    && AllValid(msgs, trace)
    && |trace| == |o.inputs| && (forall i | 0 <= i < |trace| :: Matches(trace[i], o.inputs[i]))
    && var r := RunTrace(msgs, trace, limit);
       r.partials == o.partials && Untag(r.delivered) == o.delivered
  }

  /** New packets do not change what was made of the old ones. */
  lemma {:induction false} TraceGrows(outs: seq<Outgoing>, o: Outgoing, trace: seq<Happening>, limit: nat)
    requires AllValid(Messages(outs), trace)
    ensures AllValid(Messages(outs + [o]), trace)
    ensures RunTrace(Messages(outs + [o]), trace, limit) == RunTrace(Messages(outs), trace, limit)
  {
    hide MessageOf, A.Receive, Core;
    forall h | h in trace ensures Valid(Messages(outs + [o]), h) {
      assert Valid(Messages(outs), h);
    }
    if trace != [] {
      var before, last := trace[..|trace| - 1], trace[|trace| - 1];
      assert last in trace && Valid(Messages(outs), last);
      forall h | h in before ensures Valid(Messages(outs), h) { assert h in trace; }
      TraceGrows(outs, o, before, limit);
    }
  }

  lemma AdmitExplains(n: Node, o: Node, limit: nat, trace: seq<Happening>, m: nat, j: nat, pkt: LpPacket, r: Node)
    requires SenderOk(n, limit) && Explains(n.outs, o, limit, trace)
    requires Valid(Messages(n.outs), Arrival(m, j, pkt)) && A.SlotsMatchCount(o.partials)
    requires var q := A.Receive(o.partials, limit, pkt, 0);
             r == o.(end := r.end, inputs := o.inputs + [Fed(pkt)], partials := q.partials,
                     delivered := o.delivered + (if q.out.Some? then [q.out.value] else []))
    ensures Explains(n.outs, r, limit, trace + [Arrival(m, j, pkt)])
  {
    hide MessageOf, A.Receive, Core, From, LogFrom, WindowFrom, Sendable, Offset;
    var longer := trace + [Arrival(m, j, pkt)];
    assert longer[..|trace|] == trace;
    MessageFrags(n, limit, m);
    assert forall h | h in longer :: h in trace || h == Arrival(m, j, pkt);
  }

  lemma DropExplains(outs: seq<Outgoing>, o: Node, limit: nat, trace: seq<Happening>, key: A.Key, r: Node)
    requires Explains(outs, o, limit, trace)
    requires r.inputs == o.inputs + [Expired(key)] && r.partials == o.partials - {key} && r.delivered == o.delivered
    ensures Explains(outs, r, limit, trace + [Drop(key)])
  {
    hide Messages, A.Receive, Core;
    var longer := trace + [Drop(key)];
    assert longer[..|trace|] == trace;
    assert forall h | h in longer :: h in trace || h == Drop(key);
  }

  /** Every Sequence received has been admitted once. */
  ghost predicate Covered(o: Node) {
    && (forall q | q in o.end.received && IsFragment(q) :: Admitted(o, q))
    && (forall p | Fed(p) in o.inputs :: p in o.end.received && IsFragment(p))
  }

  ghost predicate Admitted(o: Node, q: LpPacket) {
    exists p :: Fed(p) in o.inputs && p.sequence == q.sequence
  }

  /** A copy of something admitted is dropped. */
  lemma DroppedCovered(o: Node, r: Node, pkt: LpPacket)
    requires Covered(o) && r.end.received == o.end.received + [pkt] && r.inputs == o.inputs
    requires IsFragment(pkt) ==> Admitted(o, pkt)
    ensures Covered(r)
  {
    hide IsFragment;
    forall q | q in r.end.received && IsFragment(q) ensures Admitted(r, q) {
      if q in o.end.received { assert Admitted(o, q); }
    }
  }

  lemma AdmittedCovered(o: Node, r: Node, pkt: LpPacket)
    requires Covered(o) && r.end.received == o.end.received + [pkt] && r.inputs == o.inputs + [Fed(pkt)]
    requires IsFragment(pkt)
    ensures Covered(r)
  {
    hide IsFragment;
    forall q | q in r.end.received && IsFragment(q) ensures Admitted(r, q) {
      if q in o.end.received {
        assert Admitted(o, q);
        var p :| Fed(p) in o.inputs && p.sequence == q.sequence;
        assert Fed(p) in r.inputs;
      } else {
        assert Fed(pkt) in r.inputs;
      }
    }
  }

  // ---- what every step keeps, from a sender to a receiver ----

  ghost predicate Explained(outs: seq<Outgoing>, o: Node, limit: nat) {
    exists trace :: Explains(outs, o, limit, trace)
  }

  ghost predicate Flow(n: Node, o: Node, limit: nat) {
    && Covered(o)
    && (|n.end.past.log| <= MODULUS ==> SenderOk(n, limit) && Explained(n.outs, o, limit))
  }

  lemma SenderStepFlow(cfg: LinkConfig, n: Node, ev: LinkEvent, r: Node, o: Node, limit: nat)
    requires Flow(n, o, limit) && Trust(n.end, o.end) && cfg.opts.nMaxFragments <= limit && NodeStep(cfg, n, ev, r)
    ensures Flow(r, o, limit)
  {
    hide SenderOk, Explains, Step, Covered, Genuine, Tallied, AllOwed, MatchesLog, FullyReceived, FragsOf;
    if !ev.DropTimer? { StepExtendsLog(cfg.peer, n.end, PeerEvent(cfg, n, ev), r.end); }
    if |r.end.past.log| <= MODULUS {
      match ev
      case SendNet(pkt, isInterest) =>
        NewPacketOk(cfg, n, pkt, isInterest, r, limit);
        var trace :| Explains(n.outs, o, limit, trace);
        ExplainsGrows(n.outs, OutgoingOf(cfg, n, pkt), o, limit, trace);
      case Below(e) =>
        OldPacketsOk(cfg, n, e, r, limit);
      case DropTimer(key) =>
        SameSender(n, r, limit);
    }
  }

  lemma SameSender(n: Node, r: Node, limit: nat)
    requires SenderOk(n, limit) && r.end == n.end && r.outs == n.outs && r.lastSeqNo == n.lastSeqNo
    ensures SenderOk(r, limit)
  {
    hide Sendable, FragsOf, Plus, WindowFrom, LogFrom;
  }

  lemma ExplainsGrows(outs: seq<Outgoing>, more: Outgoing, o: Node, limit: nat, trace: seq<Happening>)
    requires Explains(outs, o, limit, trace)
    ensures Explains(outs + [more], o, limit, trace)
  {
    hide Messages;
    TraceGrows(outs, more, trace, limit);
  }

  /** Nothing reaches the reassembler. */
  lemma SameFlow(n: Node, o: Node, r: Node, limit: nat)
    requires Flow(n, o, limit) && r.end.received == o.end.received
    requires r.inputs == o.inputs && r.partials == o.partials && r.delivered == o.delivered
    ensures Flow(n, r, limit)
  {
    hide SenderOk, Explained, Admitted, IsFragment;
    forall q | Admitted(o, q) ensures Admitted(r, q) { SameAdmitted(o, r, q); }
    SameExplained(n, o, r, limit);
  }

  lemma SameAdmitted(o: Node, r: Node, q: LpPacket)
    requires r.inputs == o.inputs && Admitted(o, q)
    ensures Admitted(r, q)
  {}

  /** A drop timer of the receiver expires. */
  lemma DropFlow(n: Node, o: Node, key: A.Key, r: Node, limit: nat)
    requires Flow(n, o, limit)
    requires r == o.(inputs := o.inputs + [Expired(key)], partials := o.partials - {key})
    ensures Flow(n, r, limit)
  {
    hide SenderOk, Explains, IsFragment;
    forall q | Admitted(o, q) ensures Admitted(r, q) {
      var p :| Fed(p) in o.inputs && p.sequence == q.sequence;
      assert Fed(p) in r.inputs;
    }
    if |n.end.past.log| <= MODULUS {
      var trace :| Explains(n.outs, o, limit, trace);
      DropExplains(n.outs, o, limit, trace, key, r);
    }
  }

  lemma CarriedIsFragment(c: Config, e: Endpoint, pkt: LpPacket)
    requires Local(c, e) && Carries(e.peer.acks.offered, pkt)
    ensures pkt.fragment.Some? ==> IsFragment(pkt)
  {
    hide SenderRuns.Good, CleanLog, CleanWindow, AckStream;
  }

  lemma ReceiveFlow(cfgN: LinkConfig, n: Node, cfg: LinkConfig, o: Node, pkt: LpPacket, now: int, rto: int, r: Node)
    requires Flow(n, o, cfg.limit) && Local(cfgN.peer, n.end) && Honest(o.end) && cfg.opts.allowReassembly
    requires NodeStep(cfg, o, Below(Receive(pkt, now, rto)), r) && Carries(n.end.peer.acks.offered, pkt)
    ensures Flow(n, r, cfg.limit)
  {
    hide SenderOk, Explains, Local, Carries, ProcessAcks, SendAll, Remember, A.Receive, Covered, Inv, Genuine, FragsOf,
         OnlyReceived, Heard;
    CarriedIsFragment(cfgN.peer, n.end, pkt);
    if Passes(cfg, o, pkt, now, rto) {
      AdmittedCovered(o, r, pkt);
      if |n.end.past.log| <= MODULUS {
        CarriedIsGenuine(cfgN.peer, n.end, pkt);
        var m, j := FragmentOf(n, cfg.limit, pkt);
        var trace :| Explains(n.outs, o, cfg.limit, trace);
        AdmitExplains(n, o, cfg.limit, trace, m, j, pkt, r);
      }
    } else {
      if IsFragment(pkt) { DuplicateIsAdmitted(o, pkt.sequence.value, pkt); }
      DroppedCovered(o, r, pkt);
      SameExplained(n, o, r, cfg.limit);
    }
  }

  lemma SameExplained(n: Node, o: Node, r: Node, limit: nat)
    requires r.inputs == o.inputs && r.partials == o.partials && r.delivered == o.delivered
    ensures Explained(n.outs, o, limit) ==> Explained(n.outs, r, limit)
  {
    hide AllValid;
    if trace :| Explains(n.outs, o, limit, trace) { assert Explains(n.outs, r, limit, trace); }
  }

  lemma DuplicateIsAdmitted(o: Node, s: Sequence, pkt: LpPacket)
    requires Covered(o) && Honest(o.end) && IsDuplicate(o.end.peer.recent, s) && pkt.sequence == Some(s)
    ensures Admitted(o, pkt)
  {
    assert s in Heard(o.end.received);
    var q :| q in o.end.received && IsFragment(q) && q.sequence == Some(s);
    assert Admitted(o, q);
  }

  lemma ReceiverStepFlow(cfgN: LinkConfig, n: Node, cfg: LinkConfig, o: Node, ev: LinkEvent, r: Node)
    requires Flow(n, o, cfg.limit) && Local(cfgN.peer, n.end) && Honest(o.end) && cfg.opts.allowReassembly
    requires NodeStep(cfg, o, ev, r)
    requires ev.Below? && ev.ev.Receive? ==> Carries(n.end.peer.acks.offered, ev.ev.pkt)
    ensures Flow(n, r, cfg.limit)
  {
    if ev.Below? && ev.ev.Receive? {
      ReceiveFlow(cfgN, n, cfg, o, ev.ev.pkt, ev.ev.now, ev.ev.rto, r);
    } else if ev.DropTimer? {
      DropFlow(n, o, ev.key, r, cfg.limit);
    } else {
      hide Flow, Local, Step, CanSend, FragsOf;
      StepMemory(cfg.peer, o.end, PeerEvent(cfg, o, ev), r.end);
      assert o.end.received + [] == o.end.received;
      SameFlow(n, o, r, cfg.limit);
    }
  }

  // ---- runs ----

  datatype Link = Link(a: Node, b: Node)

  const NEW_LINK := Link(NEW_NODE, NEW_NODE)

  ghost predicate LinkMoves(ca: LinkConfig, cb: LinkConfig, s: Link, byA: bool, ev: LinkEvent, t: Link) {
    var received := ev.Below? && ev.ev.Receive?;
    if byA then
      NodeStep(ca, s.a, ev, t.a) && t.b == s.b && (received ==> Carries(s.b.end.peer.acks.offered, ev.ev.pkt))
    else
      NodeStep(cb, s.b, ev, t.b) && t.a == s.a && (received ==> Carries(s.a.end.peer.acks.offered, ev.ev.pkt))
  }

  ghost predicate IsLinkRun(ca: LinkConfig, cb: LinkConfig, states: seq<Link>, events: seq<(bool, LinkEvent)>) {
    && |states| == |events| + 1 && states[0] == NEW_LINK
    && forall i | 0 <= i < |events| :: LinkMoves(ca, cb, states[i], events[i].0, events[i].1, states[i + 1])
  }

  /** Reliability is on at both ends, and each reassembles what the other may send. */
  predicate Compatible(ca: LinkConfig, cb: LinkConfig) {
    && ca.opts.isReliable && ca.opts.allowReassembly && 1 <= ca.limit && cb.opts.nMaxFragments <= ca.limit
    && cb.opts.isReliable && cb.opts.allowReassembly && 1 <= cb.limit && ca.opts.nMaxFragments <= cb.limit
  }

  ghost function Ends(s: Link): System {
    System(s.a.end, s.b.end)
  }

  /** The reliability layers of a link move as two peers do, and not at all when a drop timer expires. */
  lemma EndsMove(ca: LinkConfig, cb: LinkConfig, s: Link, byA: bool, ev: LinkEvent, t: Link)
    requires LinkMoves(ca, cb, s, byA, ev, t)
    ensures if ev.DropTimer? then Ends(t) == Ends(s)
            else Moves(ca.peer, cb.peer, Ends(s), byA, if byA then PeerEvent(ca, s.a, ev) else PeerEvent(cb, s.b, ev), Ends(t))
  {
    hide Step, CanSend, FragsOf, Carries;
  }

  ghost predicate BothFlow(ca: LinkConfig, cb: LinkConfig, s: Link) {
    Flow(s.a, s.b, cb.limit) && Flow(s.b, s.a, ca.limit)
  }

  lemma MovesKeepFlow(ca: LinkConfig, cb: LinkConfig, s: Link, byA: bool, ev: LinkEvent, t: Link)
    requires Compatible(ca, cb) && BothFlow(ca, cb, s) && LinkMoves(ca, cb, s, byA, ev, t)
    requires Safe(ca.peer, cb.peer, Ends(s)) && Honest(s.a.end) && Honest(s.b.end)
    ensures BothFlow(ca, cb, t)
  {
    hide Flow, NodeStep, Local, Trust, Honest, Carries;
    if byA {
      SenderStepFlow(ca, s.a, ev, t.a, s.b, cb.limit);
      ReceiverStepFlow(cb, s.b, ca, s.a, ev, t.a);
    } else {
      SenderStepFlow(cb, s.b, ev, t.b, s.a, ca.limit);
      ReceiverStepFlow(ca, s.a, cb, s.b, ev, t.b);
    }
  }

  /** What every run keeps: the reliability layers are safe, and what came out of each reassembler is explained
      by the packets the other side was given. */
  ghost predicate SoundLink(ca: LinkConfig, cb: LinkConfig, s: Link) {
    Safe(ca.peer, cb.peer, Ends(s)) && Honest(s.a.end) && Honest(s.b.end) && BothFlow(ca, cb, s)
  }

  lemma MovesKeepSound(ca: LinkConfig, cb: LinkConfig, s: Link, byA: bool, ev: LinkEvent, t: Link)
    requires Compatible(ca, cb) && SoundLink(ca, cb, s) && LinkMoves(ca, cb, s, byA, ev, t)
    ensures SoundLink(ca, cb, t)
  {
    hide LinkMoves, Compatible, BothFlow, Safe, Honest, Step, PeerEvent;
    MovesKeepFlow(ca, cb, s, byA, ev, t);
    EndsMove(ca, cb, s, byA, ev, t);
    if !ev.DropTimer? {
      var e := if byA then PeerEvent(ca, s.a, ev) else PeerEvent(cb, s.b, ev);
      MovesKeepsSafe(ca.peer, cb.peer, Ends(s), byA, e, Ends(t));
      if byA { StepKeepsHonest(ca.peer, s.a.end, e, t.a.end); } else { StepKeepsHonest(cb.peer, s.b.end, e, t.b.end); }
    }
  }

  lemma {:induction false} RunsFlow(ca: LinkConfig, cb: LinkConfig, states: seq<Link>, events: seq<(bool, LinkEvent)>, i: nat)
    requires IsLinkRun(ca, cb, states, events) && Compatible(ca, cb) && i < |states|
    ensures SoundLink(ca, cb, states[i])
  {
    hide LinkMoves, SoundLink, Compatible;
    if i == 0 {
      NewLinkIsSound(ca, cb);
    } else {
      RunsFlow(ca, cb, states, events, i - 1);
      MovesKeepSound(ca, cb, states[i - 1], events[i - 1].0, events[i - 1].1, states[i]);
    }
  }

  lemma NewLinkIsSound(ca: LinkConfig, cb: LinkConfig)
    ensures SoundLink(ca, cb, NEW_LINK)
  {
    hide BothFlow, Safe, Honest;
    NewLinkFlows(ca, cb);
    InitialSafe(ca.peer, cb.peer);
    NewIsHonest();
  }

  lemma NewLinkFlows(ca: LinkConfig, cb: LinkConfig)
    ensures BothFlow(ca, cb, NEW_LINK)
  {
    NewFlows(ca.limit);
    NewFlows(cb.limit);
  }

  lemma NewFlows(limit: nat)
    ensures Flow(NEW_NODE, NEW_NODE, limit)
  {
    assert Explains([], NEW_NODE, limit, []);
  }

  // ---- what has been delivered ----

  function SenderOf(s: Link, fromA: bool): Node {
    if fromA then s.a else s.b
  }

  function ReceiverOf(s: Link, fromA: bool): Node {
    if fromA then s.b else s.a
  }

  lemma CountedIsReceived(n: Endpoint, o: Endpoint, id: nat)
    requires Trust(n, o) && |n.past.log| <= MODULUS && id in n.past.delivered
    ensures id in n.past.given && forall f | f in n.past.given[id] :: Core(f) in Got(o)
  {
    hide AllOwed, MatchesLog, Genuine;
    assert FullyReceived(n.past, Got(o), id);
  }

  /** Two genuine packets with the same Sequence are transmissions of the same fragment. */
  lemma SameSequenceSameFragment(n: Node, limit: nat, p: LpPacket, q: LpPacket)
    requires SenderOk(n, limit) && |n.end.past.log| <= MODULUS
    requires Genuine(n.end.past.log, p) && Genuine(n.end.past.log, q) && p.sequence == q.sequence
    ensures Core(p) == Core(q)
  {
    hide SenderOk, FragsOf, Genuine;
    var m, j := FragmentOf(n, limit, p);
    var m', j' := FragmentOf(n, limit, q);
    assert FragAt(n, m, j).sequence == Core(p).sequence && FragAt(n, m', j').sequence == Core(q).sequence;
    SequenceIdentifies(n, limit, m, j, m', j');
  }

  // ---- stretches of what the reassembler has been through ----

  ghost predicate FedIn(inputs: seq<Input>, f: LpPacket) {
    exists p :: Fed(p) in inputs && Core(p) == Core(f)
  }

  ghost function KeyOf(o: Outgoing): A.Key {
    MessageKey(MessageOf(o))
  }

  /** All fragments of the packet are in these inputs, and no drop of it is. */
  ghost predicate Whole(inputs: seq<Input>, o: Outgoing) {
    Expired(KeyOf(o)) !in inputs && forall f | f in FragsOf(o) :: FedIn(inputs, f)
  }

  /** In some stretch without a drop of it, all fragments of the packet passed duplicate detection. */
  ghost predicate GotThrough(inputs: seq<Input>, o: Outgoing) {
    exists i: nat, j: nat :: i <= j <= |inputs| && Whole(inputs[i..j], o)
  }

  /** Part of an explaining trace. */
  ghost predicate Parallel(msgs: seq<Message>, inputs: seq<Input>, trace: seq<Happening>) {
    AllValid(msgs, trace) && |trace| == |inputs| && forall i | 0 <= i < |trace| :: Matches(trace[i], inputs[i])
  }

  lemma ParallelPart(msgs: seq<Message>, inputs: seq<Input>, trace: seq<Happening>, i: nat, j: nat)
    requires Parallel(msgs, inputs, trace) && i <= j <= |trace|
    ensures Parallel(msgs, inputs[i..j], trace[i..j])
  {
    hide Valid, Matches;
    AllValidPart(msgs, trace, i, j);
  }

  /** Fragment j of packet m is among the inputs iff the trace has it. */
  lemma FedIffSeen(n: Node, limit: nat, inputs: seq<Input>, trace: seq<Happening>, m: nat, j: nat)
    requires SenderOk(n, limit) && |n.end.past.log| <= MODULUS && Parallel(Messages(n.outs), inputs, trace)
    requires m < |n.outs| && j < |FragsOf(n.outs[m])|
    ensures FedIn(inputs, FragAt(n, m, j)) <==> j in Seen(trace, m)
  {
    hide SenderOk, FragsOf;
    MessageFrags(n, limit, m);
    if FedIn(inputs, FragAt(n, m, j)) {
      var p :| Fed(p) in inputs && Core(p) == Core(FragAt(n, m, j));
      var t :| 0 <= t < |inputs| && inputs[t] == Fed(p);
      var h := trace[t];
      assert h in trace && Matches(h, inputs[t]) && Valid(Messages(n.outs), h);
      MessageFrags(n, limit, h.msg);
      assert Core(p).sequence == FragAt(n, h.msg, h.idx).sequence;
      assert Core(p).sequence == FragAt(n, m, j).sequence;
      SequenceIdentifies(n, limit, h.msg, h.idx, m, j);
    }
    if j in Seen(trace, m) {
      var t :| 0 <= t < |trace| && trace[t].Arrival? && trace[t].msg == m && trace[t].idx == j;
      assert trace[t] in trace && Matches(trace[t], inputs[t]) && Valid(Messages(n.outs), trace[t]);
      assert Fed(trace[t].pkt) in inputs;
    }
  }

  lemma DropIffExpired(msgs: seq<Message>, inputs: seq<Input>, trace: seq<Happening>, m: nat)
    requires Parallel(msgs, inputs, trace) && m < |msgs|
    ensures NoDrop(msgs, trace, m) <==> Expired(MessageKey(msgs[m])) !in inputs
  {
    hide Valid, MessageKey;
    var key := MessageKey(msgs[m]);
    if Expired(key) in inputs {
      var t :| 0 <= t < |inputs| && inputs[t] == Expired(key);
      assert Matches(trace[t], inputs[t]) && trace[t] in trace && Drops(msgs, trace[t], m);
    }
    if !NoDrop(msgs, trace, m) {
      var h :| h in trace && Drops(msgs, h, m);
      var t :| 0 <= t < |trace| && trace[t] == h;
      assert Matches(trace[t], inputs[t]);
      assert inputs[t] == Expired(key);
    }
  }

  lemma WholeIff(n: Node, limit: nat, inputs: seq<Input>, trace: seq<Happening>, m: nat)
    requires SenderOk(n, limit) && |n.end.past.log| <= MODULUS && Parallel(Messages(n.outs), inputs, trace) && m < |n.outs|
    ensures |Messages(n.outs)| == |n.outs|
    ensures Whole(inputs, n.outs[m]) <==> NoDrop(Messages(n.outs), trace, m) && Complete(Messages(n.outs), trace, m)
  {
    hide SenderOk, FragsOf, FedIn, Seen, Parallel, NoDrop, MessageOf;
    MessagesSize(n, limit, m);
    var msgs, size := Messages(n.outs), |FragsOf(n.outs[m])|;
    DropIffExpired(msgs, inputs, trace, m);
    ParallelIsValid(msgs, inputs, trace);
    SeenInRange(msgs, trace, m);
    forall j: nat | j < size ensures FedIn(inputs, FragsOf(n.outs[m])[j]) <==> j in Seen(trace, m) {
      FedIffSeen(n, limit, inputs, trace, m, j);
    }
    if Whole(inputs, n.outs[m]) {
      forall j | j in Full(size) ensures j in Seen(trace, m) { assert FragsOf(n.outs[m])[j] in FragsOf(n.outs[m]); }
    }
    if Complete(msgs, trace, m) {
      forall f | f in FragsOf(n.outs[m]) ensures FedIn(inputs, f) {
        var j :| 0 <= j < size && FragsOf(n.outs[m])[j] == f;
        assert j in Full(size);
      }
    }
  }

  lemma ParallelIsValid(msgs: seq<Message>, inputs: seq<Input>, trace: seq<Happening>)
    requires Parallel(msgs, inputs, trace)
    ensures AllValid(msgs, trace)
  {}

  lemma GotThroughIff(n: Node, limit: nat, inputs: seq<Input>, trace: seq<Happening>, m: nat)
    requires SenderOk(n, limit) && |n.end.past.log| <= MODULUS && Parallel(Messages(n.outs), inputs, trace) && m < |n.outs|
    ensures |Messages(n.outs)| == |n.outs|
    ensures GotThrough(inputs, n.outs[m]) <==> HasStretch(Messages(n.outs), trace, m)
  {
    hide SenderOk, FragsOf, Whole, NoDrop, Complete, AllValid, Matches;
    MessagesSize(n, limit, m);
    var msgs := Messages(n.outs);
    forall i: nat, j: nat | i <= j <= |trace|
      ensures Whole(inputs[i..j], n.outs[m]) <==> NoDrop(msgs, trace[i..j], m) && Complete(msgs, trace[i..j], m)
    {
      ParallelPart(msgs, inputs, trace, i, j);
      WholeIff(n, limit, inputs[i..j], trace[i..j], m);
    }
  }

  /** Every fragment received has been given to the reassembler, itself or an earlier copy. */
  lemma ReceivedIsFed(n: Node, o: Node, limit: nat, f: LpPacket)
    requires SenderOk(n, limit) && |n.end.past.log| <= MODULUS && Covered(o) && Trust(n.end, o.end) && Core(f) in Got(o.end)
    ensures FedIn(o.inputs, f)
  {
    hide SenderOk, Book, Core, Genuine;
    var q :| q in o.end.received && IsFragment(q) && Core(q) == Core(f);
    assert Admitted(o, q);
    var p :| Fed(p) in o.inputs && p.sequence == q.sequence;
    assert p in o.end.received && IsFragment(p);
    SameSequenceSameFragment(n, limit, p, q);
  }

  /** The payload and headers that a delivery should have. */
  predicate IsPacket(o: Outgoing, d: A.Delivery) {
    d.payload == A.Payload(o.packet) && d.firstFrag.headers == o.packet.headers
  }

  /** How often packet `id` has been delivered: each delivery of the reassembler belongs to the packet whose
      fragment triggered it. */
  ghost function TimesDelivered(outs: seq<Outgoing>, trace: seq<Happening>, limit: nat, id: nat): nat
    requires InRange(Messages(outs), trace)
  {
    CountOf(RunTrace(Messages(outs), trace, limit).delivered, id)
  }

  lemma ExplainsParallel(outs: seq<Outgoing>, o: Node, limit: nat, trace: seq<Happening>)
    requires Explains(outs, o, limit, trace)
    ensures Parallel(Messages(outs), o.inputs, trace) && InRange(Messages(outs), trace)
  {
    hide RunTrace, Messages;
  }

  /** What explains the receiver's state tells how often each packet was delivered, and whether at all. */
  lemma ExplainedDeliveries(n: Node, o: Node, limit: nat, trace: seq<Happening>, id: nat)
    requires SenderOk(n, limit) && limit >= 1 && |n.end.past.log| <= MODULUS && Explains(n.outs, o, limit, trace)
    requires id < |n.outs|
    ensures InRange(Messages(n.outs), trace)
    ensures TimesDelivered(n.outs, trace, limit, id) == Rounds(Messages(n.outs), trace, id)
    ensures TimesDelivered(n.outs, trace, limit, id) > 0 <==> GotThrough(o.inputs, n.outs[id])
    ensures GotThrough(o.inputs, n.outs[id]) ==> exists d :: d in o.delivered && IsPacket(n.outs[id], d)
  {
    ExplainsParallel(n.outs, o, limit, trace);
    ParallelIsValid(Messages(n.outs), o.inputs, trace);
    GotThroughIff(n, limit, o.inputs, trace, id);
    ValidIsFair(n, limit, trace);
    AllSendable(n, limit);
    hide SenderOk, RunTrace, Messages, FairTrace, HasStretch, GotThrough, AllValid, Rounds, Sendable;
    FragmentationIsIdentity(n.outs, trace, limit, id);
    var delivered := RunTrace(Messages(n.outs), trace, limit).delivered;
    if GotThrough(o.inputs, n.outs[id]) {
      CountedIsThere(delivered, id);
      var i :| 0 <= i < |delivered| && delivered[i].0 == id;
      assert delivered[i] in delivered && Untag(delivered)[i] == delivered[i].1;
      assert IsPacket(n.outs[id], delivered[i].1);
    }
  }

  lemma AllSendable(n: Node, limit: nat)
    requires SenderOk(n, limit)
    ensures forall o | o in n.outs :: Sendable(o, limit)
  {}

  lemma {:induction false} CountedIsThere(delivered: seq<(nat, A.Delivery)>, m: nat)
    requires CountOf(delivered, m) > 0
    ensures exists i :: 0 <= i < |delivered| && delivered[i].0 == m
  {
    var n := |delivered| - 1;
    if delivered[n].0 != m { CountedIsThere(delivered[..n], m); }
  }

  /** In every run of two link services over a link that loses, duplicates, reorders and marks, with drop timers
      expiring at any time: a network packet has been delivered by the peer, with its payload and headers, iff
      there is a stretch without a drop of it in which all its fragments passed duplicate detection. */
  lemma DeliveredIffGotThrough(ca: LinkConfig, cb: LinkConfig, states: seq<Link>, events: seq<(bool, LinkEvent)>,
                               i: nat, fromA: bool, id: nat)
    requires IsLinkRun(ca, cb, states, events) && Compatible(ca, cb) && i < |states|
    requires var n := SenderOf(states[i], fromA); |n.end.past.log| <= MODULUS && id < |n.outs|
    ensures var n, o := SenderOf(states[i], fromA), ReceiverOf(states[i], fromA);
            var limit := if fromA then cb.limit else ca.limit;
            && Explained(n.outs, o, limit)
            && (forall trace | Explains(n.outs, o, limit, trace) ::
                  && InRange(Messages(n.outs), trace)
                  && TimesDelivered(n.outs, trace, limit, id) == Rounds(Messages(n.outs), trace, id)
                  && (TimesDelivered(n.outs, trace, limit, id) > 0 <==> GotThrough(o.inputs, n.outs[id])))
            && (GotThrough(o.inputs, n.outs[id]) ==> exists d :: d in o.delivered && IsPacket(n.outs[id], d))
  {
    var n, o := SenderOf(states[i], fromA), ReceiverOf(states[i], fromA);
    var limit := if fromA then cb.limit else ca.limit;
    Facts(ca, cb, states, events, i, fromA);
    hide IsLinkRun, SenderOk, Explains, TimesDelivered, Rounds, Covered, Trust, GotThrough, IsPacket, InRange;
    forall trace | Explains(n.outs, o, limit, trace)
      ensures InRange(Messages(n.outs), trace)
      ensures TimesDelivered(n.outs, trace, limit, id) == Rounds(Messages(n.outs), trace, id)
      ensures TimesDelivered(n.outs, trace, limit, id) > 0 <==> GotThrough(o.inputs, n.outs[id])
    {
      ExplainedDeliveries(n, o, limit, trace, id);
    }
    var trace :| Explains(n.outs, o, limit, trace);
    ExplainedDeliveries(n, o, limit, trace, id);
  }

  /** As soon as a sender has counted a network packet in nAcknowledged or nRetransmitted, all its fragments
      have passed duplicate detection at the peer; so the peer has delivered it, unless its partial packet was
      dropped there. */
  lemma CountedIsDelivered(ca: LinkConfig, cb: LinkConfig, states: seq<Link>, events: seq<(bool, LinkEvent)>, i: nat,
                           fromA: bool, id: nat)
    requires IsLinkRun(ca, cb, states, events) && Compatible(ca, cb) && i < |states|
    requires var n := SenderOf(states[i], fromA); |n.end.past.log| <= MODULUS && id in n.end.past.delivered
    ensures var n, o := SenderOf(states[i], fromA), ReceiverOf(states[i], fromA);
            && id < |n.outs|
            && (forall f | f in FragsOf(n.outs[id]) :: FedIn(o.inputs, f))
            && (Expired(KeyOf(n.outs[id])) !in o.inputs ==>
                  GotThrough(o.inputs, n.outs[id]) && exists d :: d in o.delivered && IsPacket(n.outs[id], d))
  {
    var n, o := SenderOf(states[i], fromA), ReceiverOf(states[i], fromA);
    var limit := if fromA then cb.limit else ca.limit;
    Facts(ca, cb, states, events, i, fromA);
    hide IsLinkRun, SenderOk, Explained, Covered, Trust, FedIn, IsPacket, FragsOf, KeyOf;
    CountedIsReceived(n.end, o.end, id);
    GivenIsFrags(n, limit, id);
    forall f | f in FragsOf(n.outs[id]) ensures FedIn(o.inputs, f) { ReceivedIsFed(n, o, limit, f); }
    if Expired(KeyOf(n.outs[id])) !in o.inputs {
      assert o.inputs[0..|o.inputs|] == o.inputs;
      assert Whole(o.inputs[0..|o.inputs|], n.outs[id]);
      DeliveredIffGotThrough(ca, cb, states, events, i, fromA, id);
    }
  }

  lemma GivenIsFrags(n: Node, limit: nat, id: nat)
    requires SenderOk(n, limit) && id in n.end.past.given
    ensures id < |n.outs| && n.end.past.given[id] == FragsOf(n.outs[id])
  {}

  lemma Facts(ca: LinkConfig, cb: LinkConfig, states: seq<Link>, events: seq<(bool, LinkEvent)>, i: nat, fromA: bool)
    requires IsLinkRun(ca, cb, states, events) && Compatible(ca, cb) && i < |states|
    ensures var n, o := SenderOf(states[i], fromA), ReceiverOf(states[i], fromA);
            && Flow(n, o, if fromA then cb.limit else ca.limit) && Trust(n.end, o.end) && Honest(o.end)
            && Local(if fromA then ca.peer else cb.peer, n.end)
            && Inv(o.end.peer.tx)
  {
    hide LinkMoves, Flow, Trust, Honest;
    RunsFlow(ca, cb, states, events, i);
  }

  /** In every run, within 2^64 transmissions, a packet that a peer drops as a duplicate is a copy of a
      fragment that has gone to its reassembler before, not merely one with the same Sequence. */
  lemma DroppedIsACopy(ca: LinkConfig, cb: LinkConfig, states: seq<Link>, events: seq<(bool, LinkEvent)>, i: nat,
                       fromA: bool, pkt: LpPacket, now: int, rto: int)
    requires IsLinkRun(ca, cb, states, events) && Compatible(ca, cb) && i < |states|
    requires var n, o := SenderOf(states[i], fromA), ReceiverOf(states[i], fromA);
             && |n.end.past.log| <= MODULUS && Carries(n.end.peer.acks.offered, pkt) && Inv(o.end.peer.tx)
             && var c := if fromA then cb.peer else ca.peer;
                var r := ProcessIncoming(o.end.peer, c.opt, c.mtu, pkt, now, rto); r.ok && !r.isNew
    ensures FedIn(ReceiverOf(states[i], fromA).inputs, pkt)
  {
    hide IsLinkRun, SenderOk, Explained, Trust, Covered, Local, Carries, ProcessIncoming, Honest, Inv, Core;
    Facts(ca, cb, states, events, i, fromA);
    var n, o := SenderOf(states[i], fromA), ReceiverOf(states[i], fromA);
    var c := if fromA then cb.peer else ca.peer;
    NotNewIsDuplicate(o.end.peer, c, pkt, now, rto);
    CarriedIsGenuine(if fromA then ca.peer else cb.peer, n.end, pkt);
    DuplicateIsCopy(n, o, if fromA then cb.limit else ca.limit, pkt);
  }

  lemma NotNewIsDuplicate(peer: Peer, c: Config, pkt: LpPacket, now: int, rto: int)
    requires Inv(peer.tx)
    requires var r := ProcessIncoming(peer, c.opt, c.mtu, pkt, now, rto); r.ok && !r.isNew
    ensures IsFragment(pkt) && pkt.sequence.Some? && IsDuplicate(peer.recent, pkt.sequence.value)
  {
    hide Inv, ProcessAcks, SendAll, Remember;
  }

  lemma DuplicateIsCopy(n: Node, o: Node, limit: nat, pkt: LpPacket)
    requires Flow(n, o, limit) && |n.end.past.log| <= MODULUS && Trust(n.end, o.end) && Honest(o.end)
    requires Genuine(n.end.past.log, pkt) && pkt.sequence.Some? && IsDuplicate(o.end.peer.recent, pkt.sequence.value)
    ensures FedIn(o.inputs, pkt)
  {
    hide SenderOk, Explained, Genuine, Book, Honest, Core;
    DuplicateIsAdmitted(o, pkt.sequence.value, pkt);
    var p :| Fed(p) in o.inputs && p.sequence == pkt.sequence;
    assert p in o.end.received && IsFragment(p);
    SameSequenceSameFragment(n, limit, p, pkt);
  }
}
