/** A run in which a packet is counted as acknowledged and never delivered: its second fragment comes after the
    drop timer of the first has expired. Both fragments are acknowledged as they arrive. */
module LateFragment {
  import opened Sequence64
  import opened LpPackets
  import opened SendWindow
  import opened AckProcessing
  import opened Ledger
  import opened AckQueue
  import opened LpFragmenter
  import opened RoundTrip
  import opened Peers
  import opened LinkRuns
  import A = LpReassembler
  import G = GenericLinkService

  const MTU := 112
  const OPTIONS := Options(3, 3)
  const LINK := LinkConfig(G.LinkOptions(true, 400, true, false, true), Config(OPTIONS, MTU), 400)

  /** Milliseconds; the drop timer is set to 500 of them, and the RTO starts at 1000. */
  const EARLY := 1
  const LATE := 601
  const RTO := 1000

  // ---- the packet and its fragments ----

  type Octets = p: seq<Byte> | |p| == 100 witness seq(100, _ => 0)

  function Net(p: Octets): LpPacket {
    EMPTY_PACKET.(fragment := Some(p))
  }

  function Frag0(p: Octets): LpPacket {
    EMPTY_PACKET.(sequence := Some(MODULUS - 1), fragIndex := Some(0), fragCount := Some(2), fragment := Some(p[..50]))
  }

  function Frag1(p: Octets): LpPacket {
    EMPTY_PACKET.(sequence := Some(0), fragIndex := Some(1), fragCount := Some(2), fragment := Some(p[50..]))
  }

  lemma Fragmented(p: Octets)
    ensures CanSend(LINK, Net(p)) && FragsOf(OutgoingOf(LINK, NEW_NODE, Net(p))) == [Frag0(p), Frag1(p)]
  {
    var rest := p[50..];
    assert Chunks(rest, 50) == [rest];
    assert Payloads(Net(p), 100) == [p[..50], rest];
    PreparedIsMessage(LINK, NEW_NODE, Net(p));
    assert Plus(FIRST, 1) == MODULUS - 1 && Plus(FIRST, 2) == 0;
  }

  // ---- the sender ----

  function Sent0(p: Octets): LpPacket {
    Frag0(p).(txSequence := Some(0))
  }

  function Sent1(p: Octets): LpPacket {
    Frag1(p).(txSequence := Some(1))
  }

  /** Both fragments are outstanding. */
  function Both(p: Octets): TxState {
    TxState(map[0 := NewFrag(Sent0(p), 0), 1 := NewFrag(Sent1(p), 0)], Some(0), 1,
            map[0 := NetPkt([0, 1], false, false)], 1, 0, 0, 0)
  }

  /** The first one is acknowledged. */
  function One(p: Octets): TxState {
    TxState(map[1 := NewFrag(Sent1(p), 0)], Some(1), 1, map[0 := NetPkt([1], false, false)], 1, 0, 0, 0)
  }

  /** Both are, and the packet is counted. */
  const NONE_LEFT := TxState(map[], None, 1, map[0 := NetPkt([], false, false)], 1, 1, 0, 0)

  ghost function SenderPast(p: Octets): Past {
    Past([Sent(0, Sent0(p)), Sent(0, Sent1(p))], map[0 := [Frag0(p), Frag1(p)]], {}, {})
  }

  ghost function Sender(p: Octets, tx: TxState, past: Past, received: seq<LpPacket>): Endpoint {
    Endpoint(Peer(tx, AckState([], false, [Sent0(p), Sent1(p)]), Recent(map[], [])), past, received)
  }

  lemma SendBoth(p: Octets)
    ensures HandleOutgoing(INITIAL, [Frag0(p), Frag1(p)], false) == SendResult(Both(p), [Sent0(p), Sent1(p)], true)
  {
    var tx0 := Allocate(INITIAL, false);
    var tx1 := SendOne(tx0, 0, Frag0(p));
    assert tx0.netPkts[0].unackedFrags + [0] == [0];
    assert tx1 == TxState(map[0 := NewFrag(Sent0(p), 0)], Some(0), 0, map[0 := NetPkt([0], false, false)], 1, 0, 0, 0);
    assert 0 in tx1.unacked && [0] + [1] == [0, 1];
    assert SendOne(tx1, 0, Frag1(p)) == Both(p);
    assert SendFrags(Both(p), 0, []) == SendResult(Both(p), [], true);
    assert [Frag1(p)][1..] == [] && [Sent1(p)] + [] == [Sent1(p)];
    assert SendFrags(tx1, 0, [Frag1(p)]) == SendResult(Both(p), [Sent1(p)], true);
    assert [Frag0(p), Frag1(p)][1..] == [Frag1(p)] && [Sent0(p)] + [Sent1(p)] == [Sent0(p), Sent1(p)];
  }

  lemma SendPlain(offered: seq<LpPacket>, pkt: LpPacket)
    requires pkt.acks == []
    ensures SendLpPacket(AckState([], false, offered), pkt, MTU) == AckState([], false, offered + [pkt])
  {
    hide RemainingSpace;
    assert AddAcks(pkt, []) == pkt by { assert pkt.acks + [] == pkt.acks; }
  }

  lemma OfferBoth(p: Octets)
    ensures SendAll(AckState([], false, []), [Sent0(p), Sent1(p)], MTU) == AckState([], false, [Sent0(p), Sent1(p)])
  {
    hide SendLpPacket, Sent0, Sent1;
    assert Sent0(p).acks == [] && Sent1(p).acks == [] by { SentHaveNoAcks(p); }
    var pkts := [Sent0(p), Sent1(p)];
    SendPlain([], Sent0(p));
    SendPlain([Sent0(p)], Sent1(p));
    assert pkts[1..] == [Sent1(p)] && [Sent1(p)][1..] == [];
    assert [] + [Sent0(p)] == [Sent0(p)] && [Sent0(p)] + [Sent1(p)] == pkts;
    assert SendAll(AckState([], false, pkts), [], MTU) == AckState([], false, pkts);
    assert SendAll(AckState([], false, [Sent0(p)]), [Sent1(p)], MTU) == AckState([], false, pkts);
  }

  lemma SentHaveNoAcks(p: Octets)
    ensures Sent0(p).acks == [] && Sent1(p).acks == []
  {}

  lemma LogBoth(p: Octets)
    ensures RecordSend(NO_PAST, 0, [Frag0(p), Frag1(p)], [Sent0(p), Sent1(p)]) == SenderPast(p)
  {
    hide Sent0, Sent1, Frag0, Frag1;
    assert SentAll(0, [Sent1(p)]) == [Sent(0, Sent1(p))];
    assert [Sent0(p), Sent1(p)][1..] == [Sent1(p)];
    assert SentAll(0, [Sent0(p), Sent1(p)]) == [Sent(0, Sent0(p)), Sent(0, Sent1(p))];
  }

  lemma SendStep(p: Octets)
    ensures Step(LINK.peer, NEW_ENDPOINT, SendPacket([Frag0(p), Frag1(p)], false), Sender(p, Both(p), SenderPast(p), []))
  {
    hide HandleOutgoing, SendAll, RecordSend, Both, SenderPast, Sent0, Sent1;
    SendBoth(p);
    OfferBoth(p);
    LogBoth(p);
  }

  lemma BothInv(p: Octets)
    ensures Inv(Both(p))
  {
    hide Frag0, Frag1;
    assert 0 in Both(p).unacked;
    forall k | k in Both(p).unacked ensures Linked(Both(p), k) {}
  }

  lemma OneInv(p: Octets)
    ensures Inv(One(p))
  {
    hide Frag1;
    assert 1 in One(p).unacked;
    forall k | k in One(p).unacked ensures Linked(One(p), k) {}
  }

  lemma AbsorbFirst(p: Octets)
    ensures Inv(Both(p)) && Absorb(Both(p), 0) == AckedResult(One(p), None)
  {
    BothInv(p);
    hide WindowInv, LinkInv;
    var tx := Both(p);
    assert BumpOlder(tx, 0) == tx by { assert BumpOlder(tx, 0).unacked == tx.unacked; }
    assert SwapRemove([0, 1], 0) == [1];
    assert tx.unacked - {0} == One(p).unacked && 1 in One(p).unacked;
    assert One(p).unacked.Keys == {1};
    NearestUnique({1}, 0, 1);
  }

  /** The Ack of the first fragment. */
  lemma FirstAck(p: Octets)
    ensures Inv(Both(p)) && ProcessAcks(Both(p), OPTIONS, [0]) == AckResult(One(p), [], [], true)
  {
    var tx := Both(p);
    assert 0 in tx.unacked && LostKeys(tx, 0, 3) == {};
    BothInv(p);
    OneInv(p);
    AbsorbFirst(p);
    hide Inv, Absorb, Both, One;
    assert ProcessAck(tx, OPTIONS, 0) == AckResult(One(p), [], [], true);
    assert ProcessAcks(One(p), OPTIONS, []) == AckResult(One(p), [], [], true);
    assert [0][1..] == [];
  }

  lemma AbsorbSecond(p: Octets)
    ensures Inv(One(p)) && Absorb(One(p), 1) == AckedResult(NONE_LEFT, Some(Delivered(0, false)))
  {
    OneInv(p);
    hide WindowInv, LinkInv;
    var tx := One(p);
    assert BumpOlder(tx, 1) == tx by { assert BumpOlder(tx, 1).unacked == tx.unacked; }
    assert SwapRemove([1], 1) == [];
    assert tx.unacked - {1} == map[];
  }

  /** The Ack of the second one. */
  lemma SecondAck(p: Octets)
    ensures Inv(One(p)) && ProcessAcks(One(p), OPTIONS, [1]) == AckResult(NONE_LEFT, [], [Delivered(0, false)], true)
  {
    var tx := One(p);
    assert 1 in tx.unacked && LostKeys(tx, 1, 3) == {};
    assert Inv(NONE_LEFT);
    AbsorbSecond(p);
    hide Inv, Absorb, One, NONE_LEFT;
    assert ProcessAck(tx, OPTIONS, 1) == AckResult(NONE_LEFT, [], [Delivered(0, false)], true);
    assert ProcessAcks(NONE_LEFT, OPTIONS, []) == AckResult(NONE_LEFT, [], [], true);
    assert [1][1..] == [];
  }

  /** An IDLE packet with one Ack. */
  function Idle(t: Sequence): LpPacket {
    EMPTY_PACKET.(acks := [t])
  }

  /** The sender receives an IDLE packet. */
  lemma AckStep(p: Octets, tx: TxState, past: Past, received: seq<LpPacket>, t: Sequence, now: int, q: AckResult)
    requires Inv(tx) && q == ProcessAcks(tx, OPTIONS, [t]) && q.ok && q.resent == []
    ensures Step(LINK.peer, Sender(p, tx, past, received), Receive(Idle(t), now, RTO),
                 Sender(p, q.tx, Record(past, [], q.outcomes), received + [Idle(t)]))
  {
    hide Inv, ProcessAcks, Record;
    assert Packets([]) == [];
  }

  // ---- the receiver ----

  ghost function Hearer(acks: AckState, recent: Recent, received: seq<LpPacket>): Endpoint {
    Endpoint(Peer(INITIAL, acks, recent), NO_PAST, received)
  }

  lemma HearStep(acks: AckState, recent: Recent, received: seq<LpPacket>, pkt: LpPacket, now: int)
    requires IsFragment(pkt) && pkt.sequence.Some? && pkt.acks == []
    ensures Inv(INITIAL)
    ensures ProcessIncoming(Hearer(acks, recent, received).peer, OPTIONS, MTU, pkt, now, RTO).isNew <==>
            !IsDuplicate(recent, pkt.sequence.value)
    ensures Step(LINK.peer, Hearer(acks, recent, received), Receive(pkt, now, RTO),
                 Hearer(Enqueue(acks, pkt.txSequence.value), Remember(recent, pkt.sequence.value, now, RTO),
                        received + [pkt]))
  {
    hide Remember;
    assert Packets([]) == [] && Record(NO_PAST, [], []) == NO_PAST;
  }

  lemma IdleStep(t: Sequence, offered: seq<LpPacket>, recent: Recent, received: seq<LpPacket>)
    ensures Step(LINK.peer, Hearer(AckState([t], true, offered), recent, received), IdleExpires,
                 Hearer(AckState([], false, offered + [Idle(t)]), recent, received))
  {
    var a := AckState([t], false, offered);
    assert WireSize(EMPTY_PACKET) == 2;
    assert AttachCount(1, EMPTY_PACKET, MTU) == 1;
    assert [t][1..] == [] && [t][..1] == [t] && EMPTY_PACKET.acks + [t] == [t];
    var a' := AckState([], false, offered + [Idle(t)]);
    assert SendLpPacket(a, EMPTY_PACKET, MTU) == a';
    assert Flush(a', MTU) == a';
    assert Flush(a, MTU) == a';
    assert Inv(INITIAL);
  }

  const KEY := A.Key(0, MODULUS - 1)

  /** What the reassembler holds of one fragment. */
  function Held(i: nat, pkt: LpPacket): A.PartialPacket
    requires i < 2
  {
    A.Store(A.NewPartial(2), i, pkt).(dropTimer := true)
  }

  /** The first fragment to arrive is stored, whichever it is. */
  lemma FirstIsHeld(p: Octets)
    ensures A.Receive(map[], 400, Sent0(p), 0) == A.ReceiveResult(map[KEY := Held(0, Sent0(p))], None)
    ensures A.Receive(map[], 400, Sent1(p), 0) == A.ReceiveResult(map[KEY := Held(1, Sent1(p))], None)
  {
    assert Minus(MODULUS - 1, 0) == MODULUS - 1 && Minus(0, 1) == MODULUS - 1;
  }

  lemma Remembered()
    ensures Remember(Recent(map[], []), MODULUS - 1, EARLY, RTO) == Recent(map[MODULUS - 1 := EARLY], [MODULUS - 1])
    ensures !IsDuplicate(Recent(map[MODULUS - 1 := EARLY], [MODULUS - 1]), 0)
  {
    assert [] + [MODULUS - 1] == [MODULUS - 1];
  }

  // ---- the run ----

  ghost function NodeA(p: Octets, end: Endpoint): Node {
    Node(end, 0, [OutgoingOf(LINK, NEW_NODE, Net(p))], [], map[], [])
  }

  ghost function NodeB(end: Endpoint, inputs: seq<Input>, partials: A.Partials): Node {
    Node(end, FIRST, [], inputs, partials, [])
  }

  // The numbers are those of the states below.

  ghost function A1(p: Octets): Node {
    NodeA(p, Sender(p, Both(p), SenderPast(p), []))
  }

  ghost function A4(p: Octets): Node {
    NodeA(p, Sender(p, One(p), SenderPast(p), [Idle(0)]))
  }

  ghost function A8(p: Octets): Node {
    NodeA(p, Sender(p, NONE_LEFT, SenderPast(p).(delivered := {0}), [Idle(0), Idle(1)]))
  }

  const RECENT := Recent(map[MODULUS - 1 := EARLY], [MODULUS - 1])

  ghost function B2(p: Octets): Node {
    NodeB(Hearer(AckState([0], true, []), RECENT, [Sent0(p)]), [Fed(Sent0(p))], map[KEY := Held(0, Sent0(p))])
  }

  ghost function B3(p: Octets): Node {
    B2(p).(end := Hearer(AckState([], false, [Idle(0)]), RECENT, [Sent0(p)]))
  }

  ghost function B5(p: Octets): Node {
    B3(p).(inputs := [Fed(Sent0(p)), Expired(KEY)], partials := map[])
  }

  ghost function Recent6(): Recent {
    Remember(RECENT, 0, LATE, RTO)
  }

  ghost function B6(p: Octets): Node {
    NodeB(Hearer(AckState([1], true, [Idle(0)]), Recent6(), [Sent0(p), Sent1(p)]),
          [Fed(Sent0(p)), Expired(KEY), Fed(Sent1(p))], map[KEY := Held(1, Sent1(p))])
  }

  ghost function B7(p: Octets): Node {
    B6(p).(end := Hearer(AckState([], false, [Idle(0), Idle(1)]), Recent6(), [Sent0(p), Sent1(p)]))
  }

  /** A receives an IDLE packet: nothing goes to its reassembler. */
  lemma AStep(p: Octets, end: Endpoint, t: Sequence, now: int, end': Endpoint)
    requires Step(LINK.peer, end, Receive(Idle(t), now, RTO), end')
    ensures NodeStep(LINK, NodeA(p, end), Below(Receive(Idle(t), now, RTO)), NodeA(p, end'))
  {
    hide Step, OutgoingOf, Inv;
  }

  lemma BReceives(end: Endpoint, inputs: seq<Input>, pkt: LpPacket, now: int, end': Endpoint, partials: A.Partials)
    requires Step(LINK.peer, end, Receive(pkt, now, RTO), end') && Inv(end.peer.tx) && pkt.fragment.Some?
    requires ProcessIncoming(end.peer, OPTIONS, MTU, pkt, now, RTO).isNew
    requires A.Receive(map[], 400, pkt, 0) == A.ReceiveResult(partials, None)
    ensures NodeStep(LINK, NodeB(end, inputs, map[]), Below(Receive(pkt, now, RTO)),
                     NodeB(end', inputs + [Fed(pkt)], partials))
  {
    hide Step, Inv, ProcessIncoming, A.Receive;
  }

  lemma SendsBoth(p: Octets)
    ensures CanSend(LINK, Net(p))
    ensures NodeStep(LINK, NEW_NODE, SendNet(Net(p), false), A1(p))
  {
    Fragmented(p);
    SendStep(p);
    hide Step, FragsOf, OutgoingOf, CanSend;
    assert Plus(FIRST, 2) == 0;
    assert [] + [OutgoingOf(LINK, NEW_NODE, Net(p))] == [OutgoingOf(LINK, NEW_NODE, Net(p))];
  }

  /** The first fragment arrives and is acknowledged. */
  lemma FirstArrives(p: Octets)
    ensures NodeStep(LINK, NEW_NODE, Below(Receive(Sent0(p), EARLY, RTO)), B2(p))
    ensures NodeStep(LINK, B2(p), Below(IdleExpires), B3(p))
  {
    hide Step, ProcessIncoming, A.Receive, Inv, Remember, Held;
    Remembered();
    FirstIsHeld(p);
    HearStep(AckState([], false, []), Recent(map[], []), [], Sent0(p), EARLY);
    IdleStep(0, [], RECENT, [Sent0(p)]);
    assert [] + [0] == [0] && [] + [Sent0(p)] == [Sent0(p)] && [] + [Fed(Sent0(p))] == [Fed(Sent0(p))];
    assert [] + [Idle(0)] == [Idle(0)];
    BReceives(NEW_ENDPOINT, [], Sent0(p), EARLY, B2(p).end, map[KEY := Held(0, Sent0(p))]);
  }

  /** The drop timer of the first fragment expires. */
  lemma FirstIsDropped(p: Octets)
    ensures NodeStep(LINK, B3(p), DropTimer(KEY), B5(p))
  {
    assert [Fed(Sent0(p))] + [Expired(KEY)] == [Fed(Sent0(p)), Expired(KEY)];
    assert map[KEY := Held(0, Sent0(p))] - {KEY} == map[];
  }

  /** The second fragment arrives and is acknowledged. */
  lemma SecondArrives(p: Octets)
    ensures NodeStep(LINK, B5(p), Below(Receive(Sent1(p), LATE, RTO)), B6(p))
    ensures NodeStep(LINK, B6(p), Below(IdleExpires), B7(p))
  {
    hide Step, ProcessIncoming, A.Receive, Inv, Remember, Held;
    Remembered();
    FirstIsHeld(p);
    HearStep(AckState([], false, [Idle(0)]), RECENT, [Sent0(p)], Sent1(p), LATE);
    IdleStep(1, [Idle(0)], Recent6(), [Sent0(p), Sent1(p)]);
    assert [] + [1] == [1] && [Sent0(p)] + [Sent1(p)] == [Sent0(p), Sent1(p)];
    assert [Fed(Sent0(p)), Expired(KEY)] + [Fed(Sent1(p))] == [Fed(Sent0(p)), Expired(KEY), Fed(Sent1(p))];
    assert [Idle(0)] + [Idle(1)] == [Idle(0), Idle(1)];
    BReceives(B5(p).end, [Fed(Sent0(p)), Expired(KEY)], Sent1(p), LATE, B6(p).end, map[KEY := Held(1, Sent1(p))]);
  }

  lemma Recorded(p: Octets)
    ensures var past := SenderPast(p);
            Record(past, [], []) == past && Record(past, [], [Delivered(0, false)]) == past.(delivered := {0})
  {
    assert DeliveredIds([Delivered(0, false)]) == {0} by { assert Delivered(0, false) in [Delivered(0, false)]; }
    assert SenderPast(p).log + [] == SenderPast(p).log;
  }

  lemma FirstAckArrives(p: Octets)
    ensures NodeStep(LINK, A1(p), Below(Receive(Idle(0), EARLY, RTO)), A4(p))
  {
    hide Inv, ProcessAcks, Step, Record, NodeStep, Sender, Both, One, SenderPast;
    FirstAck(p);
    Recorded(p);
    assert [] + [Idle(0)] == [Idle(0)];
    AckStep(p, Both(p), SenderPast(p), [], 0, EARLY, ProcessAcks(Both(p), OPTIONS, [0]));
    AStep(p, Sender(p, Both(p), SenderPast(p), []), 0, EARLY, Sender(p, One(p), SenderPast(p), [Idle(0)]));
  }

  lemma SecondAckArrives(p: Octets)
    ensures NodeStep(LINK, A4(p), Below(Receive(Idle(1), LATE, RTO)), A8(p))
  {
    hide Inv, ProcessAcks, Step, Record, NodeStep, Sender, One, SenderPast, NONE_LEFT;
    SecondAck(p);
    Recorded(p);
    assert [Idle(0)] + [Idle(1)] == [Idle(0), Idle(1)];
    AckStep(p, One(p), SenderPast(p), [Idle(0)], 1, LATE, ProcessAcks(One(p), OPTIONS, [1]));
    AStep(p, Sender(p, One(p), SenderPast(p), [Idle(0)]), 1, LATE,
          Sender(p, NONE_LEFT, SenderPast(p).(delivered := {0}), [Idle(0), Idle(1)]));
  }

  ghost predicate MayReceive(from: Node, ev: LinkEvent) {
    ev.Below? && ev.ev.Receive? ==> ev.ev.pkt in from.end.peer.acks.offered
  }

  lemma AMoves(a: Node, b: Node, ev: LinkEvent, a': Node)
    requires NodeStep(LINK, a, ev, a') && MayReceive(b, ev)
    ensures LinkMoves(LINK, LINK, Link(a, b), true, ev, Link(a', b))
  {
    hide NodeStep;
    if ev.Below? && ev.ev.Receive? {
      assert ev.ev.pkt == ev.ev.pkt.(congestionMark := ev.ev.pkt.congestionMark);
    }
  }

  lemma BMoves(a: Node, b: Node, ev: LinkEvent, b': Node)
    requires NodeStep(LINK, b, ev, b') && MayReceive(a, ev)
    ensures LinkMoves(LINK, LINK, Link(a, b), false, ev, Link(a, b'))
  {
    hide NodeStep;
    if ev.Below? && ev.ev.Receive? {
      assert ev.ev.pkt == ev.ev.pkt.(congestionMark := ev.ev.pkt.congestionMark);
    }
  }

  ghost function States(p: Octets): seq<Link> {
    [NEW_LINK, Link(A1(p), NEW_NODE), Link(A1(p), B2(p)), Link(A1(p), B3(p)), Link(A4(p), B3(p)),
     Link(A4(p), B5(p)), Link(A4(p), B6(p)), Link(A4(p), B7(p)), Link(A8(p), B7(p))]
  }

  ghost function Events(p: Octets): seq<(bool, LinkEvent)> {
    [(true, SendNet(Net(p), false)), (false, Below(Receive(Sent0(p), EARLY, RTO))), (false, Below(IdleExpires)),
     (true, Below(Receive(Idle(0), EARLY, RTO))), (false, DropTimer(KEY)),
     (false, Below(Receive(Sent1(p), LATE, RTO))), (false, Below(IdleExpires)),
     (true, Below(Receive(Idle(1), LATE, RTO)))]
  }

  lemma Offers(p: Octets)
    ensures Sent0(p) in A1(p).end.peer.acks.offered && Sent1(p) in A4(p).end.peer.acks.offered
    ensures Idle(0) in B3(p).end.peer.acks.offered && Idle(1) in B7(p).end.peer.acks.offered
  {}

  lemma IsARun(p: Octets)
    ensures IsLinkRun(LINK, LINK, States(p), Events(p))
  {
    hide NodeStep, LinkMoves, A1, A4, A8, B2, B3, B5, B6, B7, Net, Sent0, Sent1, Idle;
    Offers(p);
    SendsBoth(p);
    AMoves(NEW_NODE, NEW_NODE, SendNet(Net(p), false), A1(p));
    FirstArrives(p);
    BMoves(A1(p), NEW_NODE, Below(Receive(Sent0(p), EARLY, RTO)), B2(p));
    BMoves(A1(p), B2(p), Below(IdleExpires), B3(p));
    FirstAckArrives(p);
    AMoves(A1(p), B3(p), Below(Receive(Idle(0), EARLY, RTO)), A4(p));
    FirstIsDropped(p);
    BMoves(A4(p), B3(p), DropTimer(KEY), B5(p));
    SecondArrives(p);
    BMoves(A4(p), B5(p), Below(Receive(Sent1(p), LATE, RTO)), B6(p));
    BMoves(A4(p), B6(p), Below(IdleExpires), B7(p));
    SecondAckArrives(p);
    AMoves(A4(p), B7(p), Below(Receive(Idle(1), LATE, RTO)), A8(p));
  }

  /** From a new link, for every packet of 100 octets: the first fragment arrives and is acknowledged, its drop
      timer expires, the second arrives and is acknowledged. The sender counts the packet in nAcknowledged; the
      receiver has delivered nothing. */
  lemma CountedAndNotDelivered(p: Octets)
    ensures Compatible(LINK, LINK) && IsLinkRun(LINK, LINK, States(p), Events(p))
    ensures var last := States(p)[8];
            && last.a.outs == [OutgoingOf(LINK, NEW_NODE, Net(p))] && 0 in last.a.end.past.delivered
            && last.a.end.peer.tx.nAcknowledged == 1
            && last.b.delivered == [] && !GotThrough(last.b.inputs, last.a.outs[0])
  {
    hide IsLinkRun, GotThrough, OutgoingOf, Explains;
    IsARun(p);
    DeliveredIffGotThrough(LINK, LINK, States(p), Events(p), 8, true, 0);
  }
}
