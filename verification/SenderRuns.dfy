/** Whole runs of a sender against an arbitrary peer: packets to send, Acks of any kind in any order,
    and expiring retransmission timers. */
module SenderRuns {
  import opened Sequence64
  import opened LpPackets
  import opened SendWindow
  import opened SendWindowLaws
  import opened AckProcessing
  import opened Accounting
  import opened Ledger
  import opened Transmissions

  datatype Event =
    | SendPacket(frags: seq<LpPacket>, isInterest: bool)
    | ReceiveAcks(acks: seq<Sequence>)
    | RtoExpires(txSeq: Sequence)

  datatype Sender = Sender(tx: TxState, log: seq<Sent>)

  /** A packet has at least one fragment and its fragments are numbered apart; a timer that expires
      belongs to an outstanding fragment, since it is destroyed together with it. */
  ghost predicate Enabled(tx: TxState, e: Event) {
    match e
    case SendPacket(frags, _) => frags != [] && DistinctSequences(frags)
    case ReceiveAcks(_) => true
    case RtoExpires(k) => k in tx.unacked && tx.unacked[k].rtoTimer
  }

  /** One event that ends without an exception. The invariant, which every reachable state has (see
      RunsAreGood), is what makes the operations defined. */
  ghost predicate Moves(opt: Options, a: Sender, e: Event, b: Sender) {
    && Inv(a.tx) && Enabled(a.tx, e)
    && match e
       case SendPacket(frags, isInterest) =>
         var r := HandleOutgoing(a.tx, frags, isInterest);
         r.ok && b == Sender(r.tx, a.log + SentAll(a.tx.nNetPkts, r.frags))
       case ReceiveAcks(acks) =>
         var r := ProcessAcks(a.tx, opt, acks);
         r.ok && b == Sender(r.tx, a.log + r.resent)
       case RtoExpires(k) =>
         assert Linked(a.tx, k);
         var r := Lost(a.tx, opt, k);
         r.ok && b == Sender(r.tx, a.log + r.resent)
  }

  ghost predicate IsRun(opt: Options, states: seq<Sender>, events: seq<Event>) {
    && |states| == |events| + 1
    && states[0] == Sender(INITIAL, [])
    && forall i | 0 <= i < |events| :: Moves(opt, states[i], events[i], states[i + 1])
  }

  /** Window, lists, conservation, retransmission bound, loss counts, and agreement with the log. */
  ghost predicate Good(opt: Options, s: Sender) {
    && Sound(s.tx, opt)
    && Traced(s.tx, s.log, opt.maxRetx)
    && (opt.seqNumLossThreshold >= 1 ==> BelowThreshold(s.tx, opt.seqNumLossThreshold))
  }

  lemma InitialGood(opt: Options)
    ensures Good(opt, Sender(INITIAL, []))
  {
    assert Live(INITIAL) == {};
  }

  lemma {:induction false} SendFragsBelow(tx: TxState, id: nat, frags: seq<LpPacket>, threshold: nat)
    requires id in tx.netPkts && BelowThreshold(tx, threshold) && threshold >= 1
    ensures SendFrags(tx, id, frags).ok ==> BelowThreshold(SendFrags(tx, id, frags).tx, threshold)
    decreases |frags|
  {
    if frags != [] && !RangeExceeded(tx) {
      SendFragsBelow(SendOne(tx, id, frags[0]), id, frags[1..], threshold);
    }
  }

  lemma {:induction false} ProcessAcksGood(opt: Options, tx: TxState, log: seq<Sent>, acks: seq<Sequence>, q: AckResult)
    requires Good(opt, Sender(tx, log))
    requires q == ProcessAcks(tx, opt, acks) && q.ok
    ensures Good(opt, Sender(q.tx, log + q.resent))
    ensures Budget(q.tx.unacked, opt.maxRetx) <= Budget(tx.unacked, opt.maxRetx)
    ensures (exists t :: t in acks && t in tx.unacked) ==>
              Budget(q.tx.unacked, opt.maxRetx) < Budget(tx.unacked, opt.maxRetx)
    decreases |acks|
  {
    hide Traced, Conserved, RetxBounded, WindowInv, LinkInv, BelowThreshold, ProcessAck, Budget;
    if acks == [] {
      assert log + [] == log;
    } else {
      var r := ProcessAck(tx, opt, acks[0]);
      ProcessAckSound(tx, opt, acks[0]);
      ProcessAckTraced(tx, opt, acks[0], log);
      if opt.seqNumLossThreshold >= 1 { ProcessAckBelow(tx, opt, acks[0]); }
      var q1 := ProcessAcks(r.tx, opt, acks[1..]);
      ProcessAcksGood(opt, r.tx, log + r.resent, acks[1..], q1);
      assert log + q.resent == (log + r.resent) + q1.resent;
      if acks[0] !in tx.unacked {
        forall t | t in acks && t in tx.unacked ensures t in acks[1..] {}
      }
    }
  }

  lemma SendGood(opt: Options, a: Sender, frags: seq<LpPacket>, isInterest: bool)
    requires Good(opt, a) && frags != [] && DistinctSequences(frags)
    requires HandleOutgoing(a.tx, frags, isInterest).ok
    ensures var r := HandleOutgoing(a.tx, frags, isInterest);
            Good(opt, Sender(r.tx, a.log + SentAll(a.tx.nNetPkts, r.frags)))
  {
    HandleOutgoingSound(a.tx, opt, frags, isInterest);
    HandleOutgoingTraced(a.tx, frags, isInterest, a.log, opt.maxRetx);
    if opt.seqNumLossThreshold >= 1 {
      SendFragsBelow(Allocate(a.tx, isInterest), a.tx.nNetPkts, frags, opt.seqNumLossThreshold);
    }
  }

  lemma RtoGood(opt: Options, a: Sender, k: Sequence)
    requires Good(opt, a) && k in a.tx.unacked && Linked(a.tx, k) && Lost(a.tx, opt, k).ok
    ensures Good(opt, Sender(Lost(a.tx, opt, k).tx, a.log + Lost(a.tx, opt, k).resent))
    ensures Budget(Lost(a.tx, opt, k).tx.unacked, opt.maxRetx) < Budget(a.tx.unacked, opt.maxRetx)
  {
    LostSound(a.tx, opt, k);
    LostSpends(a.tx, opt, k);
    LostLogged(a.tx, opt, k, a.log);
    LostCounted(a.tx, opt, k, a.log);
    if opt.seqNumLossThreshold >= 1 { LostBelow(a.tx, opt, [k]); }
  }

  lemma MovesKeepsGood(opt: Options, a: Sender, e: Event, b: Sender)
    requires Good(opt, a) && Moves(opt, a, e, b)
    ensures Good(opt, b)
  {
    match e
    case SendPacket(frags, isInterest) => SendGood(opt, a, frags, isInterest);
    case ReceiveAcks(acks) => ProcessAcksGood(opt, a.tx, a.log, acks, ProcessAcks(a.tx, opt, acks));
    case RtoExpires(k) => assert Linked(a.tx, k); RtoGood(opt, a, k);
  }

  /** In every state of every run: the window invariant, exact lists, conservation of packets, counts
      below the loss threshold, and no fragment transmitted more than maxRetx + 1 times. */
  lemma {:induction false} RunsAreGood(opt: Options, states: seq<Sender>, events: seq<Event>, i: nat)
    requires IsRun(opt, states, events) && i < |states|
    ensures Good(opt, states[i])
  {
    hide Good, Moves;
    if i == 0 {
      InitialGood(opt);
    } else {
      RunsAreGood(opt, states, events, i - 1);
      assert Moves(opt, states[i - 1], events[i - 1], states[i]);
      MovesKeepsGood(opt, states[i - 1], events[i - 1], states[i]);
    }
  }

  // ---- draining ----

  /** An expiring timer, or Acks of which at least one is for an outstanding fragment. */
  ghost predicate Effective(tx: TxState, e: Event) {
    match e
    case SendPacket(_, _) => false
    case ReceiveAcks(acks) => exists t :: t in acks && t in tx.unacked
    case RtoExpires(_) => true
  }

  /** Consecutive states of a sender, from any state. */
  ghost predicate IsSegment(opt: Options, states: seq<Sender>, events: seq<Event>) {
    && |states| == |events| + 1
    && forall i | 0 <= i < |events| :: Moves(opt, states[i], events[i], states[i + 1])
  }

  ghost function EffectiveCount(states: seq<Sender>, events: seq<Event>): nat
    requires |states| == |events| + 1
  {
    if events == [] then 0
    else (if Effective(states[0].tx, events[0]) then 1 else 0) + EffectiveCount(states[1..], events[1..])
  }

  lemma EffectiveSpends(opt: Options, a: Sender, e: Event, b: Sender)
    requires Good(opt, a) && Moves(opt, a, e, b) && !e.SendPacket?
    ensures Budget(b.tx.unacked, opt.maxRetx) <= Budget(a.tx.unacked, opt.maxRetx)
    ensures Effective(a.tx, e) ==> Budget(b.tx.unacked, opt.maxRetx) < Budget(a.tx.unacked, opt.maxRetx)
  {
    match e
    case ReceiveAcks(acks) => ProcessAcksGood(opt, a.tx, a.log, acks, ProcessAcks(a.tx, opt, acks));
    case RtoExpires(k) => assert Linked(a.tx, k); RtoGood(opt, a, k);
  }

  /** Without new packets, Acks that match nothing included: every timer that expires and every packet
      with a matching Ack uses up the budget, so there are at most that many of them, and as soon as
      there have been that many the window is empty. */
  lemma {:induction false} DrainsWithinBudget(opt: Options, states: seq<Sender>, events: seq<Event>)
    requires IsSegment(opt, states, events) && Good(opt, states[0]) && forall e | e in events :: !e.SendPacket?
    ensures var first, last := states[0].tx, states[|events|].tx;
            && EffectiveCount(states, events) + Budget(last.unacked, opt.maxRetx) <= Budget(first.unacked, opt.maxRetx)
            && (EffectiveCount(states, events) == Budget(first.unacked, opt.maxRetx) ==> last.unacked == map[])
    ensures Good(opt, states[|events|])
    decreases |events|
  {
    hide Good, Moves, Effective, Budget;
    if events == [] {
      EmptyBudget(opt, states[0]);
    } else {
      assert Moves(opt, states[0], events[0], states[1]);
      assert events[0] in events;
      MovesKeepsGood(opt, states[0], events[0], states[1]);
      EffectiveSpends(opt, states[0], events[0], states[1]);
      forall i | 0 <= i < |events[1..]| ensures Moves(opt, states[1..][i], events[1..][i], states[1..][i + 1]) {
        assert Moves(opt, states[i + 1], events[i + 1], states[i + 2]);
      }
      DrainsWithinBudget(opt, states[1..], events[1..]);
      EmptyBudget(opt, states[|events|]);
    }
  }

  lemma EmptyBudget(opt: Options, a: Sender)
    requires Good(opt, a)
    ensures Budget(a.tx.unacked, opt.maxRetx) == 0 <==> a.tx.unacked == map[]
  {
    BudgetZero(a.tx, opt.maxRetx);
  }

  /** As long as something is outstanding, a retransmission timer is pending whose expiry is effective;
      it ends without an exception if a number is free. So the events that lead to an empty window
      never run out before it is empty. */
  lemma ProgressIsPossible(opt: Options, a: Sender)
    requires Good(opt, a) && a.tx.unacked != map[]
    ensures exists e :: Enabled(a.tx, e) && Effective(a.tx, e) && e.RtoExpires?
    ensures FreeNumbers(a.tx) > 0 ==> exists e, b :: Effective(a.tx, e) && Moves(opt, a, e, b)
  {
    var k :| k in a.tx.unacked;
    assert Linked(a.tx, k);
    var e := RtoExpires(k);
    assert Enabled(a.tx, e) && Effective(a.tx, e);
    LostKeepsInv(a.tx, opt, k);
    if FreeNumbers(a.tx) > 0 {
      var r := Lost(a.tx, opt, k);
      assert Moves(opt, a, e, Sender(r.tx, a.log + r.resent));
    }
  }
}
