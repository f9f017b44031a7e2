/** How often each fragment is transmitted. */
module Transmissions {
  import opened Sequence64
  import opened LpPackets
  import opened SendWindow
  import opened SendWindowLaws
  import opened AckProcessing
  import opened Accounting
  import opened Ledger

  /** How many entries of the log transmit the fragment of packet `id` with this Sequence. */
  ghost function Times(log: seq<Sent>, id: nat, s: Option<Sequence>): nat {
    if log == [] then 0
    else
      var last := log[|log| - 1];
      Times(log[..|log| - 1], id, s) + (if last.id == id && last.pkt.sequence == s then 1 else 0)
  }

  lemma TimesSnoc(log: seq<Sent>, e: Sent, id: nat, s: Option<Sequence>)
    ensures Times(log + [e], id, s) == Times(log, id, s) + (if e.id == id && e.pkt.sequence == s then 1 else 0)
  {
    assert (log + [e])[..|log|] == log;
  }

  ghost predicate SameFragment(f: UnackedFrag, g: UnackedFrag) {
    f.netPkt == g.netPkt && f.pkt.sequence == g.pkt.sequence
  }

  /** The retransmission count of an outstanding fragment is the number of its transmissions so far,
      less one; no two outstanding entries are the same fragment; nothing is sent too often. */
  ghost predicate Counted(tx: TxState, log: seq<Sent>, maxRetx: nat) {
    && (forall k | k in tx.unacked ::
          Times(log, tx.unacked[k].netPkt, tx.unacked[k].pkt.sequence) == tx.unacked[k].retxCount + 1)
    && (forall j, k | j in tx.unacked && k in tx.unacked && j != k ::
          !SameFragment(tx.unacked[j], tx.unacked[k]))
    && (forall id: nat, s :: Times(log, id, s) <= maxRetx + 1)
    && (forall id: nat, s :: id >= tx.nNetPkts ==> Times(log, id, s) == 0)
  }

  lemma CountedShrink(tx: TxState, r: TxState, log: seq<Sent>, maxRetx: nat)
    requires Counted(tx, log, maxRetx) && r.nNetPkts >= tx.nNetPkts
    requires forall k | k in r.unacked :: k in tx.unacked
               && SameFragment(r.unacked[k], tx.unacked[k]) && r.unacked[k].retxCount == tx.unacked[k].retxCount
    ensures Counted(r, log, maxRetx)
  {
    forall j, k | j in r.unacked && k in r.unacked && j != k
      ensures !SameFragment(r.unacked[j], r.unacked[k])
    {
      assert !SameFragment(tx.unacked[j], tx.unacked[k]);
    }
  }

  lemma CountedGrow(tx: TxState, r: TxState, log: seq<Sent>, maxRetx: nat, n: Sequence, f: UnackedFrag)
    requires Counted(tx, log, maxRetx) && r.nNetPkts == tx.nNetPkts && f.netPkt < tx.nNetPkts
    requires forall k | k in r.unacked && k != n :: k in tx.unacked && r.unacked[k] == tx.unacked[k]
               && !SameFragment(r.unacked[k], f)
    requires n in r.unacked && r.unacked[n] == f
    requires f.retxCount == Times(log, f.netPkt, f.pkt.sequence) <= maxRetx
    ensures Counted(r, log + [Sent(f.netPkt, f.pkt)], maxRetx)
  {
    var e := Sent(f.netPkt, f.pkt);
    forall id: nat, s ensures Times(log + [e], id, s)
        == Times(log, id, s) + (if e.id == id && e.pkt.sequence == s then 1 else 0)
    {
      TimesSnoc(log, e, id, s);
    }
    forall j, k | j in r.unacked && k in r.unacked && j != k
      ensures !SameFragment(r.unacked[j], r.unacked[k])
    {
      if j != n && k != n { assert !SameFragment(tx.unacked[j], tx.unacked[k]); }
    }
  }

  // ---- sending ----

  /** The fragments of one packet have distinct Sequence numbers. */
  ghost predicate DistinctSequences(frags: seq<LpPacket>) {
    forall i, j | 0 <= i < j < |frags| :: frags[i].sequence != frags[j].sequence
  }

  lemma SendOneCounted(tx: TxState, id: nat, frag: LpPacket, log: seq<Sent>, maxRetx: nat)
    requires Inv(tx) && !RangeExceeded(tx) && id in tx.netPkts && id < tx.nNetPkts
    requires Counted(tx, log, maxRetx) && Times(log, id, frag.sequence) == 0
    ensures Counted(SendOne(tx, id, frag), log + [Sent(id, SetTxSequence(frag, Next(tx.lastTxSeqNo)))], maxRetx)
  {
    var n := Next(tx.lastTxSeqNo);
    ThrowsIffOutstanding(tx);
    CountedGrow(tx, SendOne(tx, id, frag), log, maxRetx, n, NewFrag(SetTxSequence(frag, n), id));
  }

  lemma {:induction false} SendFragsCounted(tx: TxState, id: nat, frags: seq<LpPacket>, log: seq<Sent>,
                                            maxRetx: nat, r: SendResult)
    requires Inv(tx) && id in tx.netPkts && id < tx.nNetPkts && ListSound(tx, id) && Counted(tx, log, maxRetx)
    requires r == SendFrags(tx, id, frags) && r.ok
    requires DistinctSequences(frags) && forall f | f in frags :: Times(log, id, f.sequence) == 0
    ensures Counted(r.tx, log + SentAll(id, r.frags), maxRetx)
    decreases |frags|
  {
    hide WindowInv, LinkInv, Counted, Times;
    if frags == [] {
      assert log + SentAll(id, r.frags) == log;
    } else {
      SendOneKeepsInv(tx, id, frags[0]);
      SendOneCounted(tx, id, frags[0], log, maxRetx);
      var tx1 := SendOne(tx, id, frags[0]);
      var first := Sent(id, SetTxSequence(frags[0], Next(tx.lastTxSeqNo)));
      var r1 := SendFrags(tx1, id, frags[1..]);
      forall f | f in frags[1..] ensures Times(log + [first], id, f.sequence) == 0 {
        var j :| 0 <= j < |frags[1..]| && frags[1..][j] == f;
        assert frags[j + 1].sequence != frags[0].sequence;
        TimesSnoc(log, first, id, f.sequence);
      }
      SendFragsCounted(tx1, id, frags[1..], log + [first], maxRetx, r1);
      assert r.frags[1..] == r1.frags;
      assert log + SentAll(id, r.frags) == (log + [first]) + SentAll(id, r1.frags);
    }
  }

  lemma HandleOutgoingCounted(tx: TxState, frags: seq<LpPacket>, isInterest: bool, log: seq<Sent>, maxRetx: nat)
    requires Inv(tx) && Counted(tx, log, maxRetx) && DistinctSequences(frags)
    requires HandleOutgoing(tx, frags, isInterest).ok
    ensures Counted(HandleOutgoing(tx, frags, isInterest).tx,
                    log + SentAll(tx.nNetPkts, HandleOutgoing(tx, frags, isInterest).frags), maxRetx)
  {
    var tx0 := Allocate(tx, isInterest);
    AllocateKeepsInv(tx, isInterest);
    CountedShrink(tx, tx0, log, maxRetx);
    SendFragsCounted(tx0, tx.nNetPkts, frags, log, maxRetx, HandleOutgoing(tx, frags, isInterest));
  }

  // ---- Acks and losses ----

  lemma AbsorbCounted(tx: TxState, opt: Options, ack: Sequence, log: seq<Sent>)
    requires Inv(tx) && ack in tx.unacked && Counted(tx, log, opt.maxRetx)
    ensures Counted(Absorb(tx, ack).tx, log, opt.maxRetx)
  {
    AbsorbShape(tx, ack);
    CountedShrink(tx, Absorb(tx, ack).tx, log, opt.maxRetx);
  }

  lemma LostCounted(tx: TxState, opt: Options, k: Sequence, log: seq<Sent>)
    requires Inv(tx) && k in tx.unacked && Linked(tx, k) && Counted(tx, log, opt.maxRetx)
    requires Lost(tx, opt, k).ok
    ensures Counted(Lost(tx, opt, k).tx, log + Lost(tx, opt, k).resent, opt.maxRetx)
  {
    var r := Lost(tx, opt, k);
    if tx.unacked[k].retxCount >= opt.maxRetx {
      GiveUpRemoves(tx, k);
      CountedShrink(tx, r.tx, log, opt.maxRetx);
      assert log + r.resent == log;
    } else {
      RetransmitWindow(tx, k);
      forall j | j in tx.unacked && j != k ensures !SameFragment(tx.unacked[j], Resent(tx, k)) {
        assert !SameFragment(tx.unacked[j], tx.unacked[k]);
      }
      CountedGrow(tx, r.tx, log, opt.maxRetx, Next(tx.lastTxSeqNo), Resent(tx, k));
    }
  }

  /** The log explains the window: numbering, order of transmission and counts. */
  ghost predicate Traced(tx: TxState, log: seq<Sent>, maxRetx: nat) {
    MatchesLog(tx, log) && Counted(tx, log, maxRetx)
  }

  lemma LostLogged(tx: TxState, opt: Options, k: Sequence, log: seq<Sent>)
    requires Inv(tx) && k in tx.unacked && Linked(tx, k) && MatchesLog(tx, log)
    requires Lost(tx, opt, k).ok
    ensures MatchesLog(Lost(tx, opt, k).tx, log + Lost(tx, opt, k).resent)
  {
    var r := Lost(tx, opt, k);
    if tx.unacked[k].retxCount >= opt.maxRetx {
      GiveUpRemoves(tx, k);
      MatchesLogShrink(tx, r.tx, log);
      assert log + r.resent == log;
    } else {
      RetransmitWindow(tx, k);
      MatchesLogGrow(tx, r.tx, log, Resent(tx, k));
    }
  }

  lemma {:induction false} LoseAllTraced(tx: TxState, opt: Options, lost: seq<Sequence>, removed: set<Sequence>,
                                          log: seq<Sent>, q: AckResult)
    requires Inv(tx) && Accounted(tx, lost, removed) && Traced(tx, log, opt.maxRetx)
    requires q == LoseAll(tx, opt, lost, removed) && q.ok
    ensures Traced(q.tx, log + q.resent, opt.maxRetx)
    decreases |lost|
  {
    hide Counted, MatchesLog, Lost, WindowInv;
    if lost == [] {
      assert log + [] == log;
    } else if lost[0] in removed {
      LoseAllTraced(tx, opt, lost[1..], removed, log, q);
    } else {
      assert Linked(tx, lost[0]);
      var r := Lost(tx, opt, lost[0]);
      LostKeepsInv(tx, opt, lost[0]);
      LostCounted(tx, opt, lost[0], log);
      LostLogged(tx, opt, lost[0], log);
      var q1 := LoseAll(r.tx, opt, lost[1..], removed + Elements(r.removed));
      LoseAllTraced(r.tx, opt, lost[1..], removed + Elements(r.removed), log + r.resent, q1);
      assert log + q.resent == (log + r.resent) + q1.resent;
    }
  }

  lemma ProcessAckTraced(tx: TxState, opt: Options, ack: Sequence, log: seq<Sent>)
    requires Inv(tx) && Traced(tx, log, opt.maxRetx) && ProcessAck(tx, opt, ack).ok
    ensures Traced(ProcessAck(tx, opt, ack).tx, log + ProcessAck(tx, opt, ack).resent, opt.maxRetx)
  {
    if ack !in tx.unacked {
      assert log + [] == log;
    } else {
      AbsorbKeepsInv(tx, opt, ack);
      AbsorbShape(tx, ack);
      AbsorbCounted(tx, opt, ack, log);
      MatchesLogShrink(tx, Absorb(tx, ack).tx, log);
      var lost := FindLost(tx, ack, opt.seqNumLossThreshold);
      var q := LoseAll(Absorb(tx, ack).tx, opt, lost, {});
      LoseAllTraced(Absorb(tx, ack).tx, opt, lost, {}, log, q);
    }
  }

  lemma HandleOutgoingTraced(tx: TxState, frags: seq<LpPacket>, isInterest: bool, log: seq<Sent>, maxRetx: nat)
    requires Inv(tx) && Traced(tx, log, maxRetx) && DistinctSequences(frags)
    requires HandleOutgoing(tx, frags, isInterest).ok
    ensures Traced(HandleOutgoing(tx, frags, isInterest).tx,
                   log + SentAll(tx.nNetPkts, HandleOutgoing(tx, frags, isInterest).frags), maxRetx)
  {
    var tx0 := Allocate(tx, isInterest);
    AllocateKeepsInv(tx, isInterest);
    MatchesLogShrink(tx, tx0, log);
    SendFragsLogged(tx0, tx.nNetPkts, frags, log, HandleOutgoing(tx, frags, isInterest));
    HandleOutgoingCounted(tx, frags, isInterest, log, maxRetx);
  }
}
