/** Conservation of network packets and the retransmission budget of the send window. */
module Accounting {
  import opened Sequence64
  import opened LpPackets
  import opened SendWindow
  import opened SendWindowLaws
  import opened AckProcessing

  /** Every packet handed to handleOutgoing is delivered, given up, or still outstanding. */
  ghost predicate Conserved(tx: TxState) {
    tx.nNetPkts == tx.nAcknowledged + tx.nRetransmitted + tx.nRetxExhausted + |Live(tx)|
  }

  ghost predicate RetxBounded(tx: TxState, maxRetx: nat) {
    forall k | k in tx.unacked :: tx.unacked[k].retxCount <= maxRetx
  }

  ghost predicate Sound(tx: TxState, opt: Options) {
    Inv(tx) && Conserved(tx) && RetxBounded(tx, opt.maxRetx)
  }

  // ---- conservation, operation by operation ----

  lemma SendFragsFrame(tx: TxState, id: nat, frags: seq<LpPacket>)
    requires id in tx.netPkts
    ensures var r := SendFrags(tx, id, frags).tx;
            && r.nNetPkts == tx.nNetPkts && r.nAcknowledged == tx.nAcknowledged
            && r.nRetransmitted == tx.nRetransmitted && r.nRetxExhausted == tx.nRetxExhausted
    decreases |frags|
  {
    if frags != [] && !RangeExceeded(tx) {
      SendFragsFrame(SendOne(tx, id, frags[0]), id, frags[1..]);
    }
  }

  lemma {:induction false} SendFragsRetxBounded(tx: TxState, id: nat, frags: seq<LpPacket>, maxRetx: nat)
    requires id in tx.netPkts && RetxBounded(tx, maxRetx)
    ensures SendFrags(tx, id, frags).ok ==> RetxBounded(SendFrags(tx, id, frags).tx, maxRetx)
    decreases |frags|
  {
    if frags != [] && !RangeExceeded(tx) {
      SendFragsRetxBounded(SendOne(tx, id, frags[0]), id, frags[1..], maxRetx);
    }
  }

  lemma HandleOutgoingSound(tx: TxState, opt: Options, frags: seq<LpPacket>, isInterest: bool)
    requires Sound(tx, opt) && frags != []
    ensures HandleOutgoing(tx, frags, isInterest).ok ==> Sound(HandleOutgoing(tx, frags, isInterest).tx, opt)
  {
    HandleOutgoingKeepsInv(tx, frags, isInterest);
    SendFragsFrame(Allocate(tx, isInterest), tx.nNetPkts, frags);
    SendFragsRetxBounded(Allocate(tx, isInterest), tx.nNetPkts, frags, opt.maxRetx);
  }

  lemma BumpConserves(tx: TxState, ack: Sequence)
    requires Inv(tx) && Conserved(tx)
    ensures Inv(BumpOlder(tx, ack)) && Conserved(BumpOlder(tx, ack))
  {
    BumpKeepsInv(tx, ack);
  }

  lemma AcknowledgedConserves(tx: TxState, k: Sequence)
    requires Inv(tx) && Conserved(tx) && k in tx.unacked && Linked(tx, k)
    ensures Inv(Acknowledged(tx, k).tx) && Conserved(Acknowledged(tx, k).tx)
  {
    AcknowledgedKeepsInv(tx, k);
    InLive(tx, k);
  }

  lemma AbsorbSound(tx: TxState, opt: Options, ack: Sequence)
    requires Sound(tx, opt) && ack in tx.unacked
    ensures Sound(Absorb(tx, ack).tx, opt)
  {
    BumpConserves(tx, ack);
    assert Linked(BumpOlder(tx, ack), ack);
    AcknowledgedConserves(BumpOlder(tx, ack), ack);
    AbsorbKeepsInv(tx, opt, ack);
  }

  lemma LostSound(tx: TxState, opt: Options, k: Sequence)
    requires Sound(tx, opt) && k in tx.unacked && Linked(tx, k)
    ensures Lost(tx, opt, k).ok ==> Sound(Lost(tx, opt, k).tx, opt)
  {
    LostKeepsInv(tx, opt, k);
    InLive(tx, k);
    if tx.unacked[k].retxCount >= opt.maxRetx {
      GiveUpRemoves(tx, k);
      GiveUpKeepsInv(tx, k);
    } else if !RangeExceeded(tx) {
      RetransmitWindow(tx, k);
      RetransmitKeepsInv(tx, k);
    }
  }

  // ---- the budget: transmissions the outstanding fragments may still cost ----

  ghost function Allowance(f: UnackedFrag, maxRetx: nat): nat {
    if f.retxCount <= maxRetx then maxRetx + 1 - f.retxCount else 0
  }

  ghost function Budget(m: map<Sequence, UnackedFrag>, maxRetx: nat): nat
    decreases |m|
  {
    if m == map[] then 0
    else
      var k :| k in m;
      Allowance(m[k], maxRetx) + Budget(m - {k}, maxRetx)
  }

  lemma {:induction false} BudgetSplit(m: map<Sequence, UnackedFrag>, maxRetx: nat, k: Sequence)
    requires k in m
    ensures Budget(m, maxRetx) == Allowance(m[k], maxRetx) + Budget(m - {k}, maxRetx)
    decreases |m|
  {
    var j :| j in m && Budget(m, maxRetx) == Allowance(m[j], maxRetx) + Budget(m - {j}, maxRetx);
    if j != k {
      BudgetSplit(m - {j}, maxRetx, k);
      BudgetSplit(m - {k}, maxRetx, j);
      assert (m - {j}) - {k} == (m - {k}) - {j};
    }
  }

  lemma {:induction false} BudgetSame(m: map<Sequence, UnackedFrag>, n: map<Sequence, UnackedFrag>, maxRetx: nat)
    requires m.Keys == n.Keys && forall k | k in m :: m[k].retxCount == n[k].retxCount
    ensures Budget(m, maxRetx) == Budget(n, maxRetx)
    decreases |m|
  {
    if m != map[] {
      var k :| k in m;
      BudgetSplit(m, maxRetx, k);
      BudgetSplit(n, maxRetx, k);
      BudgetSame(m - {k}, n - {k}, maxRetx);
    } else {
      assert n == map[];
    }
  }

  lemma {:induction false} BudgetShrinks(m: map<Sequence, UnackedFrag>, ks: set<Sequence>, maxRetx: nat)
    ensures Budget(m - ks, maxRetx) <= Budget(m, maxRetx)
    decreases |m|
  {
    if k :| k in m && k in ks {
      BudgetSplit(m, maxRetx, k);
      BudgetShrinks(m - {k}, ks, maxRetx);
      assert (m - {k}) - ks == m - ks;
    } else {
      assert m - ks == m;
    }
  }

  /** With bounded counts, an empty budget means an empty window. */
  lemma BudgetZero(tx: TxState, maxRetx: nat)
    requires RetxBounded(tx, maxRetx)
    ensures Budget(tx.unacked, maxRetx) == 0 <==> tx.unacked == map[]
  {
    if k :| k in tx.unacked { BudgetSplit(tx.unacked, maxRetx, k); }
  }

  lemma AbsorbSpends(tx: TxState, opt: Options, ack: Sequence)
    requires Sound(tx, opt) && ack in tx.unacked
    ensures Budget(Absorb(tx, ack).tx.unacked, opt.maxRetx) < Budget(tx.unacked, opt.maxRetx)
  {
    AbsorbKeepsInv(tx, opt, ack);
    var b := BumpOlder(tx, ack).unacked;
    assert b.Keys == tx.unacked.Keys;
    BudgetSame(b, tx.unacked, opt.maxRetx);
    BudgetSplit(b, opt.maxRetx, ack);
  }

  lemma BudgetDrops(m: map<Sequence, UnackedFrag>, ks: set<Sequence>, k: Sequence, maxRetx: nat)
    requires k in m && k in ks && m[k].retxCount <= maxRetx
    ensures Budget(m - ks, maxRetx) < Budget(m, maxRetx)
  {
    BudgetSplit(m, maxRetx, k);
    assert m - ks == (m - {k}) - ks;
    BudgetShrinks(m - {k}, ks, maxRetx);
  }

  lemma GiveUpSpends(tx: TxState, maxRetx: nat, k: Sequence)
    requires Inv(tx) && RetxBounded(tx, maxRetx) && k in tx.unacked && Linked(tx, k)
    ensures Budget(GiveUp(tx, k).tx.unacked, maxRetx) < Budget(tx.unacked, maxRetx)
  {
    GiveUpRemoves(tx, k);
    BudgetDrops(tx.unacked, Elements(tx.netPkts[tx.unacked[k].netPkt].unackedFrags), k, maxRetx);
  }

  lemma RetransmitSpends(tx: TxState, maxRetx: nat, k: Sequence)
    requires Inv(tx) && k in tx.unacked && Linked(tx, k)
    requires tx.unacked[k].retxCount < maxRetx && !RangeExceeded(tx)
    ensures Budget(Retransmit(tx, k).tx.unacked, maxRetx) == Budget(tx.unacked, maxRetx) - 1
  {
    RetransmitWindow(tx, k);
    var n := Next(tx.lastTxSeqNo);
    var r := Retransmit(tx, k).tx.unacked;
    assert r - {n} == tx.unacked - {k};
    BudgetSplit(tx.unacked, maxRetx, k);
    BudgetSplit(r, maxRetx, n);
  }

  /** Every loss strictly lowers the budget, by resending or by giving up. */
  lemma LostSpends(tx: TxState, opt: Options, k: Sequence)
    requires Sound(tx, opt) && k in tx.unacked && Linked(tx, k)
    ensures Lost(tx, opt, k).ok ==>
              Budget(Lost(tx, opt, k).tx.unacked, opt.maxRetx) < Budget(tx.unacked, opt.maxRetx)
  {
    if tx.unacked[k].retxCount >= opt.maxRetx {
      GiveUpSpends(tx, opt.maxRetx, k);
    } else if !RangeExceeded(tx) {
      RetransmitSpends(tx, opt.maxRetx, k);
    }
  }

  // ---- lifted over the Ack loop ----

  lemma {:induction false} LoseAllSound(tx: TxState, opt: Options, lost: seq<Sequence>, removed: set<Sequence>)
    requires Sound(tx, opt) && Accounted(tx, lost, removed)
    ensures LoseAll(tx, opt, lost, removed).ok ==>
              && Sound(LoseAll(tx, opt, lost, removed).tx, opt)
              && Budget(LoseAll(tx, opt, lost, removed).tx.unacked, opt.maxRetx) <= Budget(tx.unacked, opt.maxRetx)
    decreases |lost|
  {
    if lost != [] {
      if lost[0] in removed {
        LoseAllSound(tx, opt, lost[1..], removed);
      } else {
        assert Linked(tx, lost[0]);
        var r := Lost(tx, opt, lost[0]);
        LostKeepsInv(tx, opt, lost[0]);
        LostSound(tx, opt, lost[0]);
        LostSpends(tx, opt, lost[0]);
        if r.ok { LoseAllSound(r.tx, opt, lost[1..], removed + Elements(r.removed)); }
      }
    }
  }

  /** A matching Ack strictly lowers the budget, whatever losses it uncovers. */
  lemma ProcessAckSound(tx: TxState, opt: Options, ack: Sequence)
    requires Sound(tx, opt)
    ensures ProcessAck(tx, opt, ack).ok ==> Sound(ProcessAck(tx, opt, ack).tx, opt)
    ensures ProcessAck(tx, opt, ack).ok && ack in tx.unacked ==>
              Budget(ProcessAck(tx, opt, ack).tx.unacked, opt.maxRetx) < Budget(tx.unacked, opt.maxRetx)
    ensures ack !in tx.unacked ==> ProcessAck(tx, opt, ack) == AckResult(tx, [], [], true)
  {
    if ack in tx.unacked {
      AbsorbKeepsInv(tx, opt, ack);
      AbsorbSound(tx, opt, ack);
      AbsorbSpends(tx, opt, ack);
      LoseAllSound(Absorb(tx, ack).tx, opt, FindLost(tx, ack, opt.seqNumLossThreshold), {});
    }
  }
}
