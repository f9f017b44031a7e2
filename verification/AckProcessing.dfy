/** The Ack loop of processIncomingPacket: each Ack may uncover lost fragments, each of which is
    resent or takes its whole network packet down with it. */
module AckProcessing {
  import opened Sequence64
  import opened LpPackets
  import opened SendWindow
  import opened SendWindowLaws

  datatype AckResult = AckResult(tx: TxState, resent: seq<Sent>, outcomes: seq<Outcome>, ok: bool)

  /** Every TxSequence still to be declared lost is outstanding or recorded as removed. */
  ghost predicate Accounted(tx: TxState, lost: seq<Sequence>, removed: set<Sequence>) {
    forall k | k in lost :: k in removed || k in tx.unacked
  }

  ghost function Elements(s: seq<Sequence>): set<Sequence> {
    set x | x in s
  }

  /** onLpPacketLost keeps the invariant unless it throws; it throws exactly when the fragment may be
      resent and no number is free. Every key that disappears is reported. */
  lemma LostKeepsInv(tx: TxState, opt: Options, k: Sequence)
    requires Inv(tx) && k in tx.unacked && Linked(tx, k)
    ensures Lost(tx, opt, k).ok <==> !(tx.unacked[k].retxCount < opt.maxRetx && FreeNumbers(tx) == 0)
    ensures Lost(tx, opt, k).ok ==>
              && Inv(Lost(tx, opt, k).tx)
              && (forall j | j in tx.unacked :: j in Lost(tx, opt, k).tx.unacked || j in Lost(tx, opt, k).removed)
              && k in Lost(tx, opt, k).removed
  {
    SendOneUsesNumber(tx, tx.unacked[k].netPkt, EMPTY_PACKET);
    if tx.unacked[k].retxCount >= opt.maxRetx {
      GiveUpKeepsInv(tx, k);
      GiveUpRemoves(tx, k);
    } else if !RangeExceeded(tx) {
      RetransmitKeepsInv(tx, k);
      RetransmitWindow(tx, k);
    }
  }

  ghost function LoseAll(tx: TxState, opt: Options, lost: seq<Sequence>, removed: set<Sequence>): AckResult
    requires Inv(tx) && Accounted(tx, lost, removed)
    decreases |lost|
  {
    if lost == [] then AckResult(tx, [], [], true)
    else if lost[0] in removed then
      LoseAll(tx, opt, lost[1..], removed)
    else
      assert Linked(tx, lost[0]);
      var r := Lost(tx, opt, lost[0]);
      LostKeepsInv(tx, opt, lost[0]);
      if !r.ok then AckResult(r.tx, r.resent, r.outcomes, false)
      else
        var q := LoseAll(r.tx, opt, lost[1..], removed + Elements(r.removed));
        AckResult(q.tx, r.resent + q.resent, r.outcomes + q.outcomes, q.ok)
  }

  /** Detecting losses and removing the acknowledged fragment. */
  ghost function Absorb(tx: TxState, ack: Sequence): AckedResult
    requires Inv(tx) && ack in tx.unacked
  {
    BumpKeepsInv(tx, ack);
    assert Linked(BumpOlder(tx, ack), ack);
    Acknowledged(BumpOlder(tx, ack), ack)
  }

  /** The fragments found lost are outstanding, older than the acknowledged one, and at the threshold
      once this Ack is counted; nothing else is found. */
  lemma FindLostExact(tx: TxState, ack: Sequence, threshold: nat)
    requires WindowInv(tx) && ack in tx.unacked
    ensures forall k :: k in FindLost(tx, ack, threshold) <==>
              k in tx.unacked && IsOlder(tx, k, ack) && tx.unacked[k].nGreaterSeqAcks + 1 >= threshold
    ensures ack !in FindLost(tx, ack, threshold)
  {
    assert forall k :: k in FindLost(tx, ack, threshold) <==> k in LostKeys(tx, ack, threshold);
  }

  lemma AbsorbKeepsInv(tx: TxState, opt: Options, ack: Sequence)
    requires Inv(tx) && ack in tx.unacked
    ensures Inv(Absorb(tx, ack).tx)
    ensures Accounted(Absorb(tx, ack).tx, FindLost(tx, ack, opt.seqNumLossThreshold), {})
    ensures Absorb(tx, ack).tx.unacked == BumpOlder(tx, ack).unacked - {ack}
  {
    BumpKeepsInv(tx, ack);
    assert Linked(BumpOlder(tx, ack), ack);
    AcknowledgedKeepsInv(BumpOlder(tx, ack), ack);
    FindLostExact(tx, ack, opt.seqNumLossThreshold);
    assert Absorb(tx, ack).tx.unacked.Keys == tx.unacked.Keys - {ack};
  }

  /** An Ack leaves every other fragment as it is, except for the count of newer Acks. */
  lemma AbsorbShape(tx: TxState, ack: Sequence)
    requires Inv(tx) && ack in tx.unacked
    ensures var r := Absorb(tx, ack).tx;
            && r.unacked.Keys == tx.unacked.Keys - {ack}
            && (forall k | k in r.unacked ::
                  r.unacked[k] == tx.unacked[k].(nGreaterSeqAcks := r.unacked[k].nGreaterSeqAcks))
            && r.nNetPkts == tx.nNetPkts && r.lastTxSeqNo == tx.lastTxSeqNo
  {
    BumpKeepsInv(tx, ack);
    var b := BumpOlder(tx, ack);
    assert Linked(b, ack);
    AcknowledgedFrame(b, ack);
    var r := Absorb(tx, ack).tx;
    assert r.unacked == b.unacked - {ack};
    forall k | k in r.unacked
      ensures k in tx.unacked && r.unacked[k] == tx.unacked[k].(nGreaterSeqAcks := r.unacked[k].nGreaterSeqAcks)
    {
      assert r.unacked[k] == b.unacked[k];
    }
  }

  function ToSeq<T>(o: Option<T>): seq<T> {
    if o.Some? then [o.value] else []
  }

  ghost function ProcessAck(tx: TxState, opt: Options, ack: Sequence): AckResult
    requires Inv(tx)
  {
    if ack !in tx.unacked then AckResult(tx, [], [], true)
    else
      AbsorbKeepsInv(tx, opt, ack);
      var a := Absorb(tx, ack);
      var q := LoseAll(a.tx, opt, FindLost(tx, ack, opt.seqNumLossThreshold), {});
      q.(outcomes := ToSeq(a.outcome) + q.outcomes)
  }

  lemma {:induction false} LoseAllKeepsInv(tx: TxState, opt: Options, lost: seq<Sequence>, removed: set<Sequence>)
    requires Inv(tx) && Accounted(tx, lost, removed)
    ensures LoseAll(tx, opt, lost, removed).ok ==> Inv(LoseAll(tx, opt, lost, removed).tx)
    decreases |lost|
  {
    if lost != [] {
      if lost[0] in removed {
        LoseAllKeepsInv(tx, opt, lost[1..], removed);
      } else {
        assert Linked(tx, lost[0]);
        var r := Lost(tx, opt, lost[0]);
        LostKeepsInv(tx, opt, lost[0]);
        if r.ok { LoseAllKeepsInv(r.tx, opt, lost[1..], removed + Elements(r.removed)); }
      }
    }
  }

  lemma ProcessAckKeepsInv(tx: TxState, opt: Options, ack: Sequence)
    requires Inv(tx)
    ensures ProcessAck(tx, opt, ack).ok ==> Inv(ProcessAck(tx, opt, ack).tx)
  {
    if ack in tx.unacked {
      AbsorbKeepsInv(tx, opt, ack);
      LoseAllKeepsInv(Absorb(tx, ack).tx, opt, FindLost(tx, ack, opt.seqNumLossThreshold), {});
    }
  }

  ghost function ProcessAcks(tx: TxState, opt: Options, acks: seq<Sequence>): AckResult
    requires Inv(tx)
    decreases |acks|
  {
    if acks == [] then AckResult(tx, [], [], true)
    else
      var r := ProcessAck(tx, opt, acks[0]);
      if !r.ok then r
      else
        ProcessAckKeepsInv(tx, opt, acks[0]);
        var q := ProcessAcks(r.tx, opt, acks[1..]);
        AckResult(q.tx, r.resent + q.resent, r.outcomes + q.outcomes, q.ok)
  }

  // ---- the count of newer Acks ----

  /** No outstanding fragment has reached the loss threshold. */
  ghost predicate BelowThreshold(tx: TxState, threshold: nat) {
    forall k | k in tx.unacked :: tx.unacked[k].nGreaterSeqAcks < threshold
  }

  /** Those that have are all waiting to be declared lost. */
  ghost predicate BelowThresholdExcept(tx: TxState, threshold: nat, lost: seq<Sequence>) {
    forall k | k in tx.unacked && tx.unacked[k].nGreaterSeqAcks >= threshold :: k in lost
  }

  lemma LostBelow(tx: TxState, opt: Options, lost: seq<Sequence>)
    requires Inv(tx) && lost != [] && lost[0] in tx.unacked && Linked(tx, lost[0])
    requires BelowThresholdExcept(tx, opt.seqNumLossThreshold, lost) && opt.seqNumLossThreshold >= 1
    requires Lost(tx, opt, lost[0]).ok
    ensures BelowThresholdExcept(Lost(tx, opt, lost[0]).tx, opt.seqNumLossThreshold, lost[1..])
    ensures forall j | j in Lost(tx, opt, lost[0]).removed && j in Lost(tx, opt, lost[0]).tx.unacked ::
              Lost(tx, opt, lost[0]).tx.unacked[j].nGreaterSeqAcks < opt.seqNumLossThreshold
  {
    var k := lost[0];
    var r := Lost(tx, opt, k);
    if tx.unacked[k].retxCount >= opt.maxRetx {
      GiveUpRemoves(tx, k);
    } else {
      RetransmitWindow(tx, k);
    }
    forall j | j in r.tx.unacked && r.tx.unacked[j].nGreaterSeqAcks >= opt.seqNumLossThreshold
      ensures j in lost[1..]
    {
      assert j in tx.unacked && j != k;
      assert j in lost;
    }
  }

  ghost predicate RemovedBelow(tx: TxState, threshold: nat, removed: set<Sequence>) {
    forall k | k in removed && k in tx.unacked :: tx.unacked[k].nGreaterSeqAcks < threshold
  }

  lemma LostKeepsRemovedBelow(tx: TxState, opt: Options, k: Sequence, removed: set<Sequence>)
    requires Inv(tx) && k in tx.unacked && Linked(tx, k) && opt.seqNumLossThreshold >= 1
    requires RemovedBelow(tx, opt.seqNumLossThreshold, removed)
    requires Lost(tx, opt, k).ok
    ensures RemovedBelow(Lost(tx, opt, k).tx, opt.seqNumLossThreshold, removed + Elements(Lost(tx, opt, k).removed))
  {
    if tx.unacked[k].retxCount >= opt.maxRetx {
      GiveUpRemoves(tx, k);
    } else {
      RetransmitWindow(tx, k);
    }
  }

  lemma {:induction false} LoseAllBelow(tx: TxState, opt: Options, lost: seq<Sequence>, removed: set<Sequence>)
    requires Inv(tx) && Accounted(tx, lost, removed)
    requires BelowThresholdExcept(tx, opt.seqNumLossThreshold, lost) && opt.seqNumLossThreshold >= 1
    requires RemovedBelow(tx, opt.seqNumLossThreshold, removed)
    ensures LoseAll(tx, opt, lost, removed).ok ==>
              BelowThreshold(LoseAll(tx, opt, lost, removed).tx, opt.seqNumLossThreshold)
    decreases |lost|
  {
    if lost != [] {
      if lost[0] in removed {
        forall k | k in tx.unacked && tx.unacked[k].nGreaterSeqAcks >= opt.seqNumLossThreshold
          ensures k in lost[1..]
        {
          assert k in lost && k != lost[0];
        }
        LoseAllBelow(tx, opt, lost[1..], removed);
      } else {
        assert Linked(tx, lost[0]);
        var r := Lost(tx, opt, lost[0]);
        LostKeepsInv(tx, opt, lost[0]);
        if r.ok {
          LostBelow(tx, opt, lost);
          LostKeepsRemovedBelow(tx, opt, lost[0], removed);
          LoseAllBelow(r.tx, opt, lost[1..], removed + Elements(r.removed));
        }
      }
    }
  }

  /** After an Ack no outstanding fragment is left at or above the loss threshold. */
  lemma ProcessAckBelow(tx: TxState, opt: Options, ack: Sequence)
    requires Inv(tx) && BelowThreshold(tx, opt.seqNumLossThreshold) && opt.seqNumLossThreshold >= 1
    ensures ProcessAck(tx, opt, ack).ok ==>
              BelowThreshold(ProcessAck(tx, opt, ack).tx, opt.seqNumLossThreshold)
  {
    hide WindowInv, LinkInv, LoseAll, Distance;
    if ack in tx.unacked {
      AbsorbKeepsInv(tx, opt, ack);
      var a := Absorb(tx, ack).tx;
      var lost := FindLost(tx, ack, opt.seqNumLossThreshold);
      forall k | k in a.unacked && a.unacked[k].nGreaterSeqAcks >= opt.seqNumLossThreshold
        ensures k in lost
      {
        assert k in LostKeys(tx, ack, opt.seqNumLossThreshold);
      }
      LoseAllBelow(a, opt, lost, {});
    }
  }
}
