/** What every operation on the send window keeps. */
module SendWindowLaws {
  import opened Sequence64
  import opened LpPackets
  import opened SendWindow

  // ---- the window ----

  /** assignTxSequence throws exactly when the number it is about to assign is still outstanding. */
  lemma ThrowsIffOutstanding(tx: TxState)
    requires WindowInv(tx)
    ensures RangeExceeded(tx) <==> Next(tx.lastTxSeqNo) in tx.unacked
  {
    var next := Next(tx.lastTxSeqNo);
    if next in tx.unacked {
      var f := tx.first.value;
      assert Distance(f, next) <= Distance(f, tx.lastTxSeqNo);
    }
  }

  /** The exception leaves the last number advanced onto the start of the window. From there the
      window is sound only if nothing else is outstanding, and the next call no longer throws. */
  lemma ThrowBreaksWindow(tx: TxState)
    requires WindowInv(tx) && RangeExceeded(tx)
    ensures var t := tx.(lastTxSeqNo := Next(tx.lastTxSeqNo));
            && (WindowInv(t) <==> tx.unacked.Keys == {tx.first.value})
            && !RangeExceeded(t)
  {
    var t := tx.(lastTxSeqNo := Next(tx.lastTxSeqNo));
    var f := tx.first.value;
    if WindowInv(t) {
      forall k | k in tx.unacked ensures k == f { assert Distance(f, k) <= Distance(f, t.lastTxSeqNo); }
    }
  }

  /** Two packets of one fragment each, numbered 0 and 1, still outstanding after all other numbers. */
  function LastNumberUsed(p: LpPacket, q: LpPacket): TxState {
    INITIAL.(unacked := map[0 := NewFrag(SetTxSequence(p, 0), 0), 1 := NewFrag(SetTxSequence(q, 1), 1)],
             first := Some(0), lastTxSeqNo := MODULUS - 1,
             netPkts := map[0 := NetPkt([0], false, false), 1 := NetPkt([1], false, false)], nNetPkts := 2)
  }

  /** A good state in which the call after the exception hands out number 1 again. */
  lemma ThrowBreaksWindowExample(p: LpPacket, q: LpPacket)
    ensures var tx := LastNumberUsed(p, q);
            var t := tx.(lastTxSeqNo := Next(tx.lastTxSeqNo));
            && Inv(tx) && RangeExceeded(tx)
            && !RangeExceeded(t) && Next(t.lastTxSeqNo) in t.unacked && !WindowInv(t)
  {
    var tx := LastNumberUsed(p, q);
    assert 0 in tx.unacked && 1 in tx.unacked;
    assert Linked(tx, 0) && Linked(tx, 1);
    ThrowBreaksWindow(tx);
    assert 1 in tx.unacked.Keys;
  }

  lemma InsertKeepsWindow(tx: TxState, frag: UnackedFrag)
    requires WindowInv(tx) && !RangeExceeded(tx)
    ensures WindowInv(Insert(tx, Next(tx.lastTxSeqNo), frag))
  {
    var k := Next(tx.lastTxSeqNo);
    var r := Insert(tx, k, frag);
    if tx.unacked == map[] {
      assert r.unacked.Keys == {k};
    }
  }

  lemma DeleteKeepsWindow(tx: TxState, k: Sequence)
    requires WindowInv(tx)
    ensures WindowInv(Delete(tx, k))
    ensures Delete(tx, k).unacked == tx.unacked - {k}
  {
    var r := Delete(tx, k);
    if r.unacked != map[] {
      assert r.unacked.Keys != {};
      if tx.first == Some(k) {
        var n := Nearest(r.unacked.Keys, k);
        forall j | j in r.unacked
          ensures Distance(n, j) <= Distance(n, tx.lastTxSeqNo)
        {
          assert Distance(k, n) <= Distance(k, j);
          assert Distance(k, j) <= Distance(k, tx.lastTxSeqNo);
          assert n in tx.unacked;
        }
      }
    }
  }

  lemma {:induction false} DeleteAllKeepsWindow(tx: TxState, ks: seq<Sequence>)
    requires WindowInv(tx)
    ensures WindowInv(DeleteAll(tx, ks))
    ensures DeleteAll(tx, ks).unacked == tx.unacked - (set k | k in ks)
    ensures DeleteAll(tx, ks) == tx.(unacked := DeleteAll(tx, ks).unacked, first := DeleteAll(tx, ks).first)
    decreases |ks|
  {
    if ks != [] {
      DeleteKeepsWindow(tx, ks[0]);
      DeleteAllKeepsWindow(Delete(tx, ks[0]), ks[1..]);
      assert (set k | k in ks) == {ks[0]} + (set k | k in ks[1..]);
    } else {
      assert tx.unacked - (set k | k in ks) == tx.unacked;
    }
  }

  // ---- lists ----

  lemma {:induction false} WithoutContents(s: seq<Sequence>, k: Sequence)
    ensures forall x :: x in Without(s, k) <==> x in s && x != k
  {
    if s != [] {
      WithoutContents(s[1..], k);
      assert forall x :: x in s <==> x == s[0] || x in s[1..];
    }
  }

  lemma SwapRemoveContents(s: seq<Sequence>, k: Sequence)
    requires k in s && NoDuplicates(s)
    ensures NoDuplicates(SwapRemove(s, k))
    ensures forall x :: x in SwapRemove(s, k) <==> x in s && x != k
    ensures |SwapRemove(s, k)| == |s| - 1
  {
    var i := IndexOf(s, k);
    var r := SwapRemove(s, k);
    forall x | x in s && x != k ensures x in r {
      var j :| 0 <= j < |s| && s[j] == x;
      if j == |s| - 1 { assert r[i] == x; } else { assert r[j] == x; }
    }
  }

  lemma ReplaceContents(s: seq<Sequence>, k: Sequence, n: Sequence)
    requires k in s && NoDuplicates(s) && n !in s
    ensures NoDuplicates(Replace(s, k, n))
    ensures forall x :: x in Replace(s, k, n) <==> x == n || (x in s && x != k)
  {
    var i := IndexOf(s, k);
    var r := Replace(s, k, n);
    assert r[i] == n;
    forall x | x in s && x != k ensures x in r {
      var j :| 0 <= j < |s| && s[j] == x;
      assert r[j] == x;
    }
  }

  /** A live packet's list is exactly the outstanding fragments that point back to it. */
  lemma ListIsExact(tx: TxState, id: nat)
    requires LinkInv(tx) && id in Live(tx)
    ensures id in tx.netPkts
    ensures forall k :: k in tx.netPkts[id].unackedFrags <==> k in tx.unacked && tx.unacked[k].netPkt == id
  {
    var i :| i in tx.unacked && tx.unacked[i].netPkt == id;
    assert Linked(tx, i);
    forall k | k in tx.unacked && tx.unacked[k].netPkt == id
      ensures k in tx.netPkts[id].unackedFrags
    {
      assert Linked(tx, k);
    }
  }

  lemma InLive(tx: TxState, k: Sequence)
    requires k in tx.unacked
    ensures tx.unacked[k].netPkt in Live(tx)
  {}

  // ---- handleOutgoing ----

  lemma AllocateKeepsInv(tx: TxState, isInterest: bool)
    requires Inv(tx)
    ensures Inv(Allocate(tx, isInterest))
    ensures Live(Allocate(tx, isInterest)) == Live(tx)
    ensures tx.nNetPkts !in Live(tx)
    ensures ListSound(Allocate(tx, isInterest), tx.nNetPkts)
  {
    var r := Allocate(tx, isInterest);
    forall k | k in r.unacked ensures Linked(r, k) && r.unacked[k].netPkt != tx.nNetPkts {
      assert Linked(tx, k);
    }
  }

  lemma SendOneLinks(tx: TxState, id: nat, frag: LpPacket)
    requires LinkInv(tx) && Next(tx.lastTxSeqNo) !in tx.unacked
    requires id in tx.netPkts && ListSound(tx, id)
    ensures LinkInv(SendOne(tx, id, frag))
    ensures ListSound(SendOne(tx, id, frag), id)
  {
    var k := Next(tx.lastTxSeqNo);
    var r := SendOne(tx, id, frag);
    assert ListSound(r, id);
    forall j | j in r.unacked ensures Linked(r, j) {
      if j != k { assert Linked(tx, j); }
    }
  }

  lemma LiveInsert(before: TxState, after: TxState, k: Sequence, frag: UnackedFrag)
    requires k !in before.unacked && after.unacked == before.unacked[k := frag]
    ensures Live(after) == Live(before) + {frag.netPkt}
  {
    forall x | x in Live(before) ensures x in Live(after) {
      var j :| j in before.unacked && before.unacked[j].netPkt == x;
      assert after.unacked[j].netPkt == x;
      InLive(after, j);
    }
    InLive(after, k);
  }

  lemma SendOneKeepsInv(tx: TxState, id: nat, frag: LpPacket)
    requires Inv(tx) && !RangeExceeded(tx)
    requires id in tx.netPkts && ListSound(tx, id)
    ensures Inv(SendOne(tx, id, frag))
    ensures id in SendOne(tx, id, frag).netPkts && ListSound(SendOne(tx, id, frag), id)
    ensures Live(SendOne(tx, id, frag)) == Live(tx) + {id}
  {
    var k := Next(tx.lastTxSeqNo);
    var stored := NewFrag(SetTxSequence(frag, k), id);
    ThrowsIffOutstanding(tx);
    InsertKeepsWindow(tx, stored);
    SendOneLinks(tx, id, frag);
    LiveInsert(tx, SendOne(tx, id, frag), k, stored);
  }

  /** How many more transmissions fit before the number range is exhausted. */
  ghost function FreeNumbers(tx: TxState): nat {
    if tx.first.None? then MODULUS else MODULUS - 1 - Distance(tx.first.value, tx.lastTxSeqNo)
  }

  lemma SendOneUsesNumber(tx: TxState, id: nat, frag: LpPacket)
    requires WindowInv(tx) && id in tx.netPkts
    ensures RangeExceeded(tx) <==> FreeNumbers(tx) == 0
    ensures !RangeExceeded(tx) ==> FreeNumbers(SendOne(tx, id, frag)) == FreeNumbers(tx) - 1
  {
    var r := SendOne(tx, id, frag);
    if tx.first.None? {
      assert r.first == Some(r.lastTxSeqNo);
    }
  }

  lemma {:induction false} SendFragsKeepsInv(tx: TxState, id: nat, frags: seq<LpPacket>, r: SendResult)
    requires Inv(tx)
    requires id in tx.netPkts && ListSound(tx, id)
    requires r == SendFrags(tx, id, frags)
    ensures r.ok <==> |frags| <= FreeNumbers(tx)
    ensures r.ok ==> Inv(r.tx) && Live(r.tx) == Live(tx) + (if frags == [] then {} else {id})
    decreases |frags|
  {
    if frags != [] {
      SendOneUsesNumber(tx, id, frags[0]);
      if !RangeExceeded(tx) {
        SendOneKeepsInv(tx, id, frags[0]);
        var tx1 := SendOne(tx, id, frags[0]);
        var r1 := SendFrags(tx1, id, frags[1..]);
        assert r.ok == r1.ok && r.tx == r1.tx;
        SendFragsKeepsInv(tx1, id, frags[1..], r1);
      }
    }
  }

  /** handleOutgoing keeps the invariant; it throws exactly when the fragments outnumber the free
      numbers. The new packet becomes live and no other packet does. */
  lemma HandleOutgoingKeepsInv(tx: TxState, frags: seq<LpPacket>, isInterest: bool)
    requires Inv(tx)
    ensures HandleOutgoing(tx, frags, isInterest).ok <==> |frags| <= FreeNumbers(tx)
    ensures tx.nNetPkts !in Live(tx)
    ensures HandleOutgoing(tx, frags, isInterest).ok ==>
              && Inv(HandleOutgoing(tx, frags, isInterest).tx)
              && Live(HandleOutgoing(tx, frags, isInterest).tx)
                 == Live(tx) + (if frags == [] then {} else {tx.nNetPkts})
  {
    AllocateKeepsInv(tx, isInterest);
    SendFragsKeepsInv(Allocate(tx, isInterest), tx.nNetPkts, frags, HandleOutgoing(tx, frags, isInterest));
  }

  // ---- onLpPacketAcknowledged ----

  lemma AcknowledgedLinks(tx: TxState, k: Sequence, r: TxState)
    requires LinkInv(tx) && k in tx.unacked && Linked(tx, k)
    requires r.unacked == tx.unacked - {k} && r.nNetPkts == tx.nNetPkts
    requires var id := tx.unacked[k].netPkt; var np := tx.netPkts[id];
             r.netPkts == tx.netPkts[id := np.(unackedFrags := SwapRemove(np.unackedFrags, k))]
    ensures LinkInv(r)
  {
    var id := tx.unacked[k].netPkt;
    SwapRemoveContents(tx.netPkts[id].unackedFrags, k);
    assert ListSound(r, id);
    forall j | j in r.unacked ensures Linked(r, j) { assert Linked(tx, j); }
  }

  lemma AcknowledgedLive(tx: TxState, k: Sequence, r: TxState)
    requires LinkInv(tx) && k in tx.unacked && Linked(tx, k)
    requires r.unacked == tx.unacked - {k}
    ensures var id := tx.unacked[k].netPkt;
            Live(r) == Live(tx) - (if SwapRemove(tx.netPkts[id].unackedFrags, k) == [] then {id} else {})
  {
    var id := tx.unacked[k].netPkt;
    var rest := SwapRemove(tx.netPkts[id].unackedFrags, k);
    SwapRemoveContents(tx.netPkts[id].unackedFrags, k);
    InLive(tx, k);
    ListIsExact(tx, id);
    if rest != [] {
      assert rest[0] in r.unacked && r.unacked[rest[0]].netPkt == id;
      InLive(r, rest[0]);
    }
    forall x | x in Live(tx) && x != id ensures x in Live(r) {
      var j :| j in tx.unacked && tx.unacked[j].netPkt == x;
      InLive(r, j);
    }
  }

  /** An Ack removes the fragment and nothing else; its packet stays live exactly when another of its
      fragments is outstanding, and otherwise is reported as delivered. */
  lemma AcknowledgedKeepsInv(tx: TxState, k: Sequence)
    requires Inv(tx) && k in tx.unacked && Linked(tx, k)
    ensures Inv(Acknowledged(tx, k).tx)
    ensures Acknowledged(tx, k).tx.unacked == tx.unacked - {k}
    ensures var id := tx.unacked[k].netPkt; var a := Acknowledged(tx, k);
            if id in Live(a.tx) then a.outcome.None? && Live(a.tx) == Live(tx)
            else a.outcome == Some(Delivered(id, tx.netPkts[id].didRetx)) && Live(a.tx) == Live(tx) - {id}
  {
    var r := Acknowledged(tx, k).tx;
    InLive(tx, k);
    AcknowledgedLinks(tx, k, r);
    AcknowledgedLive(tx, k, r);
    var mid := r.(unacked := tx.unacked, first := tx.first);
    assert r == Delete(mid, k);
    DeleteKeepsWindow(mid, k);
  }

  lemma AcknowledgedFrame(tx: TxState, k: Sequence)
    requires k in tx.unacked && Linked(tx, k)
    ensures Acknowledged(tx, k).tx.unacked == tx.unacked - {k}
    ensures Acknowledged(tx, k).tx.nNetPkts == tx.nNetPkts
    ensures Acknowledged(tx, k).tx.lastTxSeqNo == tx.lastTxSeqNo
  {}

  // ---- onLpPacketLost ----

  lemma DropPacketLinks(tx: TxState, id: nat, r: TxState)
    requires LinkInv(tx) && id in Live(tx) && id in tx.netPkts
    requires r.unacked == tx.unacked - (set j | j in tx.netPkts[id].unackedFrags)
    requires r.netPkts == tx.netPkts && r.nNetPkts == tx.nNetPkts
    ensures LinkInv(r)
    ensures Live(r) == Live(tx) - {id}
  {
    ListIsExact(tx, id);
    forall j | j in r.unacked ensures Linked(r, j) { assert Linked(tx, j); }
    forall x | x in Live(r) ensures x in Live(tx) && x != id {
      var j :| j in r.unacked && r.unacked[j].netPkt == x;
      InLive(tx, j);
    }
    forall x | x in Live(tx) && x != id ensures x in Live(r) {
      var j :| j in tx.unacked && tx.unacked[j].netPkt == x;
      InLive(r, j);
    }
  }

  /** Giving up removes exactly the outstanding fragments of the packet and reports all of them. */
  lemma ExhaustedWindow(tx: TxState, r: TxState)
    requires WindowInv(tx) && r.unacked == tx.unacked && r.first == tx.first && r.lastTxSeqNo == tx.lastTxSeqNo
    ensures WindowInv(r)
  {}

  lemma GiveUpRemoves(tx: TxState, k: Sequence)
    requires WindowInv(tx) && k in tx.unacked && Linked(tx, k)
    ensures WindowInv(GiveUp(tx, k).tx)
    ensures forall j :: j in GiveUp(tx, k).removed <==> j in tx.netPkts[tx.unacked[k].netPkt].unackedFrags
    ensures GiveUp(tx, k).tx ==
              tx.(unacked := tx.unacked - (set j | j in tx.netPkts[tx.unacked[k].netPkt].unackedFrags),
                  first := GiveUp(tx, k).tx.first,
                  nRetxExhausted := tx.nRetxExhausted + 1)
  {
    hide WindowInv, NoDuplicates, Without;
    var list := tx.netPkts[tx.unacked[k].netPkt].unackedFrags;
    var others := Without(list, k);
    WithoutContents(list, k);
    DeleteAllKeepsWindow(tx, others);
    ExhaustedWindow(DeleteAll(tx, others), DeleteAll(tx, others).(nRetxExhausted := tx.nRetxExhausted + 1));
    DeleteKeepsWindow(DeleteAll(tx, others).(nRetxExhausted := tx.nRetxExhausted + 1), k);
    assert (set j | j in list) == (set j | j in others) + {k};
  }

  lemma GiveUpKeepsInv(tx: TxState, k: Sequence)
    requires Inv(tx) && k in tx.unacked && Linked(tx, k)
    ensures Inv(GiveUp(tx, k).tx)
    ensures Live(GiveUp(tx, k).tx) == Live(tx) - {tx.unacked[k].netPkt}
  {
    InLive(tx, k);
    GiveUpRemoves(tx, k);
    DropPacketLinks(tx, tx.unacked[k].netPkt, GiveUp(tx, k).tx);
  }

  /** The fragment stored in place of `k` by a retransmission. */
  ghost function Resent(tx: TxState, k: Sequence): UnackedFrag
    requires k in tx.unacked
  {
    UnackedFrag(SetTxSequence(tx.unacked[k].pkt, Next(tx.lastTxSeqNo)), true,
                tx.unacked[k].retxCount + 1, 0, tx.unacked[k].netPkt)
  }

  lemma RetransmitWindow(tx: TxState, k: Sequence)
    requires WindowInv(tx) && k in tx.unacked && Linked(tx, k) && !RangeExceeded(tx)
    ensures WindowInv(Retransmit(tx, k).tx)
    ensures Next(tx.lastTxSeqNo) !in tx.unacked
    ensures Retransmit(tx, k).tx.unacked == (tx.unacked - {k})[Next(tx.lastTxSeqNo) := Resent(tx, k)]
  {
    var n := Next(tx.lastTxSeqNo);
    ThrowsIffOutstanding(tx);
    InsertKeepsWindow(tx, Resent(tx, k));
    var mid := Insert(tx, n, Resent(tx, k)).(netPkts := Retransmit(tx, k).tx.netPkts);
    DeleteKeepsWindow(mid, k);
    assert Retransmit(tx, k).tx == Delete(mid, k);
  }

  lemma RetransmitLinks(tx: TxState, k: Sequence, n: Sequence, r: TxState)
    requires LinkInv(tx) && k in tx.unacked && Linked(tx, k)
    requires n == Next(tx.lastTxSeqNo) && n !in tx.unacked
    requires r.unacked == (tx.unacked - {k})[n := Resent(tx, k)] && r.nNetPkts == tx.nNetPkts
    requires var id := tx.unacked[k].netPkt; var np := tx.netPkts[id];
             r.netPkts == tx.netPkts[id := np.(didRetx := true, unackedFrags := Replace(np.unackedFrags, k, n))]
    ensures LinkInv(r)
  {
    var id := tx.unacked[k].netPkt;
    ReplaceContents(tx.netPkts[id].unackedFrags, k, n);
    assert ListSound(r, id);
    forall j | j in r.unacked ensures Linked(r, j) {
      if j != n { assert Linked(tx, j); }
    }
  }

  /** A retransmission replaces the fragment by itself under the next number and changes no other. */
  lemma RetransmitKeepsInv(tx: TxState, k: Sequence)
    requires Inv(tx) && k in tx.unacked && Linked(tx, k) && !RangeExceeded(tx)
    ensures Inv(Retransmit(tx, k).tx)
    ensures Live(Retransmit(tx, k).tx) == Live(tx)
  {
    var n := Next(tx.lastTxSeqNo);
    var r := Retransmit(tx, k).tx;
    RetransmitWindow(tx, k);
    RetransmitLinks(tx, k, n, r);
    InLive(r, n);
    forall x | x in Live(tx) ensures x in Live(r) {
      var j :| j in tx.unacked && tx.unacked[j].netPkt == x;
      if j != k { InLive(r, j); }
    }
    forall x | x in Live(r) ensures x in Live(tx) {
      var j :| j in r.unacked && r.unacked[j].netPkt == x;
      if j == n { InLive(tx, k); } else { InLive(tx, j); }
    }
  }

  // ---- findLostLpPackets ----

  lemma BumpKeepsInv(tx: TxState, ack: Sequence)
    requires Inv(tx)
    ensures Inv(BumpOlder(tx, ack))
    ensures Live(BumpOlder(tx, ack)) == Live(tx)
    ensures BumpOlder(tx, ack).unacked.Keys == tx.unacked.Keys
  {
    hide BumpOlder, WindowInv, Linked;
    var r := BumpOlder(tx, ack);
    BumpShape(tx, ack, r);
    SameWindow(tx, r);
    forall k | k in r.unacked ensures Linked(r, k) {
      assert Linked(tx, k);
      SameLink(tx, r, k);
    }
    assert Live(r) == Live(tx) by {
      forall x | x in Live(tx) ensures x in Live(r) {
        var j :| j in tx.unacked && tx.unacked[j].netPkt == x;
        InLive(r, j);
      }
    }
  }

  /** Bumping changes only the counts of greater numbers acknowledged. */
  lemma BumpShape(tx: TxState, ack: Sequence, r: TxState)
    requires r == BumpOlder(tx, ack)
    ensures r.unacked.Keys == tx.unacked.Keys && r == tx.(unacked := r.unacked)
    ensures forall k | k in tx.unacked ::
              r.unacked[k] == tx.unacked[k].(nGreaterSeqAcks := r.unacked[k].nGreaterSeqAcks)
  {
    hide IsOlder;
  }

  lemma SameWindow(tx: TxState, r: TxState)
    requires WindowInv(tx) && r.unacked.Keys == tx.unacked.Keys && r.first == tx.first && r.lastTxSeqNo == tx.lastTxSeqNo
    ensures WindowInv(r)
  {
    hide Distance;
    assert tx.unacked == map[] <==> tx.unacked.Keys == {};
    assert r.unacked == map[] <==> r.unacked.Keys == {};
  }

  lemma SameLink(tx: TxState, r: TxState, k: Sequence)
    requires k in tx.unacked && Linked(tx, k) && r.netPkts == tx.netPkts && r.unacked.Keys == tx.unacked.Keys
    requires forall j | j in tx.unacked ::
               r.unacked[j] == tx.unacked[j].(nGreaterSeqAcks := r.unacked[j].nGreaterSeqAcks)
    ensures Linked(r, k)
  {}
}
