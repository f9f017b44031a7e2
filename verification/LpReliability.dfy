/** LpReliability as an object: its fields, its loops over std::map iterators and lists, and the proof
    that each operation does what the functions on values say. */
module LpReliability {
  import opened Sequence64
  import opened LpPackets
  import opened SendWindow
  import opened SendWindowLaws
  import opened AckProcessing
  import opened AckQueue
  import opened Peers

  // ---- facts about the loops ----

  /** Stepping the iterator of findLostLpPackets: the next key in cyclic order is a larger one, no key
      is skipped, and the acknowledged one is not passed. */
  lemma ScanStep(keys: set<Sequence>, first: Sequence, at: Sequence, ack: Sequence, next: Sequence)
    requires first in keys && at in keys && ack in keys
    requires Distance(first, at) < Distance(first, ack)
    requires next == (if Successor(keys, at).Some? then Successor(keys, at).value else Begin(keys).value)
    ensures next in keys && Distance(first, at) < Distance(first, next) <= Distance(first, ack)
    ensures forall k | k in keys :: Distance(first, k) < Distance(first, next) <==> Distance(first, k) <= Distance(first, at)
  {
    var s := Successor(keys, at);
    if s.None? {
      assert ack <= at;
      assert next <= ack;
      assert ack < first;
    } else if at < first {
      assert s.value < first;
    }
    forall k | k in keys && Distance(first, at) < Distance(first, k) ensures Distance(first, next) <= Distance(first, k) {
      if s.Some? && at < k { assert s.value <= k; }
    }
  }

  /** What the scan has found and changed when it stands at key `at`. */
  ghost function LostBefore(m: map<Sequence, UnackedFrag>, first: Sequence, at: Sequence, threshold: nat): set<Sequence> {
    set k | k in m && Distance(first, k) < Distance(first, at) && m[k].nGreaterSeqAcks + 1 >= threshold
  }

  ghost function BumpedBefore(m: map<Sequence, UnackedFrag>, first: Sequence, at: Sequence): map<Sequence, UnackedFrag> {
    map k | k in m :: if Distance(first, k) < Distance(first, at) then Bumped(m[k]) else m[k]
  }

  function Bumped(f: UnackedFrag): UnackedFrag {
    f.(nGreaterSeqAcks := f.nGreaterSeqAcks + 1)
  }

  /** `next` follows `at` with no key in between. */
  ghost predicate Follows(m: map<Sequence, UnackedFrag>, first: Sequence, at: Sequence, next: Sequence) {
    forall k | k in m :: Distance(first, k) < Distance(first, next) <==> Distance(first, k) <= Distance(first, at)
  }

  lemma ScanLosses(m: map<Sequence, UnackedFrag>, first: Sequence, at: Sequence, next: Sequence, threshold: nat)
    requires at in m && Follows(m, first, at, next)
    ensures CyclicList(LostBefore(m, first, next, threshold), first)
            == CyclicList(LostBefore(m, first, at, threshold), first)
               + (if Bumped(m[at]).nGreaterSeqAcks >= threshold then [at] else [])
  {
    var before := LostBefore(m, first, at, threshold);
    if Bumped(m[at]).nGreaterSeqAcks >= threshold {
      assert LostBefore(m, first, next, threshold) == before + {at};
      CyclicListSnoc(before, first, at);
    } else {
      assert LostBefore(m, first, next, threshold) == before;
    }
  }

  lemma ScanBumps(m: map<Sequence, UnackedFrag>, first: Sequence, at: Sequence, next: Sequence)
    requires at in m && Follows(m, first, at, next)
    ensures BumpedBefore(m, first, at).Keys == m.Keys && BumpedBefore(m, first, at)[at] == m[at]
    ensures BumpedBefore(m, first, next) == BumpedBefore(m, first, at)[at := Bumped(m[at])]
  {}

  lemma BumpedKeys(m: map<Sequence, UnackedFrag>, first: Sequence, at: Sequence)
    requires at in m
    ensures BumpedBefore(m, first, at).Keys == m.Keys && BumpedBefore(m, first, at)[at] == m[at]
  {}

  lemma DistanceFromSelf(a: Sequence, b: Sequence)
    ensures Distance(a, a) == 0 <= Distance(a, b)
  {}

  lemma ScanStart(m: map<Sequence, UnackedFrag>, first: Sequence, threshold: nat)
    ensures CyclicList(LostBefore(m, first, first, threshold), first) == []
    ensures BumpedBefore(m, first, first) == m
  {
    assert LostBefore(m, first, first, threshold) == {};
  }

  lemma ScanEnd(tx: TxState, ack: Sequence, threshold: nat)
    requires tx.first.Some?
    ensures BumpOlder(tx, ack) == tx.(unacked := BumpedBefore(tx.unacked, tx.first.value, ack))
    ensures FindLost(tx, ack, threshold) == CyclicList(LostBefore(tx.unacked, tx.first.value, ack, threshold), tx.first.value)
  {
    assert LostKeys(tx, ack, threshold) == LostBefore(tx.unacked, tx.first.value, ack, threshold);
  }

  /** The iterator after `at`, with end() standing for begin(). */
  function Wrapped(keys: set<Sequence>, it: Option<Sequence>): Option<Sequence> {
    if it.None? then Begin(keys) else it
  }

  lemma ScanAdvances(m: map<Sequence, UnackedFrag>, first: Sequence, at: Sequence, ack: Sequence)
    requires first in m && at in m && ack in m && at != ack && Distance(first, at) <= Distance(first, ack)
    ensures var next := Wrapped(m.Keys, Successor(m.Keys, at));
            && next.Some? && next.value in m && Follows(m, first, at, next.value)
            && Distance(first, at) < Distance(first, next.value) <= Distance(first, ack)
  {
    assert m.Keys != {};
    ScanStep(m.Keys, first, at, ack, Wrapped(m.Keys, Successor(m.Keys, at)).value);
  }

  lemma {:induction false} WithoutSnoc(s: seq<Sequence>, x: Sequence, k: Sequence)
    ensures Without(s + [x], k) == Without(s, k) + (if x == k then [] else [x])
  {
    if s == [] {
      assert s + [x] == [x];
      assert [x][1..] == [];
    } else {
      assert (s + [x])[1..] == s[1..] + [x];
      WithoutSnoc(s[1..], x, k);
    }
  }

  lemma {:induction false} DeleteAllSnoc(tx: TxState, ks: seq<Sequence>, x: Sequence)
    ensures DeleteAll(tx, ks + [x]) == Delete(DeleteAll(tx, ks), x)
    decreases |ks|
  {
    if ks == [] {
      assert ks + [x] == [x];
      assert [x][1..] == [];
    } else {
      assert (ks + [x])[1..] == ks[1..] + [x];
      DeleteAllSnoc(Delete(tx, ks[0]), ks[1..], x);
    }
  }

  /** One iteration of the loop that drops the other fragments of a packet. */
  lemma DropStep(tx: TxState, list: seq<Sequence>, i: nat, k: Sequence)
    requires Inv(tx) && k in tx.unacked && Linked(tx, k)
    requires list == tx.netPkts[tx.unacked[k].netPkt].unackedFrags && i <= |list|
    ensures WindowInv(DeleteAll(tx, Without(list[..i], k)))
    ensures k in DeleteAll(tx, Without(list[..i], k)).unacked
    ensures i < |list| ==>
              if list[i] == k then Without(list[..i + 1], k) == Without(list[..i], k)
              else && Without(list[..i + 1], k) == Without(list[..i], k) + [list[i]]
                   && list[i] in DeleteAll(tx, Without(list[..i], k)).unacked
                   && DeleteAll(tx, Without(list[..i + 1], k)) == Delete(DeleteAll(tx, Without(list[..i], k)), list[i])
  {
    WithoutContents(list[..i], k);
    DeleteAllKeepsWindow(tx, Without(list[..i], k));
    if i < |list| {
      assert list[..i + 1] == list[..i] + [list[i]];
      WithoutSnoc(list[..i], list[i], k);
      DeleteAllSnoc(tx, Without(list[..i], k), list[i]);
    }
  }

  lemma DropStart(tx: TxState, list: seq<Sequence>, k: Sequence)
    ensures Without(list[..0], k) == [] && DeleteAll(tx, []) == tx
  {}

  /** An acknowledged fragment off its packet's list, and the packet counted if that was its last. */
  ghost function Credited(tx: TxState, k: Sequence): TxState
    requires k in tx.unacked && Linked(tx, k)
  {
    var id := tx.unacked[k].netPkt;
    var np := tx.netPkts[id].(unackedFrags := SwapRemove(tx.netPkts[id].unackedFrags, k));
    var tx1 := tx.(netPkts := tx.netPkts[id := np]);
    if np.unackedFrags != [] then tx1
    else if np.didRetx then tx1.(nRetransmitted := tx1.nRetransmitted + 1)
    else tx1.(nAcknowledged := tx1.nAcknowledged + 1)
  }

  lemma AcknowledgedDeletes(tx: TxState, k: Sequence)
    requires WindowInv(tx) && k in tx.unacked && Linked(tx, k)
    ensures Acknowledged(tx, k).tx == Delete(Credited(tx, k), k)
    ensures WindowInv(Credited(tx, k)) && Credited(tx, k).unacked == tx.unacked
  {
    hide Delete;
  }

  /** A lost fragment stored under its new number, before the old one is deleted. */
  ghost function StoredAgain(tx: TxState, k: Sequence): TxState
    requires k in tx.unacked && Linked(tx, k)
  {
    var newTxSeq := Next(tx.lastTxSeqNo);
    var np := tx.netPkts[tx.unacked[k].netPkt];
    if RangeExceeded(tx) then
      tx.(lastTxSeqNo := newTxSeq,
          unacked := tx.unacked[k := tx.unacked[k].(pkt := Resent(tx, k).pkt, rtoTimer := false)])
    else
      Insert(tx, newTxSeq, Resent(tx, k)).(netPkts := tx.netPkts[tx.unacked[k].netPkt :=
        np.(didRetx := true, unackedFrags := Replace(np.unackedFrags, k, newTxSeq))])
  }

  lemma RetransmitInSteps(tx: TxState, k: Sequence, acks: AckState, mtu: int)
    requires k in tx.unacked && Linked(tx, k)
    ensures var r := Retransmit(tx, k);
            && r.ok == !RangeExceeded(tx)
            && (r.ok ==> && r.tx == Delete(StoredAgain(tx, k), k) && r.removed == [k]
                         && SendAll(acks, Packets(r.resent), mtu) == AckQueue.SendLpPacket(acks, Resent(tx, k).pkt, mtu))
            && (!r.ok ==> && r.tx == StoredAgain(tx, k) && r.removed == []
                          && SendAll(acks, Packets(r.resent), mtu) == acks)
  {
    hide Delete, AckQueue.SendLpPacket;
    var pkt := Resent(tx, k).pkt;
    assert Packets([Sent(tx.unacked[k].netPkt, pkt)]) == [pkt];
    assert [pkt][1..] == [];
  }

  lemma AttachCountIs(queueLength: nat, pkt: LpPacket, mtu: int, done: nat)
    requires done <= queueLength && (done == 0 || RemainingSpace(pkt, mtu) >= ACK_SIZE * done)
    requires done == queueLength || RemainingSpace(pkt, mtu) < ACK_SIZE * (done + 1)
    ensures AttachCount(queueLength, pkt, mtu) == done
  {
    hide RemainingSpace;
  }

  lemma WindowPart(tx: TxState)
    requires Inv(tx)
    ensures WindowInv(tx)
  {}

  lemma WindowOnly(tx: TxState, r: TxState)
    requires WindowInv(tx) && r.unacked == tx.unacked && r.first == tx.first && r.lastTxSeqNo == tx.lastTxSeqNo
    ensures WindowInv(r)
  {}

  lemma {:induction false} SendAllAppend(a: AckState, p: seq<LpPacket>, q: seq<LpPacket>, mtu: int)
    ensures SendAll(a, p + q, mtu) == SendAll(SendAll(a, p, mtu), q, mtu)
    decreases |p|
  {
    if p == [] {
      assert p + q == q;
    } else {
      assert (p + q)[1..] == p[1..] + q;
      SendAllAppend(SendLpPacket(a, p[0], mtu), p[1..], q, mtu);
    }
  }

  lemma {:induction false} PacketsAppend(p: seq<Sent>, q: seq<Sent>)
    ensures Packets(p + q) == Packets(p) + Packets(q)
  {
    if p == [] {
      assert p + q == q;
    } else {
      assert (p + q)[1..] == p[1..] + q;
      PacketsAppend(p[1..], q);
    }
  }

  /** What an unfinished loop over Acks or lost fragments still has to contribute. */
  ghost predicate Continues(whole: AckResult, sent: seq<Sent>, rest: AckResult) {
    whole.tx == rest.tx && whole.ok == rest.ok && whole.resent == sent + rest.resent
  }

  lemma LoseAllUnfold(tx: TxState, opt: Options, lost: seq<Sequence>, removed: set<Sequence>)
    requires Inv(tx) && Accounted(tx, lost, removed) && lost != []
    ensures lost[0] in removed ==>
              && Accounted(tx, lost[1..], removed)
              && LoseAll(tx, opt, lost, removed) == LoseAll(tx, opt, lost[1..], removed)
    ensures lost[0] !in removed ==>
              && lost[0] in tx.unacked && Linked(tx, lost[0])
              && var r := Lost(tx, opt, lost[0]);
                 if !r.ok then LoseAll(tx, opt, lost, removed) == AckResult(r.tx, r.resent, r.outcomes, false)
                 else && Inv(r.tx) && Accounted(r.tx, lost[1..], removed + Elements(r.removed))
                      && Continues(LoseAll(tx, opt, lost, removed), r.resent,
                                   LoseAll(r.tx, opt, lost[1..], removed + Elements(r.removed)))
  {
    if lost[0] !in removed {
      assert Linked(tx, lost[0]);
      LostKeepsInv(tx, opt, lost[0]);
    }
  }

  lemma ContinuesStep(whole: AckResult, sent: seq<Sent>, mid: AckResult, more: seq<Sent>, rest: AckResult)
    requires Continues(whole, sent, mid) && Continues(mid, more, rest)
    ensures Continues(whole, sent + more, rest)
  {
    assert sent + (more + rest.resent) == (sent + more) + rest.resent;
  }

  lemma SendMore(a: AckState, sent: seq<Sent>, more: seq<Sent>, mtu: int)
    ensures SendAll(SendAll(a, Packets(sent), mtu), Packets(more), mtu) == SendAll(a, Packets(sent + more), mtu)
  {
    PacketsAppend(sent, more);
    SendAllAppend(a, Packets(sent), Packets(more), mtu);
  }

  lemma ProcessAcksUnfold(tx: TxState, opt: Options, acks: seq<Sequence>)
    requires Inv(tx) && acks != []
    ensures var r := ProcessAck(tx, opt, acks[0]);
            if !r.ok then ProcessAcks(tx, opt, acks) == r
            else && Inv(r.tx)
                 && Continues(ProcessAcks(tx, opt, acks), r.resent, ProcessAcks(r.tx, opt, acks[1..]))
  {
    ProcessAckKeepsInv(tx, opt, acks[0]);
  }

  lemma ContinuesStart(whole: AckResult)
    ensures Continues(whole, [], whole)
  {}

  lemma ContinuesEnd(whole: AckResult, sent: seq<Sent>, rest: AckResult)
    requires Continues(whole, sent, rest)
    ensures whole.tx == rest.tx && whole.ok == rest.ok && whole.resent == sent + rest.resent
  {}

  lemma SendNone(a: AckState, mtu: int)
    ensures SendAll(a, Packets([]), mtu) == a
  {}

  lemma AckNone(tx: TxState, opt: Options)
    requires Inv(tx)
    ensures ProcessAcks(tx, opt, []) == AckResult(tx, [], [], true)
  {}

  lemma LoseNone(tx: TxState, opt: Options, removed: set<Sequence>)
    requires Inv(tx) && Accounted(tx, [], removed)
    ensures LoseAll(tx, opt, [], removed) == AckResult(tx, [], [], true)
  {}

  lemma FirstAfterInsert(tx: TxState, k: Sequence, m: map<Sequence, UnackedFrag>)
    requires k !in tx.unacked && m.Keys == tx.unacked.Keys + {k}
    ensures |m| == 1 <==> tx.unacked == map[]
    ensures |m| == 1 ==> Begin(m.Keys) == Some(k)
  {
    assert |m.Keys| == |tx.unacked.Keys| + 1;
    if |m| == 1 { assert m.Keys == {k}; }
  }

  lemma SendFragsNone(tx: TxState, id: nat)
    requires id in tx.netPkts
    ensures SendFrags(tx, id, []) == SendResult(tx, [], true)
  {}

  lemma SendFragsUnfold(tx: TxState, id: nat, frags: seq<LpPacket>)
    requires Inv(tx) && id in tx.netPkts && ListSound(tx, id) && frags != []
    ensures var frag := SetTxSequence(frags[0], Next(tx.lastTxSeqNo));
            if RangeExceeded(tx) then
              SendFrags(tx, id, frags) == SendResult(tx.(lastTxSeqNo := Next(tx.lastTxSeqNo)), [frag] + frags[1..], false)
            else
              var tx1 := SendOne(tx, id, frags[0]);
              && Inv(tx1) && id in tx1.netPkts && ListSound(tx1, id)
              && var rest := SendFrags(tx1, id, frags[1..]);
                 SendFrags(tx, id, frags) == SendResult(rest.tx, [frag] + rest.frags, rest.ok)
  {
    if !RangeExceeded(tx) { SendOneKeepsInv(tx, id, frags[0]); }
  }

  class LpReliability {
    const options: Options
    const mtu: int
    var unackedFrags: map<Sequence, UnackedFrag>
    var firstUnackedFrag: Option<Sequence>
    var lastTxSeqNo: Sequence
    var netPkts: map<nat, NetPkt>
    var nNetPkts: nat
    var nAcknowledged: nat
    var nRetransmitted: nat
    var nRetxExhausted: nat
    var ackQueue: seq<Sequence>
    var idleAckTimer: bool
    var offered: seq<LpPacket>
    var recentRecvSeqs: map<Sequence, int>
    var recentRecvSeqsQueue: seq<Sequence>

    ghost function Tx(): TxState
      reads this
    {
      TxState(unackedFrags, firstUnackedFrag, lastTxSeqNo, netPkts, nNetPkts,
              nAcknowledged, nRetransmitted, nRetxExhausted)
    }

    ghost function Acks(): AckState
      reads this
    {
      AckState(ackQueue, idleAckTimer, offered)
    }

    ghost function Memory(): Recent
      reads this
    {
      Recent(recentRecvSeqs, recentRecvSeqsQueue)
    }

    ghost function State(): Peer
      reads this
    {
      Peer(Tx(), Acks(), Memory())
    }

    constructor (options: Options, mtu: int)
      requires ValidMtu(mtu)
      ensures State() == NEW_PEER && this.options == options && this.mtu == mtu
    {
      this.options := options;
      this.mtu := mtu;
      unackedFrags := map[];
      firstUnackedFrag := None;
      lastTxSeqNo := MODULUS - 1;
      netPkts := map[];
      nNetPkts, nAcknowledged, nRetransmitted, nRetxExhausted := 0, 0, 0, 0;
      ackQueue, idleAckTimer, offered := [], false, [];
      recentRecvSeqs, recentRecvSeqsQueue := map[], [];
    }

    /** Numbers a fragment, or reports that the number range is exceeded. */
    method AssignTxSequence(frag: LpPacket) returns (numbered: LpPacket, ok: bool)
      requires WindowInv(Tx())
      modifies this`lastTxSeqNo
      ensures lastTxSeqNo == Next(old(lastTxSeqNo))
      ensures numbered == SetTxSequence(frag, lastTxSeqNo)
      ensures ok <==> lastTxSeqNo !in unackedFrags
      ensures ok <==> !RangeExceeded(old(Tx()))
    {
      ThrowsIffOutstanding(Tx());
      lastTxSeqNo := Next(lastTxSeqNo);
      numbered := frag.(txSequence := Some(lastTxSeqNo));
      ok := !(|unackedFrags| > 0 && lastTxSeqNo == firstUnackedFrag.value);
    }

    /** Erases a fragment; if it was the start of the window, moves the start to the next iterator, or
        to begin() when that is end(). */
    method DeleteUnackedFrag(k: Sequence)
      requires WindowInv(Tx()) && k in unackedFrags
      modifies this`unackedFrags, this`firstUnackedFrag
      ensures Tx() == Delete(old(Tx()), k)
    {
      var firstUnackedTxSeq := firstUnackedFrag.value;
      unackedFrags := unackedFrags - {k};
      var next := Successor(unackedFrags.Keys, k);
      if |unackedFrags| > 0 && firstUnackedTxSeq == k {
        assert unackedFrags.Keys != {};
        WrappedSuccessorIsNearest(unackedFrags.Keys, k);
        if next.None? {
          firstUnackedFrag := Begin(unackedFrags.Keys);
        } else {
          firstUnackedFrag := next;
        }
      } else if |unackedFrags| == 0 {
        firstUnackedFrag := None;
      }
    }

    /** Scans from the start of the window, wrapping at end(), up to the acknowledged fragment. */
    method FindLostLpPackets(ack: Sequence) returns (lost: seq<Sequence>)
      requires WindowInv(Tx()) && ack in unackedFrags
      modifies this`unackedFrags
      ensures Tx() == BumpOlder(old(Tx()), ack)
      ensures lost == FindLost(old(Tx()), ack, options.seqNumLossThreshold)
    {
      hide BumpedBefore, LostBefore, CyclicList, Follows, BumpOlder, FindLost, Distance;
      ghost var tx := Tx();
      ghost var m := unackedFrags;
      ghost var f := firstUnackedFrag.value;
      lost := [];
      var it := firstUnackedFrag;
      ScanStart(m, f, options.seqNumLossThreshold);
      ScanEnd(tx, ack, options.seqNumLossThreshold);
      DistanceFromSelf(f, ack);
      ghost var at := f;
      while true
        invariant Wrapped(m.Keys, it) == Some(at)
        invariant at in m && 0 <= Distance(f, at) <= Distance(f, ack)
        invariant unackedFrags == BumpedBefore(m, f, at)
        invariant lost == CyclicList(LostBefore(m, f, at, options.seqNumLossThreshold), f)
        invariant Tx() == tx.(unacked := unackedFrags)
        decreases Distance(f, ack) - Distance(f, at)
      {
        BumpedKeys(m, f, at);
        if it.None? {
          it := Begin(unackedFrags.Keys);
        }
        var cur := it.value;
        if cur == ack { break; }
        ScanAdvances(m, f, cur, ack);
        unackedFrags := unackedFrags[cur := Bumped(unackedFrags[cur])];
        if unackedFrags[cur].nGreaterSeqAcks >= options.seqNumLossThreshold {
          lost := lost + [cur];
        }
        assert unackedFrags.Keys == m.Keys;
        it := Successor(unackedFrags.Keys, cur);
        at := Wrapped(m.Keys, it).value;
        ScanBumps(m, f, cur, at);
        ScanLosses(m, f, cur, at, options.seqNumLossThreshold);
      }
    }

    /** Removes a fragment from its packet and from the window, and counts a completed packet. */
    method OnLpPacketAcknowledged(k: Sequence)
      requires Inv(Tx()) && k in unackedFrags && Linked(Tx(), k)
      modifies this`unackedFrags, this`firstUnackedFrag, this`netPkts, this`nAcknowledged, this`nRetransmitted
      ensures Tx() == Acknowledged(old(Tx()), k).tx
    {
      hide Inv, WindowInv, Linked, Delete, Acknowledged, Credited;
      WindowPart(Tx());
      AcknowledgedDeletes(Tx(), k);
      RemoveFromNetPkt(k);
      DeleteUnackedFrag(k);
    }

    /** The list of the packet, and the counters. */
    method RemoveFromNetPkt(k: Sequence)
      requires k in unackedFrags && Linked(Tx(), k)
      modifies this`netPkts, this`nAcknowledged, this`nRetransmitted
      ensures Tx() == Credited(old(Tx()), k)
    {
      var id := unackedFrags[k].netPkt;
      var list := netPkts[id].unackedFrags;
      var i := IndexOf(list, k);
      list := list[i := list[|list| - 1]];
      list := list[..|list| - 1];
      netPkts := netPkts[id := netPkts[id].(unackedFrags := list)];
      if list == [] {
        if netPkts[id].didRetx {
          nRetransmitted := nRetransmitted + 1;
        } else {
          nAcknowledged := nAcknowledged + 1;
        }
      }
    }

    /** Attaches as many queued Acks as fit. */
    method Piggyback(pkt: LpPacket) returns (r: LpPacket)
      requires !IsBare(pkt)
      modifies this`ackQueue
      ensures var n := AttachCount(old(|ackQueue|), pkt, mtu);
              r == AddAcks(pkt, old(ackQueue)[..n]) && ackQueue == old(ackQueue)[n..]
    {
      hide WireSize, IsBare, AttachCount, SizeOfVarNumber;
      r := pkt;
      var pktSize := WireSize(pkt);
      var reservedSpace := SizeOfVarNumber(MAX_NDN_PACKET_SIZE) - SizeOfVarNumber(pktSize);
      var remainingSpace := (if mtu == MTU_UNLIMITED then MAX_NDN_PACKET_SIZE else mtu) - reservedSpace;
      remainingSpace := remainingSpace - pktSize;
      ghost var queue := ackQueue;
      ghost var done := 0;
      while ackQueue != []
        invariant 0 <= done <= |queue| && ackQueue == queue[done..]
        invariant r == AddAcks(pkt, queue[..done])
        invariant remainingSpace == RemainingSpace(pkt, mtu) - ACK_SIZE * done
        invariant done == 0 || remainingSpace >= 0
        decreases |ackQueue|
      {
        if ACK_SIZE > remainingSpace { break; }
        assert queue[..done + 1] == queue[..done] + [ackQueue[0]];
        assert pkt.acks + queue[..done + 1] == (pkt.acks + queue[..done]) + [ackQueue[0]];
        r := r.(acks := r.acks + [ackQueue[0]]);
        ackQueue := ackQueue[1..];
        remainingSpace := remainingSpace - ACK_SIZE;
        done := done + 1;
      }
      AttachCountIs(|queue|, pkt, mtu, done);
    }

    /** The link service's sendLpPacket, up to the point where it encodes the packet. */
    method SendLpPacket(pkt: LpPacket)
      requires !IsBare(pkt)
      modifies this`ackQueue, this`offered
      ensures Acks() == AckQueue.SendLpPacket(old(Acks()), pkt, mtu)
    {
      var withAcks := Piggyback(pkt);
      offered := offered + [withAcks];
    }

    /** The idle timer expires: IDLE packets are requested until the queue is empty. If one of them takes no
        Ack along, every further one is the same and the loop does not end; the model stops there. */
    method IdleAckTimerExpires() returns (ends: bool)
      requires ValidMtu(mtu)
      modifies this`ackQueue, this`offered, this`idleAckTimer
      ensures ends <==> old(ackQueue) == [] || CanFlush(mtu)
      ensures CanFlush(mtu) ==> Acks() == IdleTimeout(old(Acks()), mtu)
      ensures ends ==> ackQueue == []
      ensures !ends ==> Acks() == AckQueue.SendLpPacket(old(Acks()).(idleTimer := false), EMPTY_PACKET, mtu)
                        && ackQueue == old(ackQueue)
    {
      idleAckTimer := false;
      ghost var start := Acks();
      while ackQueue != []
        invariant CanFlush(mtu) ==> Flush(Acks(), mtu) == Flush(start, mtu)
        invariant !CanFlush(mtu) ==> Acks() == start
        decreases |ackQueue|
      {
        IdlePacketTakesAck(Acks(), mtu);
        var pending := |ackQueue|;
        SendLpPacket(EMPTY_PACKET);
        if |ackQueue| == pending { return false; }
      }
      ends := true;
    }

    /** A lost fragment is resent under a new number, or its whole packet is given up. */
    method OnLpPacketLost(k: Sequence) returns (removed: seq<Sequence>, ok: bool)
      requires Inv(Tx()) && k in unackedFrags && Linked(Tx(), k)
      modifies this`unackedFrags, this`firstUnackedFrag, this`lastTxSeqNo, this`netPkts, this`nRetxExhausted,
               this`ackQueue, this`offered
      ensures var r := Lost(old(Tx()), options, k);
              && Tx() == r.tx && ok == r.ok
              && (ok ==> removed == r.removed)
              && Acks() == SendAll(old(Acks()), Packets(r.resent), mtu)
    {
      removed := [];
      if unackedFrags[k].retxCount >= options.maxRetx {
        removed := DropNetPkt(k);
        ok := true;
      } else {
        removed, ok := Resend(k);
      }
    }

    /** The branch of onLpPacketLost that exceeds the allowed retransmissions. */
    method DropNetPkt(k: Sequence) returns (removed: seq<Sequence>)
      requires Inv(Tx()) && k in unackedFrags && Linked(Tx(), k)
      modifies this`unackedFrags, this`firstUnackedFrag, this`nRetxExhausted
      ensures Tx() == GiveUp(old(Tx()), k).tx && removed == GiveUp(old(Tx()), k).removed
    {
      ghost var tx := Tx();
      var list := netPkts[unackedFrags[k].netPkt].unackedFrags;
      hide Inv, WindowInv, LinkInv, ListSound, Without, DeleteAll, Delete;
      removed := DropOthers(list, k);
      nRetxExhausted := nRetxExhausted + 1;
      removed := removed + [k];
      WindowOnly(DeleteAll(tx, Without(list, k)), Tx());
      DeleteUnackedFrag(k);
    }

    /** The loop over the other fragments of the packet. */
    method DropOthers(list: seq<Sequence>, k: Sequence) returns (removed: seq<Sequence>)
      requires Inv(Tx()) && k in unackedFrags && Linked(Tx(), k)
      requires list == netPkts[unackedFrags[k].netPkt].unackedFrags
      modifies this`unackedFrags, this`firstUnackedFrag
      ensures removed == Without(list, k) && Tx() == DeleteAll(old(Tx()), removed)
      ensures WindowInv(Tx()) && k in unackedFrags
    {
      hide Inv, WindowInv, LinkInv, ListSound, Without, DeleteAll, Delete, NoDuplicates;
      ghost var tx := Tx();
      removed := [];
      var i := 0;
      DropStart(tx, list, k);
      while i < |list|
        invariant 0 <= i <= |list|
        invariant removed == Without(list[..i], k)
        invariant Tx() == DeleteAll(tx, removed)
      {
        DropStep(tx, list, i, k);
        if list[i] != k {
          DeleteUnackedFrag(list[i]);
          removed := removed + [list[i]];
        }
        i := i + 1;
      }
      DropStep(tx, list, i, k);
      assert list[..i] == list;
    }

    /** The branch of onLpPacketLost that retransmits. */
    method Resend(k: Sequence) returns (removed: seq<Sequence>, ok: bool)
      requires Inv(Tx()) && k in unackedFrags && Linked(Tx(), k)
      modifies this`unackedFrags, this`firstUnackedFrag, this`lastTxSeqNo, this`netPkts, this`ackQueue, this`offered
      ensures var r := Retransmit(old(Tx()), k);
              && Tx() == r.tx && ok == r.ok && removed == r.removed
              && Acks() == SendAll(old(Acks()), Packets(r.resent), mtu)
    {
      hide Inv, WindowInv, Linked, Delete, Retransmit, StoredAgain, SendAll;
      WindowPart(Tx());
      RetransmitInSteps(Tx(), k, Acks(), mtu);
      ghost var tx := Tx();
      var pkt;
      pkt, ok := StoreAgain(k);
      if !ok { return [], false; }
      removed := [k];
      DeleteUnackedFrag(k);
      SendLpPacket(pkt);
    }

    /** Stores the fragment under a new number, in the window and in the list of its packet. */
    method StoreAgain(k: Sequence) returns (pkt: LpPacket, ok: bool)
      requires WindowInv(Tx()) && k in unackedFrags && Linked(Tx(), k)
      modifies this`unackedFrags, this`lastTxSeqNo, this`netPkts
      ensures ok == !RangeExceeded(old(Tx())) && Tx() == StoredAgain(old(Tx()), k)
      ensures pkt == Resent(old(Tx()), k).pkt && !IsBare(pkt)
      ensures ok ==> WindowInv(Tx()) && k in unackedFrags
    {
      hide WindowInv, NoDuplicates;
      ghost var tx := Tx();
      var txFrag := unackedFrags[k];
      var id := txFrag.netPkt;
      pkt, ok := AssignTxSequence(txFrag.pkt);
      if !ok {
        unackedFrags := unackedFrags[k := txFrag.(pkt := pkt, rtoTimer := false)];
        return;
      }
      var newTxSeq := lastTxSeqNo;
      InsertKeepsWindow(tx, Resent(tx, k));
      unackedFrags := unackedFrags[newTxSeq := UnackedFrag(pkt, true, txFrag.retxCount + 1, 0, id)];
      var list := netPkts[id].unackedFrags;
      netPkts := netPkts[id := netPkts[id].(didRetx := true, unackedFrags := list[IndexOf(list, k) := newTxSeq])];
      WindowOnly(Insert(tx, newTxSeq, Resent(tx, k)), Tx());
    }

    /** One iteration of handleOutgoing: number the fragment, store it, add it to its packet. */
    method StoreFrag(frag: LpPacket, id: nat) returns (numbered: LpPacket, ok: bool)
      requires Inv(Tx()) && id in netPkts
      modifies this`unackedFrags, this`firstUnackedFrag, this`lastTxSeqNo, this`netPkts
      ensures numbered == SetTxSequence(frag, Next(old(lastTxSeqNo))) && ok == !RangeExceeded(old(Tx()))
      ensures Tx() == if ok then SendOne(old(Tx()), id, frag)
                      else old(Tx()).(lastTxSeqNo := Next(old(lastTxSeqNo)))
    {
      ghost var before := Tx();
      numbered, ok := AssignTxSequence(frag);
      if !ok { return; }
      unackedFrags := unackedFrags[lastTxSeqNo := UnackedFrag(numbered, true, 0, 0, id)];
      FirstAfterInsert(before, lastTxSeqNo, unackedFrags);
      if |unackedFrags| == 1 {
        firstUnackedFrag := Begin(unackedFrags.Keys);
      }
      netPkts := netPkts[id := netPkts[id].(unackedFrags := netPkts[id].unackedFrags + [lastTxSeqNo])];
    }

    /** Numbers and stores the fragments of a network packet. */
    method HandleOutgoing(frags: seq<LpPacket>, isInterest: bool) returns (numbered: seq<LpPacket>, ok: bool)
      requires Inv(Tx())
      modifies this`unackedFrags, this`firstUnackedFrag, this`lastTxSeqNo, this`netPkts, this`nNetPkts
      ensures var r := SendWindow.HandleOutgoing(old(Tx()), frags, isInterest);
              Tx() == r.tx && numbered == r.frags && ok == r.ok
    {
      hide Inv, ListSound, RangeExceeded, SendOne, SendFrags;
      var id := nNetPkts;
      AllocateKeepsInv(Tx(), isInterest);
      netPkts := netPkts[id := NetPkt([], isInterest, false)];
      nNetPkts := nNetPkts + 1;
      ghost var whole := SendFrags(Tx(), id, frags);
      numbered, ok := [], true;
      var i := 0;
      assert frags[i..] == frags;
      while i < |frags|
        invariant 0 <= i <= |frags| && ok
        invariant Inv(Tx()) && id in netPkts && ListSound(Tx(), id)
        invariant var rest := SendFrags(Tx(), id, frags[i..]);
                  whole.tx == rest.tx && whole.ok == rest.ok && whole.frags == numbered + rest.frags
      {
        assert frags[i..][1..] == frags[i + 1..];
        SendFragsUnfold(Tx(), id, frags[i..]);
        var frag;
        frag, ok := StoreFrag(frags[i], id);
        if !ok {
          assert numbered + ([frag] + frags[i + 1..]) == numbered + [frag] + frags[i + 1..];
          numbered := numbered + [frag] + frags[i + 1..];
          return;
        }
        ghost var rest := SendFrags(Tx(), id, frags[i + 1..]);
        assert numbered + ([frag] + rest.frags) == (numbered + [frag]) + rest.frags;
        numbered := numbered + [frag];
        i := i + 1;
      }
      assert frags[i..] == [];
      SendFragsNone(Tx(), id);
      assert numbered + [] == numbered;
    }

    /** Processes one Ack of an incoming packet. */
    method ProcessAck(ack: Sequence) returns (ok: bool)
      requires Inv(Tx())
      modifies this`unackedFrags, this`firstUnackedFrag, this`lastTxSeqNo, this`netPkts, this`nAcknowledged,
               this`nRetransmitted, this`nRetxExhausted, this`ackQueue, this`offered
      ensures var r := AckProcessing.ProcessAck(old(Tx()), options, ack);
              && Tx() == r.tx && ok == r.ok
              && Acks() == SendAll(old(Acks()), Packets(r.resent), mtu)
    {
      hide LinkInv, WindowInv, BumpOlder, Acknowledged, FindLost, LoseAll, SendAll, Accounted, Linked;
      ghost var tx := Tx();
      if ack !in unackedFrags {
        SendNone(Acks(), mtu);
        return true;
      }
      AbsorbKeepsInv(tx, options, ack);
      BumpKeepsInv(tx, ack);
      LinkedFromInv(BumpOlder(tx, ack), ack);
      var lost := FindLostLpPackets(ack);
      OnLpPacketAcknowledged(ack);
      ok := LoseAllOf(lost);
    }

    /** The loop over fragments considered lost. */
    method LoseAllOf(lost: seq<Sequence>) returns (ok: bool)
      requires Inv(Tx()) && Accounted(Tx(), lost, {})
      modifies this`unackedFrags, this`firstUnackedFrag, this`lastTxSeqNo, this`netPkts, this`nRetxExhausted,
               this`ackQueue, this`offered
      ensures var r := LoseAll(old(Tx()), options, lost, {});
              && Tx() == r.tx && ok == r.ok
              && Acks() == SendAll(old(Acks()), Packets(r.resent), mtu)
    {
      hide Inv, Accounted, LoseAll, Lost, SendAll, Continues;
      ghost var acks := Acks();
      ghost var whole := LoseAll(Tx(), options, lost, {});
      ghost var sent: seq<Sent> := [];
      var removedLpPackets: set<Sequence> := {};
      var i := 0;
      ContinuesStart(whole);
      SendNone(acks, mtu);
      assert lost[i..] == lost;
      while i < |lost|
        invariant 0 <= i <= |lost|
        invariant Inv(Tx()) && Accounted(Tx(), lost[i..], removedLpPackets)
        invariant Continues(whole, sent, LoseAll(Tx(), options, lost[i..], removedLpPackets))
        invariant Acks() == SendAll(acks, Packets(sent), mtu)
      {
        assert lost[i..][1..] == lost[i + 1..];
        LoseAllUnfold(Tx(), options, lost[i..], removedLpPackets);
        if lost[i] !in removedLpPackets {
          ghost var r := Lost(Tx(), options, lost[i]);
          ghost var mid := LoseAll(Tx(), options, lost[i..], removedLpPackets);
          var removed;
          removed, ok := OnLpPacketLost(lost[i]);
          SendMore(acks, sent, r.resent, mtu);
          if !ok {
            ContinuesEnd(whole, sent, mid);
            return;
          }
          removedLpPackets := removedLpPackets + (set x | x in removed);
          assert (set x | x in removed) == Elements(r.removed);
          ContinuesStep(whole, sent, mid, r.resent, LoseAll(Tx(), options, lost[i + 1..], removedLpPackets));
          sent := sent + r.resent;
        }
        i := i + 1;
      }
      assert lost[i..] == [];
      LoseNone(Tx(), options, removedLpPackets);
      ContinuesEnd(whole, sent, LoseAll(Tx(), options, [], removedLpPackets));
      assert sent + [] == sent;
      ok := true;
    }

    /** The eviction loop over recently received Sequence numbers. */
    method EvictOld(now: int, rto: int)
      modifies this`recentRecvSeqs, this`recentRecvSeqsQueue
      ensures Memory() == Evict(old(Memory()), now, rto)
    {
      ghost var start := Memory();
      while recentRecvSeqsQueue != []
        invariant Evict(Memory(), now, rto) == Evict(start, now, rto)
        decreases |recentRecvSeqsQueue|
      {
        var front := recentRecvSeqsQueue[0];
        if front !in recentRecvSeqs {
          recentRecvSeqs := recentRecvSeqs[front := EPOCH];
        }
        if !(now > recentRecvSeqs[front] + rto) { break; }
        recentRecvSeqs := recentRecvSeqs - {front};
        recentRecvSeqsQueue := recentRecvSeqsQueue[1..];
      }
    }

    /** The loop over the Acks of a packet. */
    method ProcessAcksOf(list: seq<Sequence>) returns (ok: bool)
      requires Inv(Tx())
      modifies this
      ensures var r := ProcessAcks(old(Tx()), options, list);
              && ok == r.ok && Tx() == r.tx && Memory() == old(Memory())
              && Acks() == SendAll(old(Acks()), Packets(r.resent), mtu)
    {
      hide Inv, ProcessAcks, SendAll, Continues;
      ghost var acks := Acks();
      ghost var memory := Memory();
      ghost var whole := ProcessAcks(Tx(), options, list);
      ghost var sent: seq<Sent> := [];
      var i := 0;
      ContinuesStart(whole);
      SendNone(acks, mtu);
      assert list[i..] == list;
      while i < |list|
        invariant 0 <= i <= |list|
        invariant Inv(Tx()) && Memory() == memory
        invariant Continues(whole, sent, ProcessAcks(Tx(), options, list[i..]))
        invariant Acks() == SendAll(acks, Packets(sent), mtu)
      {
        ghost var mid := ProcessAcks(Tx(), options, list[i..]);
        ghost var r := AckProcessing.ProcessAck(Tx(), options, list[i]);
        assert list[i..][1..] == list[i + 1..];
        ProcessAcksUnfold(Tx(), options, list[i..]);
        ok := ProcessAck(list[i]);
        SendMore(acks, sent, r.resent, mtu);
        if !ok {
          ContinuesEnd(whole, sent, mid);
          return false;
        }
        ContinuesStep(whole, sent, mid, r.resent, ProcessAcks(Tx(), options, list[i + 1..]));
        sent := sent + r.resent;
        i := i + 1;
      }
      assert list[i..] == [];
      AckNone(Tx(), options);
      ContinuesEnd(whole, sent, ProcessAcks(Tx(), options, []));
      assert sent + [] == sent;
      ok := true;
    }

    /** Acks first, then the fragment itself; false means a duplicate. */
    method ProcessIncomingPacket(pkt: LpPacket, now: int, rto: int) returns (isNew: bool, ok: bool)
      requires Inv(Tx())
      modifies this
      ensures var r := ProcessIncoming(old(State()), options, mtu, pkt, now, rto);
              State() == r.peer && isNew == r.isNew && ok == r.ok
    {
      hide Inv, ProcessAcks, SendAll, Evict;
      var isDuplicate := false;
      ok := ProcessAcksOf(pkt.acks);
      if !ok { return false, false; }
      if pkt.fragment.Some? && pkt.txSequence.Some? {
        ackQueue := ackQueue + [pkt.txSequence.value];
        if pkt.sequence.Some? {
          isDuplicate := pkt.sequence.value in recentRecvSeqs;
          EvictOld(now, rto);
          if pkt.sequence.value !in recentRecvSeqs {
            recentRecvSeqs := recentRecvSeqs[pkt.sequence.value := now];
          }
          recentRecvSeqsQueue := recentRecvSeqsQueue + [pkt.sequence.value];
        }
        if !idleAckTimer {
          idleAckTimer := true;
        }
      }
      isNew := !isDuplicate;
    }
  }
}
