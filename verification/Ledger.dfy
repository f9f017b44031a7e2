/** A sender together with its past: every transmission it made, the fragments of every network
    packet it was given, and which packets it reported as delivered or given up. */
module Ledger {
  import opened Sequence64
  import opened LpPackets
  import opened SendWindow
  import opened SendWindowLaws
  import opened AckProcessing
  import opened Accounting

  datatype Past = Past(log: seq<Sent>, given: map<nat, seq<LpPacket>>, delivered: set<nat>, exhausted: set<nat>)

  const NO_PAST := Past([], map[], {}, {})

  ghost function DeliveredIds(outcomes: seq<Outcome>): set<nat> {
    set o | o in outcomes && o.Delivered? :: o.id
  }

  ghost function ExhaustedIds(outcomes: seq<Outcome>): set<nat> {
    set o | o in outcomes && o.Exhausted? :: o.id
  }

  ghost function Record(p: Past, resent: seq<Sent>, outcomes: seq<Outcome>): Past {
    p.(log := p.log + resent,
       delivered := p.delivered + DeliveredIds(outcomes),
       exhausted := p.exhausted + ExhaustedIds(outcomes))
  }

  lemma RecordTwice(p: Past, r1: seq<Sent>, o1: seq<Outcome>, r2: seq<Sent>, o2: seq<Outcome>)
    ensures Record(Record(p, r1, o1), r2, o2) == Record(p, r1 + r2, o1 + o2)
  {
    assert DeliveredIds(o1 + o2) == DeliveredIds(o1) + DeliveredIds(o2);
    assert ExhaustedIds(o1 + o2) == ExhaustedIds(o1) + ExhaustedIds(o2);
    assert (p.log + r1) + r2 == p.log + (r1 + r2);
  }

  lemma RecordNothing(p: Past)
    ensures Record(p, [], []) == p
  {
    assert p.log + [] == p.log;
    assert DeliveredIds([]) == {} && ExhaustedIds([]) == {};
  }

  // ---- the window is a view of the log ----

  /** Where in the log the outstanding transmission numbered `k` is. */
  ghost function LogIndex(tx: TxState, log: seq<Sent>, k: Sequence): int {
    |log| - 1 - Distance(k, tx.lastTxSeqNo)
  }

  ghost predicate InLog(tx: TxState, log: seq<Sent>, k: Sequence)
    requires k in tx.unacked
  {
    var i := LogIndex(tx, log, k);
    0 <= i && log[i] == Sent(tx.unacked[k].netPkt, tx.unacked[k].pkt)
  }

  ghost predicate Numbered(log: seq<Sent>) {
    forall i | 0 <= i < |log| :: log[i].pkt.txSequence == Some(i % MODULUS)
  }

  /** TxSequence numbers count the transmissions, and each outstanding fragment is the transmission
      that many places back in the log: cyclic order is the order of transmission. */
  ghost predicate MatchesLog(tx: TxState, log: seq<Sent>) {
    && Next(tx.lastTxSeqNo) == |log| % MODULUS
    && Numbered(log)
    && forall k | k in tx.unacked :: InLog(tx, log, k)
  }

  lemma MatchesLogShrink(tx: TxState, r: TxState, log: seq<Sent>)
    requires MatchesLog(tx, log) && r.lastTxSeqNo == tx.lastTxSeqNo
    requires forall k | k in r.unacked :: k in tx.unacked
               && r.unacked[k].netPkt == tx.unacked[k].netPkt && r.unacked[k].pkt == tx.unacked[k].pkt
    ensures MatchesLog(r, log)
  {
    forall k | k in r.unacked ensures InLog(r, log, k) { assert InLog(tx, log, k); }
  }

  lemma MatchesLogGrow(tx: TxState, r: TxState, log: seq<Sent>, f: UnackedFrag)
    requires MatchesLog(tx, log)
    requires r.lastTxSeqNo == Next(tx.lastTxSeqNo) && Next(tx.lastTxSeqNo) !in tx.unacked
    requires f.pkt.txSequence == Some(Next(tx.lastTxSeqNo))
    requires forall k | k in r.unacked && k != r.lastTxSeqNo :: k in tx.unacked
               && r.unacked[k].netPkt == tx.unacked[k].netPkt && r.unacked[k].pkt == tx.unacked[k].pkt
    requires r.lastTxSeqNo in r.unacked ==> r.unacked[r.lastTxSeqNo] == f
    ensures MatchesLog(r, log + [Sent(f.netPkt, f.pkt)])
  {
    var log' := log + [Sent(f.netPkt, f.pkt)];
    assert Next(r.lastTxSeqNo) == |log'| % MODULUS;
    forall k | k in r.unacked ensures InLog(r, log', k) {
      if k != r.lastTxSeqNo {
        assert InLog(tx, log, k);
        assert LogIndex(r, log', k) == LogIndex(tx, log, k);
      }
    }
  }

  /** Within the first 2^64 transmissions a number identifies its transmission. */
  lemma OutstandingIsLogged(tx: TxState, log: seq<Sent>, k: Sequence)
    requires MatchesLog(tx, log) && |log| <= MODULUS && k in tx.unacked && tx.unacked[k].pkt.txSequence == Some(k)
    ensures k < |log| && log[k] == Sent(tx.unacked[k].netPkt, tx.unacked[k].pkt)
  {
    assert InLog(tx, log, k);
    var i := LogIndex(tx, log, k);
    assert log[i].pkt.txSequence == Some(i % MODULUS);
    assert i % MODULUS == i;
  }

  /** Fewer than 2^64 transmissions leave a number free. */
  lemma NumbersRemain(tx: TxState, log: seq<Sent>)
    requires Inv(tx) && MatchesLog(tx, log)
    ensures FreeNumbers(tx) >= MODULUS - |log|
  {
    if tx.first.Some? {
      assert InLog(tx, log, tx.first.value);
    }
  }

  // ---- what is owed to each network packet ----

  ghost predicate Outstanding(tx: TxState, id: nat, f: LpPacket) {
    exists k :: k in tx.unacked && tx.unacked[k].netPkt == id && Core(tx.unacked[k].pkt) == Core(f)
  }

  ghost predicate Owed(tx: TxState, p: Past, got: set<LpPacket>, id: nat, f: LpPacket) {
    Outstanding(tx, id, f) || id in p.exhausted || Core(f) in got
  }

  ghost predicate AllOwed(tx: TxState, p: Past, got: set<LpPacket>) {
    forall id, f | id in p.given && f in p.given[id] :: Owed(tx, p, got, id, f)
  }

  ghost predicate FullyReceived(p: Past, got: set<LpPacket>, id: nat) {
    id in p.given && forall f | f in p.given[id] :: Core(f) in got
  }

  /** The counters count the reported packets, none of which is live or reported twice. */
  ghost predicate Tallied(tx: TxState, p: Past) {
    && (forall id: nat :: id in p.given <==> id < tx.nNetPkts)
    && p.delivered <= p.given.Keys && p.exhausted <= p.given.Keys
    && p.delivered !! Live(tx) && p.exhausted !! Live(tx) && p.delivered !! p.exhausted
    && |p.delivered| == tx.nAcknowledged + tx.nRetransmitted
    && |p.exhausted| == tx.nRetxExhausted
  }

  /** `got` are the fragments (as Core values) that the peer has received. Each fragment the sender was
      given is outstanding, received, or part of a packet given up; a packet reported as delivered has
      been received entirely. */
  ghost predicate Book(tx: TxState, p: Past, got: set<LpPacket>) {
    && MatchesLog(tx, p.log)
    && AllOwed(tx, p, got)
    && (forall id | id in p.delivered :: FullyReceived(p, got, id))
    && Tallied(tx, p)
  }

  lemma BookGrowsWithGot(tx: TxState, p: Past, got: set<LpPacket>, more: set<LpPacket>)
    requires Book(tx, p, got) && got <= more
    ensures Book(tx, p, more)
  {
    forall id | id in p.delivered ensures FullyReceived(p, more, id) {
      assert FullyReceived(p, got, id);
    }
    forall id, f | id in p.given && f in p.given[id] ensures Owed(tx, p, more, id, f) {
      assert Owed(tx, p, got, id, f);
    }
  }

  lemma BumpBook(tx: TxState, p: Past, got: set<LpPacket>, ack: Sequence)
    requires Inv(tx) && Book(tx, p, got)
    ensures Book(BumpOlder(tx, ack), p, got)
  {
    var r := BumpOlder(tx, ack);
    BumpKeepsInv(tx, ack);
    MatchesLogShrink(tx, r, p.log);
    forall id, f | id in p.given && f in p.given[id] ensures Owed(r, p, got, id, f) {
      assert Owed(tx, p, got, id, f);
      if Outstanding(tx, id, f) {
        var k :| k in tx.unacked && tx.unacked[k].netPkt == id && Core(tx.unacked[k].pkt) == Core(f);
        assert k in r.unacked && r.unacked[k].netPkt == id && Core(r.unacked[k].pkt) == Core(f);
      }
    }
  }

  lemma AcknowledgedOwed(tx: TxState, p: Past, got: set<LpPacket>, k: Sequence, r: TxState, p': Past)
    requires k in tx.unacked && Core(tx.unacked[k].pkt) in got && AllOwed(tx, p, got)
    requires r.unacked == tx.unacked - {k}
    requires p'.given == p.given && p'.exhausted == p.exhausted
    ensures AllOwed(r, p', got)
  {
    forall id, f | id in p'.given && f in p'.given[id] ensures Owed(r, p', got, id, f) {
      assert Owed(tx, p, got, id, f);
      if Outstanding(tx, id, f) {
        var j :| j in tx.unacked && tx.unacked[j].netPkt == id && Core(tx.unacked[j].pkt) == Core(f);
        if j != k {
          assert j in r.unacked && r.unacked[j].netPkt == id && Core(r.unacked[j].pkt) == Core(f);
        }
      }
    }
  }

  /** A packet that is neither live nor given up has been received entirely. */
  lemma SettledIsReceived(tx: TxState, p: Past, got: set<LpPacket>, id: nat)
    requires AllOwed(tx, p, got) && id in p.given && id !in Live(tx) && id !in p.exhausted
    ensures FullyReceived(p, got, id)
  {
    forall f | f in p.given[id] ensures Core(f) in got {
      assert Owed(tx, p, got, id, f);
      assert !Outstanding(tx, id, f);
    }
  }

  lemma RecordAcked(p: Past, outcome: Option<Outcome>)
    requires outcome.Some? ==> outcome.value.Delivered?
    ensures Record(p, [], ToSeq(outcome)) ==
              p.(delivered := p.delivered + (if outcome.Some? then {outcome.value.id} else {}))
  {
    RecordNothing(p);
    if outcome.Some? {
      assert DeliveredIds([outcome.value]) == {outcome.value.id};
      assert ExhaustedIds([outcome.value]) == {};
    }
  }

  lemma AcknowledgedTallied(tx: TxState, p: Past, k: Sequence)
    requires Inv(tx) && Tallied(tx, p) && k in tx.unacked && Linked(tx, k)
    ensures Tallied(Acknowledged(tx, k).tx, Record(p, [], ToSeq(Acknowledged(tx, k).outcome)))
  {
    var a := Acknowledged(tx, k);
    AcknowledgedKeepsInv(tx, k);
    InLive(tx, k);
    RecordAcked(p, a.outcome);
  }

  /** An Ack for a fragment the peer has received keeps the book. */
  lemma AcknowledgedBook(tx: TxState, p: Past, got: set<LpPacket>, k: Sequence)
    requires Inv(tx) && Book(tx, p, got) && k in tx.unacked && Linked(tx, k)
    requires Core(tx.unacked[k].pkt) in got
    ensures Book(Acknowledged(tx, k).tx, Record(p, [], ToSeq(Acknowledged(tx, k).outcome)), got)
  {
    var a := Acknowledged(tx, k);
    var p' := Record(p, [], ToSeq(a.outcome));
    var id := tx.unacked[k].netPkt;
    AcknowledgedKeepsInv(tx, k);
    InLive(tx, k);
    RecordAcked(p, a.outcome);
    AcknowledgedTallied(tx, p, k);
    MatchesLogShrink(tx, a.tx, p.log);
    AcknowledgedOwed(tx, p, got, k, a.tx, p');
    forall x | x in p'.delivered ensures FullyReceived(p', got, x) {
      if x in p.delivered { assert FullyReceived(p, got, x); }
      else { SettledIsReceived(a.tx, p', got, x); }
    }
  }

  // ---- losses ----

  lemma RecordGivenUp(p: Past, id: nat, notify: bool)
    ensures Record(p, [], [Exhausted(id, notify)]) == p.(exhausted := p.exhausted + {id})
  {
    var o := Exhausted(id, notify);
    assert o in [o];
    assert DeliveredIds([o]) == {} && ExhaustedIds([o]) == {id};
    assert p.log + [] == p.log;
  }

  lemma GiveUpOwed(tx: TxState, p: Past, got: set<LpPacket>, id: nat, r: TxState, p': Past)
    requires AllOwed(tx, p, got) && p'.given == p.given && p'.exhausted == p.exhausted + {id}
    requires forall j | j in tx.unacked && tx.unacked[j].netPkt != id :: j in r.unacked && r.unacked[j] == tx.unacked[j]
    ensures AllOwed(r, p', got)
  {
    forall x, f | x in p'.given && f in p'.given[x] ensures Owed(r, p', got, x, f) {
      assert Owed(tx, p, got, x, f);
      if Outstanding(tx, x, f) && x != id {
        var j :| j in tx.unacked && tx.unacked[j].netPkt == x && Core(tx.unacked[j].pkt) == Core(f);
        assert j in r.unacked && r.unacked[j].netPkt == x && Core(r.unacked[j].pkt) == Core(f);
      }
    }
  }

  lemma GiveUpTallied(tx: TxState, p: Past, k: Sequence)
    requires Inv(tx) && Tallied(tx, p) && k in tx.unacked && Linked(tx, k)
    ensures Tallied(GiveUp(tx, k).tx, p.(exhausted := p.exhausted + {tx.unacked[k].netPkt}))
  {
    InLive(tx, k);
    GiveUpRemoves(tx, k);
    GiveUpKeepsInv(tx, k);
  }

  lemma GiveUpBook(tx: TxState, p: Past, got: set<LpPacket>, k: Sequence)
    requires Inv(tx) && Book(tx, p, got) && k in tx.unacked && Linked(tx, k)
    ensures Book(GiveUp(tx, k).tx, Record(p, [], GiveUp(tx, k).outcomes), got)
  {
    var id := tx.unacked[k].netPkt;
    var r := GiveUp(tx, k).tx;
    RecordGivenUp(p, id, tx.netPkts[id].isInterest);
    var p' := p.(exhausted := p.exhausted + {id});
    GiveUpTallied(tx, p, k);
    GiveUpRemoves(tx, k);
    MatchesLogShrink(tx, r, p.log);
    GiveUpOwed(tx, p, got, id, r, p');
    forall x | x in p'.delivered ensures FullyReceived(p', got, x) { assert FullyReceived(p, got, x); }
  }

  lemma RetransmitOwed(tx: TxState, p: Past, got: set<LpPacket>, k: Sequence, r: TxState, p': Past)
    requires k in tx.unacked && AllOwed(tx, p, got)
    requires Next(tx.lastTxSeqNo) !in tx.unacked
    requires r.unacked == (tx.unacked - {k})[Next(tx.lastTxSeqNo) := Resent(tx, k)]
    requires p'.given == p.given && p'.exhausted == p.exhausted
    ensures AllOwed(r, p', got)
  {
    var n := Next(tx.lastTxSeqNo);
    forall id, f | id in p'.given && f in p'.given[id] ensures Owed(r, p', got, id, f) {
      assert Owed(tx, p, got, id, f);
      if Outstanding(tx, id, f) {
        var j :| j in tx.unacked && tx.unacked[j].netPkt == id && Core(tx.unacked[j].pkt) == Core(f);
        var i := if j == k then n else j;
        assert i in r.unacked && r.unacked[i].netPkt == id && Core(r.unacked[i].pkt) == Core(f);
      }
    }
  }

  lemma RetransmitLogged(tx: TxState, p: Past, k: Sequence)
    requires Inv(tx) && k in tx.unacked && Linked(tx, k) && !RangeExceeded(tx)
    requires MatchesLog(tx, p.log) && Tallied(tx, p)
    ensures MatchesLog(Retransmit(tx, k).tx, p.log + Retransmit(tx, k).resent)
    ensures Tallied(Retransmit(tx, k).tx, p)
  {
    RetransmitWindow(tx, k);
    RetransmitKeepsInv(tx, k);
    MatchesLogGrow(tx, Retransmit(tx, k).tx, p.log, Resent(tx, k));
  }

  lemma RetransmitBook(tx: TxState, p: Past, got: set<LpPacket>, k: Sequence)
    requires Inv(tx) && Book(tx, p, got) && k in tx.unacked && Linked(tx, k) && !RangeExceeded(tx)
    ensures Book(Retransmit(tx, k).tx, Record(p, Retransmit(tx, k).resent, []), got)
  {
    var r := Retransmit(tx, k);
    RecordNothing(p);
    var p' := p.(log := p.log + r.resent);
    assert Record(p, r.resent, []) == p';
    RetransmitLogged(tx, p, k);
    RetransmitWindow(tx, k);
    RetransmitOwed(tx, p, got, k, r.tx, p');
    forall x | x in p'.delivered ensures FullyReceived(p', got, x) { assert FullyReceived(p, got, x); }
  }

  lemma LostBook(tx: TxState, opt: Options, p: Past, got: set<LpPacket>, k: Sequence)
    requires Inv(tx) && Book(tx, p, got) && k in tx.unacked && Linked(tx, k)
    requires Lost(tx, opt, k).ok
    ensures Book(Lost(tx, opt, k).tx, Record(p, Lost(tx, opt, k).resent, Lost(tx, opt, k).outcomes), got)
  {
    if tx.unacked[k].retxCount >= opt.maxRetx {
      GiveUpBook(tx, p, got, k);
    } else {
      RetransmitBook(tx, p, got, k);
    }
  }

  lemma {:induction false} LoseAllBook(tx: TxState, opt: Options, lost: seq<Sequence>, removed: set<Sequence>,
                                       p: Past, got: set<LpPacket>, q: AckResult)
    requires Inv(tx) && Accounted(tx, lost, removed) && Book(tx, p, got)
    requires q == LoseAll(tx, opt, lost, removed) && q.ok
    ensures Book(q.tx, Record(p, q.resent, q.outcomes), got)
    decreases |lost|
  {
    if lost == [] {
      RecordNothing(p);
    } else if lost[0] in removed {
      LoseAllBook(tx, opt, lost[1..], removed, p, got, q);
    } else {
      assert Linked(tx, lost[0]);
      var r := Lost(tx, opt, lost[0]);
      LostKeepsInv(tx, opt, lost[0]);
      LostBook(tx, opt, p, got, lost[0]);
      var p1 := Record(p, r.resent, r.outcomes);
      var q1 := LoseAll(r.tx, opt, lost[1..], removed + Elements(r.removed));
      LoseAllBook(r.tx, opt, lost[1..], removed + Elements(r.removed), p1, got, q1);
      RecordTwice(p, r.resent, r.outcomes, q1.resent, q1.outcomes);
    }
  }

  // ---- Acks ----

  /** The peer has received transmission `t`. */
  ghost predicate Justified(log: seq<Sent>, got: set<LpPacket>, t: Sequence) {
    t < |log| && Core(log[t].pkt) in got
  }

  lemma AbsorbBook(tx: TxState, p: Past, got: set<LpPacket>, ack: Sequence)
    requires Inv(tx) && Book(tx, p, got) && |p.log| <= MODULUS
    requires ack in tx.unacked && Justified(p.log, got, ack)
    ensures Book(Absorb(tx, ack).tx, Record(p, [], ToSeq(Absorb(tx, ack).outcome)), got)
  {
    assert Linked(tx, ack);
    OutstandingIsLogged(tx, p.log, ack);
    BumpKeepsInv(tx, ack);
    BumpBook(tx, p, got, ack);
    assert Linked(BumpOlder(tx, ack), ack);
    AcknowledgedBook(BumpOlder(tx, ack), p, got, ack);
  }

  lemma ProcessAckBook(tx: TxState, opt: Options, p: Past, got: set<LpPacket>, ack: Sequence)
    requires Inv(tx) && Book(tx, p, got) && |p.log| <= MODULUS && Justified(p.log, got, ack)
    requires ProcessAck(tx, opt, ack).ok
    ensures Book(ProcessAck(tx, opt, ack).tx,
                 Record(p, ProcessAck(tx, opt, ack).resent, ProcessAck(tx, opt, ack).outcomes), got)
  {
    if ack !in tx.unacked {
      RecordNothing(p);
    } else {
      AbsorbBook(tx, p, got, ack);
      AbsorbKeepsInv(tx, opt, ack);
      var a := Absorb(tx, ack);
      var lost := FindLost(tx, ack, opt.seqNumLossThreshold);
      var q := LoseAll(a.tx, opt, lost, {});
      LoseAllBook(a.tx, opt, lost, {}, Record(p, [], ToSeq(a.outcome)), got, q);
      RecordTwice(p, [], ToSeq(a.outcome), q.resent, q.outcomes);
      assert [] + q.resent == q.resent;
    }
  }

  lemma {:induction false} ProcessAcksBook(tx: TxState, opt: Options, p: Past, got: set<LpPacket>,
                                           acks: seq<Sequence>, q: AckResult)
    requires Inv(tx) && Book(tx, p, got)
    requires q == ProcessAcks(tx, opt, acks) && q.ok
    requires |p.log| + |q.resent| <= MODULUS
    requires forall t | t in acks :: Justified(p.log, got, t)
    ensures Book(q.tx, Record(p, q.resent, q.outcomes), got)
    decreases |acks|
  {
    if acks == [] {
      RecordNothing(p);
    } else {
      var r := ProcessAck(tx, opt, acks[0]);
      ProcessAckKeepsInv(tx, opt, acks[0]);
      ProcessAckBook(tx, opt, p, got, acks[0]);
      var p1 := Record(p, r.resent, r.outcomes);
      var q1 := ProcessAcks(r.tx, opt, acks[1..]);
      forall t | t in acks[1..] ensures Justified(p1.log, got, t) {
        assert Justified(p.log, got, t);
      }
      ProcessAcksBook(r.tx, opt, p1, got, acks[1..], q1);
      RecordTwice(p, r.resent, r.outcomes, q1.resent, q1.outcomes);
    }
  }

  lemma {:induction false} ProcessAcksKeepsInv(tx: TxState, opt: Options, acks: seq<Sequence>)
    requires Inv(tx)
    ensures ProcessAcks(tx, opt, acks).ok ==> Inv(ProcessAcks(tx, opt, acks).tx)
    decreases |acks|
  {
    if acks != [] {
      ProcessAckKeepsInv(tx, opt, acks[0]);
      var r := ProcessAck(tx, opt, acks[0]);
      if r.ok { ProcessAcksKeepsInv(r.tx, opt, acks[1..]); }
    }
  }

  // ---- sending ----

  ghost function SentAll(id: nat, frags: seq<LpPacket>): seq<Sent> {
    if frags == [] then [] else [Sent(id, frags[0])] + SentAll(id, frags[1..])
  }

  ghost function RecordSend(p: Past, id: nat, frags: seq<LpPacket>, numbered: seq<LpPacket>): Past {
    p.(log := p.log + SentAll(id, numbered), given := p.given[id := frags])
  }

  /** Nothing outstanding in `tx` is touched in `r`. */
  ghost predicate Extends(tx: TxState, r: TxState) {
    forall k | k in tx.unacked :: k in r.unacked && r.unacked[k] == tx.unacked[k]
  }

  lemma SendOneLogged(tx: TxState, id: nat, frag: LpPacket, log: seq<Sent>)
    requires Inv(tx) && !RangeExceeded(tx) && id in tx.netPkts && MatchesLog(tx, log)
    ensures MatchesLog(SendOne(tx, id, frag), log + [Sent(id, SetTxSequence(frag, Next(tx.lastTxSeqNo)))])
  {
    ThrowsIffOutstanding(tx);
    MatchesLogGrow(tx, SendOne(tx, id, frag), log, NewFrag(SetTxSequence(frag, Next(tx.lastTxSeqNo)), id));
  }

  lemma SendOneExtends(tx: TxState, id: nat, frag: LpPacket)
    requires Inv(tx) && !RangeExceeded(tx) && id in tx.netPkts
    ensures Outstanding(SendOne(tx, id, frag), id, frag)
    ensures Extends(tx, SendOne(tx, id, frag))
  {
    var r := SendOne(tx, id, frag);
    var n := Next(tx.lastTxSeqNo);
    ThrowsIffOutstanding(tx);
    assert n in r.unacked && r.unacked[n].netPkt == id && Core(r.unacked[n].pkt) == Core(frag);
  }

  lemma OutstandingGrows(tx: TxState, r: TxState, id: nat, f: LpPacket)
    requires Extends(tx, r) && Outstanding(tx, id, f)
    ensures Outstanding(r, id, f)
  {
    var k :| k in tx.unacked && tx.unacked[k].netPkt == id && Core(tx.unacked[k].pkt) == Core(f);
    assert k in r.unacked && r.unacked[k].netPkt == id && Core(r.unacked[k].pkt) == Core(f);
  }

  lemma {:induction false} SendFragsLogged(tx: TxState, id: nat, frags: seq<LpPacket>, log: seq<Sent>, r: SendResult)
    requires Inv(tx) && id in tx.netPkts && ListSound(tx, id) && MatchesLog(tx, log)
    requires r == SendFrags(tx, id, frags) && r.ok
    ensures MatchesLog(r.tx, log + SentAll(id, r.frags))
    decreases |frags|
  {
    if frags == [] {
      assert log + SentAll(id, r.frags) == log;
    } else {
      SendOneKeepsInv(tx, id, frags[0]);
      SendOneLogged(tx, id, frags[0], log);
      var tx1 := SendOne(tx, id, frags[0]);
      var first := SetTxSequence(frags[0], Next(tx.lastTxSeqNo));
      var r1 := SendFrags(tx1, id, frags[1..]);
      SendFragsLogged(tx1, id, frags[1..], log + [Sent(id, first)], r1);
      assert r.frags[1..] == r1.frags;
      assert log + SentAll(id, r.frags) == (log + [Sent(id, first)]) + SentAll(id, r1.frags);
    }
  }

  lemma {:induction false} SendFragsExtends(tx: TxState, id: nat, frags: seq<LpPacket>, r: SendResult)
    requires Inv(tx) && id in tx.netPkts && ListSound(tx, id)
    requires r == SendFrags(tx, id, frags) && r.ok
    ensures forall f | f in frags :: Outstanding(r.tx, id, f)
    ensures Extends(tx, r.tx)
    decreases |frags|
  {
    if frags != [] {
      SendOneKeepsInv(tx, id, frags[0]);
      SendOneExtends(tx, id, frags[0]);
      var tx1 := SendOne(tx, id, frags[0]);
      SendFragsExtends(tx1, id, frags[1..], SendFrags(tx1, id, frags[1..]));
      OutstandingGrows(tx1, r.tx, id, frags[0]);
      forall f | f in frags ensures Outstanding(r.tx, id, f) {
        assert f == frags[0] || f in frags[1..];
      }
    }
  }

  lemma HandleOutgoingTallied(tx: TxState, p: Past, frags: seq<LpPacket>, isInterest: bool)
    requires Inv(tx) && Tallied(tx, p) && HandleOutgoing(tx, frags, isInterest).ok
    ensures Tallied(HandleOutgoing(tx, frags, isInterest).tx,
                    RecordSend(p, tx.nNetPkts, frags, HandleOutgoing(tx, frags, isInterest).frags))
    ensures p.delivered !! {tx.nNetPkts}
  {
    HandleOutgoingKeepsInv(tx, frags, isInterest);
    SendFragsFrame(Allocate(tx, isInterest), tx.nNetPkts, frags);
  }

  lemma HandleOutgoingBook(tx: TxState, p: Past, got: set<LpPacket>, frags: seq<LpPacket>, isInterest: bool)
    requires Inv(tx) && Book(tx, p, got)
    requires HandleOutgoing(tx, frags, isInterest).ok
    ensures Book(HandleOutgoing(tx, frags, isInterest).tx,
                 RecordSend(p, tx.nNetPkts, frags, HandleOutgoing(tx, frags, isInterest).frags), got)
  {
    var id := tx.nNetPkts;
    var tx0 := Allocate(tx, isInterest);
    var r := HandleOutgoing(tx, frags, isInterest);
    var p' := RecordSend(p, id, frags, r.frags);
    AllocateKeepsInv(tx, isInterest);
    MatchesLogShrink(tx, tx0, p.log);
    SendFragsLogged(tx0, id, frags, p.log, r);
    SendFragsExtends(tx0, id, frags, r);
    HandleOutgoingTallied(tx, p, frags, isInterest);
    assert id !in p.given;
    forall x, f | x in p'.given && f in p'.given[x] ensures Owed(r.tx, p', got, x, f) {
      if x != id {
        assert Owed(tx, p, got, x, f);
        if Outstanding(tx, x, f) { OutstandingGrows(tx, r.tx, x, f); }
      }
    }
    forall x | x in p'.delivered ensures FullyReceived(p', got, x) { assert FullyReceived(p, got, x); }
  }
}
