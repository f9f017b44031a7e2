/** The sending half of LpReliability as functions on values: fragments awaiting an Ack, the network
    packets they belong to, and what sending, acknowledging, losing and giving up do to them. */
module SendWindow {
  import opened Sequence64
  import opened LpPackets

  datatype Options = Options(maxRetx: nat, seqNumLossThreshold: nat)

  /** A sent fragment without an Ack. `netPkt` stands for the shared_ptr to its network packet. */
  datatype UnackedFrag = UnackedFrag(
    pkt: LpPacket,
    rtoTimer: bool,
    retxCount: nat,
    nGreaterSeqAcks: nat,
    netPkt: nat)

  /** `unackedFrags` holds iterators into the map of fragments, here the keys they point at. */
  datatype NetPkt = NetPkt(unackedFrags: seq<Sequence>, isInterest: bool, didRetx: bool)

  /** `first` is m_firstUnackedFrag (None is end()); packet number n is the n-th one allocated. */
  datatype TxState = TxState(
    unacked: map<Sequence, UnackedFrag>,
    first: Option<Sequence>,
    lastTxSeqNo: Sequence,
    netPkts: map<nat, NetPkt>,
    nNetPkts: nat,
    nAcknowledged: nat,
    nRetransmitted: nat,
    nRetxExhausted: nat)

  /** One transmission of a fragment of network packet `id`. */
  datatype Sent = Sent(id: nat, pkt: LpPacket)

  /** How the sender stops tracking a network packet. */
  datatype Outcome =
    | Delivered(id: nat, didRetx: bool)
    | Exhausted(id: nat, notifyDroppedInterest: bool)

  const INITIAL := TxState(map[], None, MODULUS - 1, map[], 0, 0, 0, 0)

  // ---- the map of fragments ----

  function SetTxSequence(pkt: LpPacket, txSeq: Sequence): LpPacket {
    pkt.(txSequence := Some(txSeq))
  }

  /** Whether assignTxSequence throws: the number about to be assigned is the start of the window. */
  predicate RangeExceeded(tx: TxState) {
    tx.unacked != map[] && tx.first == Some(Next(tx.lastTxSeqNo))
  }

  ghost function Delete(tx: TxState, k: Sequence): TxState {
    var rest := tx.unacked - {k};
    tx.(unacked := rest,
        first := if rest == map[] then None
                 else if tx.first == Some(k) then Some(Nearest(rest.Keys, k))
                 else tx.first)
  }

  ghost function DeleteAll(tx: TxState, ks: seq<Sequence>): TxState
    decreases |ks|
  {
    if ks == [] then tx else DeleteAll(Delete(tx, ks[0]), ks[1..])
  }

  function Insert(tx: TxState, k: Sequence, frag: UnackedFrag): TxState {
    tx.(unacked := tx.unacked[k := frag], lastTxSeqNo := k,
        first := if tx.unacked == map[] then Some(k) else tx.first)
  }

  // ---- lists of a network packet ----

  ghost predicate NoDuplicates(s: seq<Sequence>) {
    forall i, j | 0 <= i < j < |s| :: s[i] != s[j]
  }

  function IndexOf(s: seq<Sequence>, k: Sequence): (i: nat)
    requires k in s
    ensures i < |s| && s[i] == k && k !in s[..i]
  {
    if s[0] == k then 0
    else
      assert forall x | x in s[1..][..IndexOf(s[1..], k)] :: x != k;
      assert s[..1 + IndexOf(s[1..], k)] == [s[0]] + s[1..][..IndexOf(s[1..], k)];
      1 + IndexOf(s[1..], k)
  }

  /** std::find, overwrite with the last element, pop_back. */
  function SwapRemove(s: seq<Sequence>, k: Sequence): seq<Sequence>
    requires k in s
  {
    s[IndexOf(s, k) := s[|s| - 1]][..|s| - 1]
  }

  function Replace(s: seq<Sequence>, k: Sequence, with: Sequence): seq<Sequence>
    requires k in s
  {
    s[IndexOf(s, k) := with]
  }

  function Without(s: seq<Sequence>, k: Sequence): seq<Sequence> {
    if s == [] then []
    else if s[0] == k then Without(s[1..], k)
    else [s[0]] + Without(s[1..], k)
  }

  // ---- invariants ----

  /** The window: m_firstUnackedFrag is end() exactly when nothing is outstanding; otherwise it is an
      outstanding fragment and every key lies in the cyclic interval from it to the last number. */
  ghost predicate WindowInv(tx: TxState) {
    && (tx.first.None? <==> tx.unacked == map[])
    && (tx.first.Some? ==>
          && tx.first.value in tx.unacked
          && forall k | k in tx.unacked ::
               Distance(tx.first.value, k) <= Distance(tx.first.value, tx.lastTxSeqNo))
  }

  /** The network packets that still have an outstanding fragment. */
  ghost function Live(tx: TxState): set<nat> {
    set k | k in tx.unacked :: tx.unacked[k].netPkt
  }

  /** The list of packet `id` holds outstanding fragments that point back to it, none twice. */
  ghost predicate ListSound(tx: TxState, id: nat)
    requires id in tx.netPkts
  {
    var list := tx.netPkts[id].unackedFrags;
    && NoDuplicates(list)
    && forall j | j in list :: j in tx.unacked && tx.unacked[j].netPkt == id
  }

  /** Fragment `k` and its network packet know each other; it carries its own number and its
      retransmission timer is running. */
  ghost predicate Linked(tx: TxState, k: Sequence)
    requires k in tx.unacked
  {
    var id := tx.unacked[k].netPkt;
    && id in tx.netPkts
    && k in tx.netPkts[id].unackedFrags
    && ListSound(tx, id)
    && tx.unacked[k].pkt.txSequence == Some(k)
    && tx.unacked[k].rtoTimer
  }

  ghost predicate LinkInv(tx: TxState) {
    && (forall k | k in tx.unacked :: Linked(tx, k))
    && (forall id | id in tx.netPkts :: id < tx.nNetPkts)
  }

  ghost predicate Inv(tx: TxState) {
    WindowInv(tx) && LinkInv(tx)
  }

  // ---- handleOutgoing ----

  datatype SendResult = SendResult(tx: TxState, frags: seq<LpPacket>, ok: bool)

  function NewFrag(pkt: LpPacket, id: nat): UnackedFrag {
    UnackedFrag(pkt, true, 0, 0, id)
  }

  /** One iteration that does not throw: number the fragment, store it, add it to its packet. */
  function SendOne(tx: TxState, id: nat, frag: LpPacket): TxState
    requires id in tx.netPkts
  {
    var txSeq := Next(tx.lastTxSeqNo);
    var np := tx.netPkts[id];
    Insert(tx, txSeq, NewFrag(SetTxSequence(frag, txSeq), id))
      .(netPkts := tx.netPkts[id := np.(unackedFrags := np.unackedFrags + [txSeq])])
  }

  function SendFrags(tx: TxState, id: nat, frags: seq<LpPacket>): SendResult
    requires id in tx.netPkts
    decreases |frags|
  {
    if frags == [] then SendResult(tx, [], true)
    else
      var txSeq := Next(tx.lastTxSeqNo);
      var frag := SetTxSequence(frags[0], txSeq);
      if RangeExceeded(tx) then
        SendResult(tx.(lastTxSeqNo := txSeq), [frag] + frags[1..], false)
      else
        var r := SendFrags(SendOne(tx, id, frags[0]), id, frags[1..]);
        SendResult(r.tx, [frag] + r.frags, r.ok)
  }

  /** The NetPkt object that handleOutgoing makes before it looks at the fragments. */
  function Allocate(tx: TxState, isInterest: bool): TxState {
    tx.(netPkts := tx.netPkts[tx.nNetPkts := NetPkt([], isInterest, false)],
        nNetPkts := tx.nNetPkts + 1)
  }

  function HandleOutgoing(tx: TxState, frags: seq<LpPacket>, isInterest: bool): SendResult {
    SendFrags(Allocate(tx, isInterest), tx.nNetPkts, frags)
  }

  // ---- onLpPacketAcknowledged ----

  datatype AckedResult = AckedResult(tx: TxState, outcome: Option<Outcome>)

  ghost function Acknowledged(tx: TxState, k: Sequence): AckedResult
    requires k in tx.unacked && Linked(tx, k)
  {
    var id := tx.unacked[k].netPkt;
    var np := tx.netPkts[id].(unackedFrags := SwapRemove(tx.netPkts[id].unackedFrags, k));
    var tx1 := tx.(netPkts := tx.netPkts[id := np]);
    if np.unackedFrags != [] then
      AckedResult(Delete(tx1, k), None)
    else if np.didRetx then
      AckedResult(Delete(tx1.(nRetransmitted := tx1.nRetransmitted + 1), k), Some(Delivered(id, true)))
    else
      AckedResult(Delete(tx1.(nAcknowledged := tx1.nAcknowledged + 1), k), Some(Delivered(id, false)))
  }

  // ---- onLpPacketLost ----

  datatype LostResult = LostResult(
    tx: TxState,
    removed: seq<Sequence>,
    resent: seq<Sent>,
    outcomes: seq<Outcome>,
    ok: bool)

  ghost function GiveUp(tx: TxState, k: Sequence): LostResult
    requires k in tx.unacked && tx.unacked[k].netPkt in tx.netPkts
  {
    var id := tx.unacked[k].netPkt;
    var others := Without(tx.netPkts[id].unackedFrags, k);
    var tx1 := DeleteAll(tx, others);
    LostResult(Delete(tx1.(nRetxExhausted := tx1.nRetxExhausted + 1), k),
               others + [k], [], [Exhausted(id, tx.netPkts[id].isInterest)], true)
  }

  ghost function Retransmit(tx: TxState, k: Sequence): LostResult
    requires k in tx.unacked && Linked(tx, k)
  {
    var frag := tx.unacked[k];
    var newTxSeq := Next(tx.lastTxSeqNo);
    var pkt := SetTxSequence(frag.pkt, newTxSeq);
    var np := tx.netPkts[frag.netPkt];
    if RangeExceeded(tx) then
      LostResult(tx.(lastTxSeqNo := newTxSeq,
                     unacked := tx.unacked[k := frag.(pkt := pkt, rtoTimer := false)]), [], [], [], false)
    else
      var tx1 := Insert(tx, newTxSeq, UnackedFrag(pkt, true, frag.retxCount + 1, 0, frag.netPkt))
        .(netPkts := tx.netPkts[frag.netPkt :=
            np.(didRetx := true, unackedFrags := Replace(np.unackedFrags, k, newTxSeq))]);
      LostResult(Delete(tx1, k), [k], [Sent(frag.netPkt, pkt)], [], true)
  }

  ghost function Lost(tx: TxState, opt: Options, k: Sequence): LostResult
    requires k in tx.unacked && Linked(tx, k)
  {
    if tx.unacked[k].retxCount >= opt.maxRetx then GiveUp(tx, k) else Retransmit(tx, k)
  }

  // ---- findLostLpPackets ----

  /** Sent before the fragment being acknowledged, allowing for wraparound. */
  ghost predicate IsOlder(tx: TxState, k: Sequence, ack: Sequence) {
    tx.first.Some? && Distance(tx.first.value, k) < Distance(tx.first.value, ack)
  }

  ghost function BumpOlder(tx: TxState, ack: Sequence): TxState {
    tx.(unacked := map k | k in tx.unacked ::
          if IsOlder(tx, k, ack)
          then tx.unacked[k].(nGreaterSeqAcks := tx.unacked[k].nGreaterSeqAcks + 1)
          else tx.unacked[k])
  }

  ghost function LostKeys(tx: TxState, ack: Sequence, threshold: nat): set<Sequence> {
    set k | k in tx.unacked && IsOlder(tx, k, ack) && tx.unacked[k].nGreaterSeqAcks + 1 >= threshold
  }

  ghost function FindLost(tx: TxState, ack: Sequence, threshold: nat): seq<Sequence> {
    if tx.first.None? then [] else CyclicList(LostKeys(tx, ack, threshold), tx.first.value)
  }
}
