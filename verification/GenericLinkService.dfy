/** GenericLinkService. Sending: room for feature fields, fragmentation, numbering, and handing over to the
    reliability layer. Receiving: what reaches the reassembler. */
module GenericLinkService {
  import opened Sequence64
  import opened LpPackets
  import opened SendWindow
  import opened SendWindowLaws
  import opened AckQueue
  import opened LpFragmenter
  import opened RoundTrip
  import R = LpReliability
  import A = LpReassembler
  import Peers

  datatype LinkOptions = LinkOptions(
    allowFragmentation: bool,
    nMaxFragments: nat,
    isReliable: bool,
    allowCongestionMarking: bool,
    allowReassembly: bool)

  /** What is left of the MTU for fragments: octets are set aside for TxSequence and for CongestionMark.
      A remainder of -1 cannot be told from an unlimited MTU. */
  function Room(opts: LinkOptions, mtu: int): int {
    var m := if opts.isReliable && mtu != MTU_UNLIMITED then mtu - TX_SEQUENCE_SIZE else mtu;
    if opts.allowCongestionMarking && m != MTU_UNLIMITED then m - CONGESTION_MARK_SIZE else m
  }

  /** The assertion in sendNetPacket. */
  predicate AssertionHolds(opts: LinkOptions, mtu: int) {
    Room(opts, mtu) == MTU_UNLIMITED || Room(opts, mtu) >= 0
  }

  /** An MTU of 0 is announced as allowed, but the assertion fails for every finite MTU below what is set
      aside, except for those one octet below a part of it, which pass as unlimited. */
  lemma AssertionHoldsIff(opts: LinkOptions, mtu: int)
    requires ValidMtu(mtu)
    ensures AssertionHolds(opts, mtu) <==>
            || mtu == MTU_UNLIMITED
            || mtu >= ReservedSize(opts)
            || mtu == ReservedSize(opts) - 1
            || (opts.isReliable && mtu == TX_SEQUENCE_SIZE - 1)
    ensures Room(opts, mtu) == MTU_UNLIMITED <==>
            || mtu == MTU_UNLIMITED
            || mtu == ReservedSize(opts) - 1
            || (opts.isReliable && mtu == TX_SEQUENCE_SIZE - 1)
    ensures opts.isReliable || opts.allowCongestionMarking ==> !AssertionHolds(opts, 0)
  {}

  /** Octets set aside in every fragment for TxSequence and CongestionMark. */
  function ReservedSize(opts: LinkOptions): nat {
    (if opts.isReliable then TX_SEQUENCE_SIZE else 0) +
    (if opts.allowCongestionMarking then CONGESTION_MARK_SIZE else 0)
  }

  /** The fragments of a network packet, before numbering. */
  function Prepare(opts: LinkOptions, mtu: int, pkt: LpPacket): FragResult
    requires pkt.fragment.Some? && AssertionHolds(opts, mtu)
  {
    var m := Room(opts, mtu);
    if opts.allowFragmentation && m != MTU_UNLIMITED then
      if FastPath(pkt, m) then Fragments([pkt])
      else if !RoomForFirst(pkt, m) then Dropped(MtuTooSmall)
      else if |Payloads(pkt, m)| > opts.nMaxFragments then Dropped(FragCountOverLimit)
      else Fragments(FragmentAll(pkt, Payloads(pkt, m)))
    else Fragments([pkt])
  }

  predicate NeedsNumbers(opts: LinkOptions, frags: seq<LpPacket>) {
    opts.isReliable || |frags| > 1
  }

  /** A packet the fragmenter leaves whole carries no fragmentation fields; one it splits has at least
      two fragments: the assertions on a single fragment in sendNetPacket hold. */
  lemma SingleFragmentIsWhole(opts: LinkOptions, mtu: int, pkt: LpPacket)
    requires IsNetPacket(pkt) && AssertionHolds(opts, mtu) && Prepare(opts, mtu, pkt).Fragments?
    ensures |Prepare(opts, mtu, pkt).frags| >= 1
    ensures |Prepare(opts, mtu, pkt).frags| == 1 <==> Prepare(opts, mtu, pkt).frags == [pkt]
  {
    var m := Room(opts, mtu);
    if opts.allowFragmentation && m != MTU_UNLIMITED {
      if !FastPath(pkt, m) { PayloadsPartition(pkt, m); }
    }
  }

  /** With fragmentation, every fragment together with its Sequence, TxSequence and a congestion mark
      fits the MTU, so that nothing is dropped for its size before Acks are attached. */
  lemma PreparedFits(opts: LinkOptions, mtu: nat, pkt: LpPacket, i: nat,
                     seqNo: Option<Sequence>, txSeq: Option<Sequence>, mark: Option<nat>)
    requires IsNetPacket(pkt) && Room(opts, mtu) >= 0 && opts.allowFragmentation
    requires Prepare(opts, mtu, pkt).Fragments? && i < |Prepare(opts, mtu, pkt).frags|
    requires (txSeq.Some? ==> opts.isReliable) && (mark.Some? ==> opts.allowCongestionMarking)
    ensures WireSize(Decorate(Prepare(opts, mtu, pkt).frags[i], seqNo, txSeq, mark)) <= mtu
  {
    hide WireSize, Decorate, Payloads, RoomForFirst, FastPath;
    FragmentsFit(pkt, Room(opts, mtu), seqNo, txSeq, mark, i);
  }

  /** If what is left passes as unlimited, a reliable link does not fragment, and nothing it sends fits. */
  lemma AliasedReserveNeverFits(opts: LinkOptions, mtu: nat, pkt: LpPacket, seqNo: Sequence, txSeq: Sequence,
                                mark: Option<nat>)
    requires IsNetPacket(pkt) && opts.isReliable && Room(opts, mtu) == MTU_UNLIMITED
    ensures Prepare(opts, mtu, pkt) == Fragments([pkt])
    ensures WireSize(Decorate(pkt, Some(seqNo), Some(txSeq), mark)) > mtu
  {
    AssertionHoldsIff(opts, mtu);
    var p := Decorate(pkt, Some(seqNo), Some(txSeq), mark);
    assert ValueSize(p) >= 10 + TX_SEQUENCE_SIZE + FragmentTlvSize(p);
  }

  // ---- Acks past the MTU ----

  /** A packet that Acks take over the MTU: a 227-octet network packet, which the fragmenter leaves whole at
      this MTU, goes out numbered with a value of 251 octets and takes two of the queued Acks. */
  lemma PiggybackOvershootExample(payload: seq<Byte>, queue: seq<Sequence>)
    requires |payload| == 227 && |queue| >= 2
    ensures var opts := LinkOptions(true, 400, true, false, true);
            var netPkt := EMPTY_PACKET.(fragment := Some(payload));
            var pkt := Decorate(netPkt, Some(0), Some(0), None);
            && Prepare(opts, 277, netPkt) == Fragments([netPkt])
            && WireSize(pkt) <= 277
            && WireSize(AddAcks(pkt, queue[..AttachCount(|queue|, pkt, 277)])) == 279
  {
    var netPkt := EMPTY_PACKET.(fragment := Some(payload));
    var pkt := Decorate(netPkt, Some(0), Some(0), None);
    assert ValueSize(pkt) == 251;
    assert AttachCount(|queue|, pkt, 277) == 2;
    assert ValueSize(AddAcks(pkt, queue[..2])) == 251 + ACK_SIZE * 2;
  }

  // ---- the mark is added after the Acks ----

  /** checkCongestionLevel marks a packet. */
  function Marked(pkt: LpPacket): LpPacket {
    pkt.(congestionMark := Some(1))
  }

  /** What a mark adds to the value of a packet; it may replace a larger one. */
  function MarkGrowth(pkt: LpPacket): int {
    IntegerTlvSize(TLV_CONGESTION_MARK, 1) -
    (if pkt.congestionMark.Some? then IntegerTlvSize(TLV_CONGESTION_MARK, pkt.congestionMark.value) else 0)
  }

  lemma MarkedValueSize(pkt: LpPacket, acks: seq<Sequence>)
    ensures ValueSize(Marked(AddAcks(pkt, acks))) == ValueSize(pkt) + ACK_SIZE * |acks| + MarkGrowth(pkt)
  {
    assert ACK_SIZE * |pkt.acks + acks| == ACK_SIZE * |pkt.acks| + ACK_SIZE * |acks|;
  }

  /** A packet that fits before Acks and mark are added fits with both exactly if the Acks leave the octets
      that the mark adds to the value, and those by which the length grows. For a packet without a mark
      these are 5, and 2 more if Acks and mark take the value from below 253 octets to 253 or above. A
      packet that has a mark does not grow when it is marked again. */
  lemma MarkedFits(pkt: LpPacket, mtu: nat, queue: seq<Sequence>)
    requires !IsBare(pkt) && WireSize(pkt) <= mtu <= 0xFFFF
    ensures var n := AttachCount(|queue|, pkt, mtu);
            var left := mtu - WireSize(pkt) - ACK_SIZE * n;
            var value := ValueSize(pkt) + ACK_SIZE * n + MarkGrowth(pkt);
            var full := AddAcks(pkt, queue[..n]);
            && value >= 0
            && (WireSize(Marked(full)) <= mtu <==>
                left >= MarkGrowth(pkt) + SizeOfVarNumber(value) - SizeOfVarNumber(ValueSize(pkt)))
            && (pkt.congestionMark.None? ==>
                  (WireSize(Marked(full)) <= mtu <==>
                   left >= 5 + (if ValueSize(pkt) < 253 <= value then 2 else 0)))
            && (pkt.congestionMark.Some? ==> WireSize(Marked(full)) <= WireSize(full))
  {
    hide ValueSize, IsBare, AttachCount;
    var n := AttachCount(|queue|, pkt, mtu);
    var full := AddAcks(pkt, queue[..n]);
    MarkedValueSize(pkt, queue[..n]);
    MarkedIsLarge(pkt, queue[..n]);
    AttachedSize(pkt, mtu, |queue|);
  }

  lemma MarkedIsLarge(pkt: LpPacket, acks: seq<Sequence>)
    requires !IsBare(pkt)
    ensures !IsBare(AddAcks(pkt, acks)) && !IsBare(Marked(AddAcks(pkt, acks)))
    ensures ValueSize(AddAcks(pkt, acks)) == ValueSize(pkt) + ACK_SIZE * |acks|
  {
    assert ACK_SIZE * |pkt.acks + acks| == ACK_SIZE * |pkt.acks| + ACK_SIZE * |acks|;
    if acks == [] { assert AddAcks(pkt, acks).acks == pkt.acks; }
  }

  lemma AttachedSize(pkt: LpPacket, mtu: nat, queueLength: nat)
    requires WireSize(pkt) <= mtu <= 0xFFFF
    ensures ACK_SIZE * AttachCount(queueLength, pkt, mtu) <= mtu
  {}

  /** So room set aside for a mark may be gone: a 100-octet network packet, which the fragmenter leaves
      whole at this MTU, goes out numbered, takes three of the queued Acks, and then no longer fits with a
      mark, although it fits with either. */
  lemma MarkAfterAcksOvershoots(payload: seq<Byte>, queue: seq<Sequence>)
    requires |payload| == 100 && |queue| >= 3
    ensures var opts := LinkOptions(true, 400, true, true, true);
            var netPkt := EMPTY_PACKET.(fragment := Some(payload));
            var pkt := Decorate(netPkt, Some(0), Some(0), None);
            var withAcks := AddAcks(pkt, queue[..AttachCount(|queue|, pkt, 164)]);
            && Prepare(opts, 164, netPkt) == Fragments([netPkt])
            && WireSize(Marked(pkt)) <= 164 && WireSize(withAcks) <= 164 && WireSize(Marked(withAcks)) > 164
  {
    var netPkt := EMPTY_PACKET.(fragment := Some(payload));
    var pkt := Decorate(netPkt, Some(0), Some(0), None);
    assert ValueSize(pkt) == 124;
    assert AttachCount(|queue|, pkt, 164) == 3;
    MarkedFits(pkt, 164, queue);
    PiggybackFits(pkt, 164, queue);
    assert ValueSize(Marked(pkt)) == 129;
  }

  /** How sendNetPacket ends: the exception of assignTxSequence is NumbersExhausted. */
  datatype SendOutcome = HandedOver | NotFragmented | NumbersExhausted | AssertionFailed

  class GenericLinkService {
    const options: LinkOptions
    const mtu: int
    const reliability: R.LpReliability
    const reassembler: A.LpReassembler
    var lastSeqNo: Sequence
    var nFragmentationErrors: nat
    var nDuplicateSequence: nat
    /** Packets sent while reliability is disabled. */
    var sent: seq<LpPacket>

    constructor (options: LinkOptions, mtu: int, reliability: R.LpReliability, reassembler: A.LpReassembler)
      requires reliability.mtu == mtu
      ensures this.options == options && this.mtu == mtu
      ensures this.reliability == reliability && this.reassembler == reassembler
      ensures lastSeqNo == MODULUS - 2 && nFragmentationErrors == 0 && nDuplicateSequence == 0 && sent == []
    {
      this.options := options;
      this.mtu := mtu;
      this.reliability := reliability;
      this.reassembler := reassembler;
      lastSeqNo := MODULUS - 2;
      nFragmentationErrors := 0;
      nDuplicateSequence := 0;
      sent := [];
    }

    /** Gives consecutive numbers to the fragments, wrapping around at 2^64. */
    method AssignSequences(frags: seq<LpPacket>) returns (numbered: seq<LpPacket>)
      modifies this`lastSeqNo
      ensures numbered == Number(frags, old(lastSeqNo))
      ensures lastSeqNo == Plus(old(lastSeqNo), |frags|)
      ensures forall f | f in numbered :: f.sequence.Some?
    {
      numbered := frags;
      for i := 0 to |frags|
        invariant |numbered| == |frags|
        invariant lastSeqNo == Plus(old(lastSeqNo), i)
        invariant forall j | 0 <= j < i :: numbered[j] == frags[j].(sequence := Some(Plus(old(lastSeqNo), j + 1)))
        invariant forall j | i <= j < |frags| :: numbered[j] == frags[j]
      {
        NextIsPlusOne(old(lastSeqNo), i);
        lastSeqNo := Next(lastSeqNo);
        numbered := numbered[i := numbered[i].(sequence := Some(lastSeqNo))];
      }
    }

    /** sendNetPacket. Without reliability the fragments go out as they are; with it they are numbered
        again and tracked, and each goes out with the Acks that fit. */
    method SendNetPacket(pkt: LpPacket, isInterest: bool) returns (r: SendOutcome)
      requires IsNetPacket(pkt) && reliability.mtu == mtu && Inv(reliability.Tx())
      modifies this`lastSeqNo, this`nFragmentationErrors, this`sent, reliability
      ensures r.AssertionFailed? <==> !AssertionHolds(options, mtu)
      ensures r.AssertionFailed? ==>
                && nFragmentationErrors == old(nFragmentationErrors) && lastSeqNo == old(lastSeqNo)
                && sent == old(sent) && reliability.State() == old(reliability.State())
      ensures !r.AssertionFailed? ==>
              var frags := Prepare(options, mtu, pkt);
              if frags.Dropped? then
                && r == NotFragmented && nFragmentationErrors == old(nFragmentationErrors) + 1
                && lastSeqNo == old(lastSeqNo) && sent == old(sent) && reliability.State() == old(reliability.State())
              else
                var numbered := if NeedsNumbers(options, frags.frags) then Number(frags.frags, old(lastSeqNo)) else frags.frags;
                && nFragmentationErrors == old(nFragmentationErrors)
                && lastSeqNo == (if NeedsNumbers(options, frags.frags) then Plus(old(lastSeqNo), |frags.frags|) else old(lastSeqNo))
                && if !options.isReliable then
                     r == HandedOver && sent == old(sent) + numbered && reliability.State() == old(reliability.State())
                   else
                     var h := HandleOutgoing(old(reliability.Tx()), numbered, isInterest);
                     && r == (if h.ok then HandedOver else NumbersExhausted) && reliability.Tx() == h.tx && sent == old(sent)
                     && reliability.Memory() == old(reliability.Memory())
                     && reliability.Acks() == (if h.ok then SendAll(old(reliability.Acks()), h.frags, mtu) else old(reliability.Acks()))
    {
      hide Inv, Prepare, HandleOutgoing, SendAll, Number, Plus;
      var room := mtu;
      if options.isReliable && room != MTU_UNLIMITED { room := room - TX_SEQUENCE_SIZE; }
      if options.allowCongestionMarking && room != MTU_UNLIMITED { room := room - CONGESTION_MARK_SIZE; }
      if !(room == MTU_UNLIMITED || room >= 0) { return AssertionFailed; }
      var made := MakeFragments(pkt, room);
      if made.Dropped? {
        nFragmentationErrors := nFragmentationErrors + 1;
        return NotFragmented;
      }
      var frags := made.frags;
      if options.isReliable || |frags| > 1 {
        frags := AssignSequences(frags);
      }
      if options.isReliable {
        var ok := Track(frags, isInterest);
        r := if ok then HandedOver else NumbersExhausted;
      } else {
        sent := sent + frags;
        r := HandedOver;
      }
    }

    /** The fragmentation step of sendNetPacket. */
    method MakeFragments(pkt: LpPacket, room: int) returns (r: FragResult)
      requires IsNetPacket(pkt) && room == Room(options, mtu) && AssertionHolds(options, mtu)
      ensures r == Prepare(options, mtu, pkt)
    {
      if options.allowFragmentation && room != MTU_UNLIMITED {
        r := FragmentPacket(pkt, room, options.nMaxFragments);
      } else {
        r := Fragments([pkt]);
      }
    }

    /** The reliable part of sendNetPacket. */
    method Track(frags: seq<LpPacket>, isInterest: bool) returns (ok: bool)
      requires reliability.mtu == mtu && Inv(reliability.Tx())
      requires forall f | f in frags :: f.sequence.Some?
      modifies reliability
      ensures var r := HandleOutgoing(old(reliability.Tx()), frags, isInterest);
              && ok == r.ok && reliability.Tx() == r.tx && reliability.Memory() == old(reliability.Memory())
              && reliability.Acks() == (if ok then SendAll(old(reliability.Acks()), r.frags, mtu) else old(reliability.Acks()))
    {
      var numbered;
      ghost var acks := reliability.Acks();
      KeepsSequences(reliability.Tx(), frags, isInterest);
      numbered, ok := reliability.HandleOutgoing(frags, isInterest);
      if !ok { return; }
      ghost var tx, memory := reliability.Tx(), reliability.Memory();
      var i := 0;
      assert numbered[i..] == numbered;
      while i < |numbered|
        invariant 0 <= i <= |numbered|
        invariant reliability.Tx() == tx && reliability.Memory() == memory
        invariant SendAll(reliability.Acks(), numbered[i..], mtu) == SendAll(acks, numbered, mtu)
      {
        assert numbered[i..][0] == numbered[i] && numbered[i..][1..] == numbered[i + 1..];
        assert numbered[i].sequence.Some?;
        reliability.SendLpPacket(numbered[i]);
        i := i + 1;
      }
      assert numbered[i..] == [];
    }

    /** doReceivePacket, for a packet that parses. A fragment reaches the reassembler unless the reliability
        layer reports it as a duplicate or reassembly is disabled; the reliability layer sees every packet. */
    method DoReceivePacket(pkt: LpPacket, endpoint: A.EndpointId, now: int, rto: int)
      returns (out: Option<A.Delivery>, ok: bool)
      requires Inv(reliability.Tx()) && A.SlotsMatchCount(reassembler.partialPackets)
      modifies this`nDuplicateSequence, reliability, reassembler
      ensures var r := Peers.ProcessIncoming(old(reliability.State()), reliability.options, reliability.mtu, pkt, now, rto);
              && ok == (options.isReliable ==> r.ok)
              && reliability.State() == (if options.isReliable then r.peer else old(reliability.State()))
              && nDuplicateSequence == old(nDuplicateSequence) + (if options.isReliable && r.ok && !r.isNew then 1 else 0)
              && if ok && (options.isReliable ==> r.isNew) && Reassemblable(options, pkt) then
                   var q := A.Receive(old(reassembler.partialPackets), reassembler.nMaxFragments, pkt, endpoint);
                   reassembler.partialPackets == q.partials && out == q.out
                 else
                   reassembler.partialPackets == old(reassembler.partialPackets) && out == None
    {
      hide Inv, Peers.ProcessIncoming, A.Receive, A.SlotsMatchCount;
      if options.isReliable {
        var isNew;
        isNew, ok := reliability.ProcessIncomingPacket(pkt, now, rto);
        if !ok { return None, false; }
        if !isNew {
          nDuplicateSequence := nDuplicateSequence + 1;
          return None, true;
        }
      }
      if pkt.fragment.None? { return None, true; }
      if (pkt.fragIndex.Some? || pkt.fragCount.Some?) && !options.allowReassembly { return None, true; }
      out := reassembler.ReceiveFragment(pkt, endpoint);
      ok := true;
    }
  }

  predicate Reassemblable(opts: LinkOptions, pkt: LpPacket) {
    pkt.fragment.Some? && (opts.allowReassembly || (pkt.fragIndex.None? && pkt.fragCount.None?))
  }

  lemma NextIsPlusOne(s: Sequence, i: nat)
    ensures Next(Plus(s, i)) == Plus(s, i + 1)
  {}

  lemma {:induction false} SendFragsKeepsSequences(tx: TxState, id: nat, frags: seq<LpPacket>)
    requires id in tx.netPkts && forall f | f in frags :: f.sequence.Some?
    ensures forall f | f in SendFrags(tx, id, frags).frags :: f.sequence.Some?
    decreases |frags|
  {
    if frags != [] {
      assert frags[0].sequence.Some?;
      if !RangeExceeded(tx) { SendFragsKeepsSequences(SendOne(tx, id, frags[0]), id, frags[1..]); }
    }
  }

  lemma KeepsSequences(tx: TxState, frags: seq<LpPacket>, isInterest: bool)
    requires forall f | f in frags :: f.sequence.Some?
    ensures forall f | f in HandleOutgoing(tx, frags, isInterest).frags :: f.sequence.Some?
  {
    SendFragsKeepsSequences(Allocate(tx, isInterest), tx.nNetPkts, frags);
  }
}
