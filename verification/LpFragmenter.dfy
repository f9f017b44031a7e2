/** LpFragmenter: splitting a network packet so that every fragment fits the MTU. */
module LpFragmenter {
  import opened Sequence64
  import opened LpPackets

  const MAX_SINGLE_FRAG_OVERHEAD := 1 + 9 + 1 + 1 + 8 + 1 + 9
  const MAX_FRAG_OVERHEAD := 1 + 9 + 1 + 1 + 8 + 1 + 1 + 8 + 1 + 1 + 8 + 1 + 9

  datatype FragError = MtuTooSmall | FragCountOverLimit

  datatype FragResult = Fragments(frags: seq<LpPacket>) | Dropped(error: FragError)

  /** A packet as sendNetPacket receives it: it carries a network packet and none of the fields that
      fragmentation, numbering and reliability add. */
  predicate IsNetPacket(p: LpPacket) {
    p.fragment.Some? && p.fragIndex.None? && p.fragCount.None? && p.sequence.None? && p.txSequence.None? && p.acks == []
  }

  /** Size of the other NDNLPv2 headers, which the first fragment keeps. */
  function FirstHeaderSize(p: LpPacket): nat {
    if IsBare(p) then 0 else NonFragmentSize(p)
  }

  function Min(a: nat, b: nat): nat {
    if a < b then a else b
  }

  predicate FastPath(p: LpPacket, mtu: nat) {
    MAX_SINGLE_FRAG_OVERHEAD + WireSize(p) <= mtu
  }

  predicate RoomForFirst(p: LpPacket, mtu: nat) {
    MAX_FRAG_OVERHEAD + FirstHeaderSize(p) + 1 <= mtu
  }

  function FirstPayloadSize(p: LpPacket, mtu: nat): nat
    requires p.fragment.Some? && RoomForFirst(p, mtu)
  {
    Min(|p.fragment.value|, mtu - FirstHeaderSize(p) - MAX_FRAG_OVERHEAD)
  }

  function PayloadSize(mtu: nat): nat
    requires mtu > MAX_FRAG_OVERHEAD
  {
    mtu - MAX_FRAG_OVERHEAD
  }

  function FragCount(p: LpPacket, mtu: nat): nat
    requires p.fragment.Some? && RoomForFirst(p, mtu)
  {
    var rest := |p.fragment.value| - FirstPayloadSize(p, mtu);
    1 + rest / PayloadSize(mtu) + (if rest % PayloadSize(mtu) != 0 then 1 else 0)
  }

  // ---- what the fragments should be ----

  /** Cut into pieces of the given size, the last one possibly shorter. */
  function Chunks(bytes: seq<Byte>, size: nat): (r: seq<seq<Byte>>)
    requires size > 0
    ensures forall i | 0 <= i < |r| :: 0 < |r[i]| <= size
    decreases |bytes|
  {
    if bytes == [] then []
    else if |bytes| <= size then [bytes]
    else [bytes[..size]] + Chunks(bytes[size..], size)
  }

  function Join(pieces: seq<seq<Byte>>): seq<Byte> {
    if pieces == [] then [] else pieces[0] + Join(pieces[1..])
  }

  /** The payloads of the fragments. */
  function Payloads(p: LpPacket, mtu: nat): seq<seq<Byte>>
    requires p.fragment.Some? && RoomForFirst(p, mtu)
  {
    var net := p.fragment.value;
    var first := FirstPayloadSize(p, mtu);
    [net[..first]] + Chunks(net[first..], PayloadSize(mtu))
  }

  /** Fragment number `i` of `n`: the first keeps the other fields of the packet. */
  function Fragment(p: LpPacket, i: nat, n: nat, payload: seq<Byte>): LpPacket {
    (if i == 0 then p else EMPTY_PACKET).(fragIndex := Some(i), fragCount := Some(n), fragment := Some(payload))
  }

  function FragmentAll(p: LpPacket, payloads: seq<seq<Byte>>): seq<LpPacket> {
    seq(|payloads|, i requires 0 <= i < |payloads| => Fragment(p, i, |payloads|, payloads[i]))
  }

  // ---- arithmetic ----

  lemma {:induction false} ChunksCount(bytes: seq<Byte>, size: nat)
    requires size > 0
    ensures |Chunks(bytes, size)| == |bytes| / size + (if |bytes| % size != 0 then 1 else 0)
    decreases |bytes|
  {
    if bytes == [] {
    } else if |bytes| <= size {
      if |bytes| == size { assert |bytes| / size == 1 && |bytes| % size == 0; }
      else { assert |bytes| / size == 0 && |bytes| % size == |bytes|; }
    } else {
      ChunksCount(bytes[size..], size);
      var n := |bytes|;
      assert n / size == (n - size) / size + 1 && n % size == (n - size) % size by { DivStep(n, size); }
    }
  }

  lemma DivStep(n: nat, size: nat)
    requires size > 0 && n >= size
    ensures n / size == (n - size) / size + 1 && n % size == (n - size) % size
  {
    var q, r := (n - size) / size, (n - size) % size;
    assert n == (q + 1) * size + r;
    DivUnique(n, size, q + 1, r);
  }

  lemma DivUnique(n: nat, size: nat, q: nat, r: nat)
    requires size > 0 && n == q * size + r && r < size
    ensures n / size == q && n % size == r
  {
    var d := q - n / size;
    assert d * size == n % size - r by {
      assert n == (n / size) * size + n % size;
      assert (q - n / size) * size == q * size - (n / size) * size;
    }
    if d >= 1 { AtLeastOnce(d, size); }
    if d <= -1 { AtLeastOnce(-d, size); }
  }

  lemma AtLeastOnce(d: int, size: nat)
    requires d >= 1
    ensures d * size >= size
  {
    assert d * size == (d - 1) * size + size;
  }

  lemma {:induction false} ChunksJoin(bytes: seq<Byte>, size: nat)
    requires size > 0
    ensures Join(Chunks(bytes, size)) == bytes
    decreases |bytes|
  {
    if |bytes| > size {
      ChunksJoin(bytes[size..], size);
      assert bytes == bytes[..size] + bytes[size..];
    }
  }

  /** A packet that does not qualify for the fast path is larger than the first payload: the slow path
      always produces a second fragment. */
  lemma SlowPathHasRest(p: LpPacket, mtu: nat)
    requires p.fragment.Some? && !FastPath(p, mtu) && RoomForFirst(p, mtu)
    ensures FirstPayloadSize(p, mtu) == mtu - FirstHeaderSize(p) - MAX_FRAG_OVERHEAD < |p.fragment.value|
    ensures FirstPayloadSize(p, mtu) >= 1
  {
    var net := |p.fragment.value|;
    if !IsBare(p) {
      assert WireSize(p) == 1 + SizeOfVarNumber(ValueSize(p)) + NonFragmentSize(p) + 1 + SizeOfVarNumber(net) + net;
    }
  }

  /** The payloads partition the network packet into at least two non-empty pieces, as many as the
      division says. */
  lemma PayloadsPartition(p: LpPacket, mtu: nat)
    requires p.fragment.Some? && !FastPath(p, mtu) && RoomForFirst(p, mtu)
    ensures Join(Payloads(p, mtu)) == p.fragment.value
    ensures |Payloads(p, mtu)| == FragCount(p, mtu) >= 2
    ensures forall i | 0 <= i < |Payloads(p, mtu)| :: |Payloads(p, mtu)[i]| >= 1
    ensures forall i | 0 <= i < |Payloads(p, mtu)| ::
              |Payloads(p, mtu)[i]| + MAX_FRAG_OVERHEAD + (if i == 0 then FirstHeaderSize(p) else 0) <= mtu
  {
    SlowPathHasRest(p, mtu);
    var net := p.fragment.value;
    var first := FirstPayloadSize(p, mtu);
    var rest := net[first..];
    ChunksCount(rest, PayloadSize(mtu));
    ChunksJoin(rest, PayloadSize(mtu));
    assert net == net[..first] + rest;
    assert Payloads(p, mtu)[1..] == Chunks(rest, PayloadSize(mtu));
    assert rest != [];
    assert |Chunks(rest, PayloadSize(mtu))| >= 1;
  }

  /** Pieces from `i` on are the chunks of what starts at `begin`. */
  ghost predicate PiecesFrom(pieces: seq<seq<Byte>>, net: seq<Byte>, size: nat, i: nat, begin: nat)
    requires size > 0
  {
    i <= |pieces| && begin <= |net| && pieces[i..] == Chunks(net[begin..], size)
  }

  lemma NextPiece(pieces: seq<seq<Byte>>, net: seq<Byte>, size: nat, i: nat, begin: nat)
    requires size > 0 && PiecesFrom(pieces, net, size, i, begin) && begin < |net|
    ensures i < |pieces|
    ensures pieces[i] == net[begin..Min(|net|, begin + size)]
    ensures PiecesFrom(pieces, net, size, i + 1, Min(|net|, begin + size))
  {
    var tail := net[begin..];
    var end := Min(|net|, begin + size);
    assert |pieces[i..]| > 0;
    assert pieces[i] == pieces[i..][0];
    assert pieces[i + 1..] == pieces[i..][1..];
    assert net[begin..end] == if |tail| <= size then tail else tail[..size];
    assert net[end..] == if |tail| <= size then [] else tail[size..];
  }

  lemma FirstPiece(p: LpPacket, mtu: nat)
    requires p.fragment.Some? && RoomForFirst(p, mtu)
    ensures PiecesFrom(Payloads(p, mtu), p.fragment.value, PayloadSize(mtu), 1, FirstPayloadSize(p, mtu))
    ensures Payloads(p, mtu)[0] == p.fragment.value[0..FirstPayloadSize(p, mtu)]
  {
    assert Payloads(p, mtu)[1..] == Chunks(p.fragment.value[FirstPayloadSize(p, mtu)..], PayloadSize(mtu));
  }

  lemma LastPiece(pieces: seq<seq<Byte>>, net: seq<Byte>, size: nat, i: nat)
    requires size > 0 && PiecesFrom(pieces, net, size, i, |net|)
    ensures i == |pieces|
  {
    assert net[|net|..] == [];
  }

  /** fragmentPacket. */
  method FragmentPacket(packet: LpPacket, mtu: nat, nMaxFragments: nat) returns (r: FragResult)
    requires packet.fragment.Some? && packet.fragIndex.None? && packet.fragCount.None?
    ensures r == if FastPath(packet, mtu) then Fragments([packet])
                 else if !RoomForFirst(packet, mtu) then Dropped(MtuTooSmall)
                 else if |Payloads(packet, mtu)| > nMaxFragments then Dropped(FragCountOverLimit)
                 else Fragments(FragmentAll(packet, Payloads(packet, mtu)))
  {
    if MAX_SINGLE_FRAG_OVERHEAD + WireSize(packet) <= mtu {
      return Fragments([packet]);
    }
    var net := packet.fragment.value;
    var firstHeaderSize := FirstHeaderSize(packet);
    if MAX_FRAG_OVERHEAD + firstHeaderSize + 1 > mtu {
      return Dropped(MtuTooSmall);
    }
    var firstPayloadSize := Min(|net|, mtu - firstHeaderSize - MAX_FRAG_OVERHEAD);
    var payloadSize := mtu - MAX_FRAG_OVERHEAD;
    var fragCount := 1 + ((|net| - firstPayloadSize) / payloadSize)
                     + (if (|net| - firstPayloadSize) % payloadSize != 0 then 1 else 0);
    PayloadsPartition(packet, mtu);
    SlowPathHasRest(packet, mtu);
    FirstPiece(packet, mtu);
    ghost var payloads := Payloads(packet, mtu);
    assert fragCount == |payloads|;
    if fragCount > nMaxFragments {
      return Dropped(FragCountOverLimit);
    }
    var frags := Populate(packet, firstPayloadSize, payloadSize, fragCount, payloads);
    return Fragments(frags);
  }

  /** The loop of fragmentPacket that fills the vector of fragments. */
  method Populate(packet: LpPacket, firstPayloadSize: nat, payloadSize: nat, fragCount: nat, ghost payloads: seq<seq<Byte>>)
      returns (frags: seq<LpPacket>)
    requires packet.fragment.Some? && 0 < firstPayloadSize < |packet.fragment.value| && payloadSize > 0
    requires fragCount == |payloads| > 0 && payloads[0] == packet.fragment.value[0..firstPayloadSize]
    requires PiecesFrom(payloads, packet.fragment.value, payloadSize, 1, firstPayloadSize)
    ensures frags == FragmentAll(packet, payloads)
  {
    hide PiecesFrom;
    var net := packet.fragment.value;
    frags := seq(fragCount, _ => EMPTY_PACKET);
    frags := frags[0 := packet];
    var fragIndex := 0;
    var fragBegin := 0;
    var fragEnd := firstPayloadSize;
    while fragBegin < |net|
      invariant 0 <= fragBegin <= |net|
      invariant fragIndex == 0 ==> fragBegin == 0 && fragEnd == firstPayloadSize
      invariant fragIndex > 0 ==>
                  && PiecesFrom(payloads, net, payloadSize, fragIndex, fragBegin)
                  && fragEnd == Min(|net|, fragBegin + payloadSize)
      invariant |frags| == fragCount
      invariant forall i | 0 <= i < fragIndex && i < fragCount :: frags[i] == Fragment(packet, i, fragCount, payloads[i])
      invariant forall i | fragIndex <= i < fragCount :: frags[i] == if i == 0 then packet else EMPTY_PACKET
      decreases |net| - fragBegin
    {
      if fragIndex > 0 { NextPiece(payloads, net, payloadSize, fragIndex, fragBegin); }
      frags := frags[fragIndex := frags[fragIndex].(fragIndex := Some(fragIndex), fragCount := Some(fragCount),
                                                    fragment := Some(net[fragBegin..fragEnd]))];
      fragIndex := fragIndex + 1;
      fragBegin := fragEnd;
      fragEnd := Min(|net|, fragBegin + payloadSize);
    }
    LastPiece(payloads, net, payloadSize, fragIndex);
  }

  // ---- sizes on the wire ----

  /** Headers that later layers add to every fragment. */
  const TX_SEQUENCE_SIZE := SequenceTlvSize(TLV_TX_SEQUENCE)
  const CONGESTION_MARK_SIZE := SizeOfVarNumber(TLV_CONGESTION_MARK) + SizeOfVarNumber(8) + 8

  /** The fragment as it is encoded: numbered, and possibly with TxSequence and CongestionMark. */
  function Decorate(p: LpPacket, seqNo: Option<Sequence>, txSeq: Option<Sequence>, mark: Option<nat>): LpPacket {
    p.(sequence := seqNo, txSequence := txSeq, congestionMark := if mark.Some? then mark else p.congestionMark)
  }

  function ExtraSize(txSeq: Option<Sequence>, mark: Option<nat>): nat {
    (if txSeq.Some? then TX_SEQUENCE_SIZE else 0) + (if mark.Some? then CONGESTION_MARK_SIZE else 0)
  }

  lemma DecoratedValueSize(p: LpPacket, seqNo: Option<Sequence>, txSeq: Option<Sequence>, mark: Option<nat>)
    requires p.sequence.None? && p.txSequence.None?
    ensures ValueSize(Decorate(p, seqNo, txSeq, mark))
            <= ValueSize(p) + (if seqNo.Some? then 10 else 0) + ExtraSize(txSeq, mark)
  {}

  lemma WireSizeBound(p: LpPacket)
    ensures WireSize(p) <= 10 + ValueSize(p)
    ensures IsBare(p) ==> WireSize(p) == |p.fragment.value| && ValueSize(p) <= 10 + |p.fragment.value|
    ensures !IsBare(p) ==> WireSize(p) >= 2 + ValueSize(p)
  {}

  lemma WholeFits(packet: LpPacket, mtu: nat, seqNo: Option<Sequence>, txSeq: Option<Sequence>, mark: Option<nat>)
    requires IsNetPacket(packet) && FastPath(packet, mtu)
    ensures WireSize(Decorate(packet, seqNo, txSeq, mark)) <= mtu + ExtraSize(txSeq, mark)
  {
    hide WireSize, ValueSize, Decorate;
    WireSizeBound(packet);
    WireSizeBound(Decorate(packet, seqNo, txSeq, mark));
    DecoratedValueSize(packet, seqNo, txSeq, mark);
  }

  /** Every fragment, once it has its Sequence and the fields that reliability and congestion marking
      may add, fits the MTU that was available before room was set aside for those fields. */
  lemma FragmentsFit(packet: LpPacket, mtu: nat, seqNo: Option<Sequence>, txSeq: Option<Sequence>, mark: Option<nat>, i: nat)
    requires IsNetPacket(packet)
    requires if FastPath(packet, mtu) then i == 0 else RoomForFirst(packet, mtu) && i < |Payloads(packet, mtu)|
    ensures var frag := if FastPath(packet, mtu) then packet else FragmentAll(packet, Payloads(packet, mtu))[i];
            WireSize(Decorate(frag, seqNo, txSeq, mark)) <= mtu + ExtraSize(txSeq, mark)
  {
    hide WireSize, ValueSize, Decorate, Payloads;
    if FastPath(packet, mtu) {
      WholeFits(packet, mtu, seqNo, txSeq, mark);
    } else {
      PayloadsPartition(packet, mtu);
      var payloads := Payloads(packet, mtu);
      var frag := Fragment(packet, i, |payloads|, payloads[i]);
      DecoratedValueSize(frag, seqNo, txSeq, mark);
      FragmentValueSize(packet, i, |payloads|, payloads[i]);
      WireSizeBound(Decorate(frag, seqNo, txSeq, mark));
    }
  }

  lemma FragmentValueSize(p: LpPacket, i: nat, n: nat, payload: seq<Byte>)
    requires IsNetPacket(p)
    ensures ValueSize(Fragment(p, i, n, payload)) <= (if i == 0 then FirstHeaderSize(p) else 0) + 20 + 10 + |payload|
  {
    if IsBare(p) { assert NonFragmentSize(p) == 0; }
  }
}
