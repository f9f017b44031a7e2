/** NDNLPv2 packets: the fields the link service reads and writes, and the size of their encoding. */
module LpPackets {
  import opened Sequence64

  type Byte = b: int | 0 <= b < 256 witness 0

  /** A field the link service only copies (Nack, IncomingFaceId, PitToken, ...): its complete TLV. */
  datatype Header = Header(tlv: seq<Byte>)

  /** An lp::Packet. A field that is absent is `None`; Ack is a repeatable field. */
  datatype LpPacket = LpPacket(
    sequence: Option<Sequence>,
    fragIndex: Option<nat>,
    fragCount: Option<nat>,
    txSequence: Option<Sequence>,
    acks: seq<Sequence>,
    congestionMark: Option<nat>,
    headers: seq<Header>,
    fragment: Option<seq<Byte>>)

  const EMPTY_PACKET := LpPacket(None, None, None, None, [], None, [], None)

  // ---- TLV sizes (section "Variable-Size Encoding for Type and Length" and
  //      "Non-Negative Integer Encoding" of the NDN Packet Format Specification) ----

  function SizeOfVarNumber(n: nat): (size: nat)
    ensures size in {1, 3, 5, 9}
  {
    if n < 253 then 1 else if n <= 0xFFFF then 3 else if n <= 0xFFFF_FFFF then 5 else 9
  }

  function SizeOfNonNegativeInteger(n: nat): (size: nat)
    ensures size in {1, 2, 4, 8}
  {
    if n <= 0xFF then 1 else if n <= 0xFFFF then 2 else if n <= 0xFFFF_FFFF then 4 else 8
  }

  // TLV-TYPE numbers; those below 253 take one octet, the others three.
  const TLV_SEQUENCE := 81
  const TLV_FRAG_INDEX := 82
  const TLV_FRAG_COUNT := 83
  const TLV_FRAGMENT := 80
  const TLV_LP_PACKET := 100
  const TLV_CONGESTION_MARK := 832
  const TLV_ACK := 836
  const TLV_TX_SEQUENCE := 840

  /** TLV of a fixed-width sequence number (8 octets). */
  function SequenceTlvSize(tlvType: nat): nat {
    SizeOfVarNumber(tlvType) + SizeOfVarNumber(8) + 8
  }

  function IntegerTlvSize(tlvType: nat, n: nat): nat {
    SizeOfVarNumber(tlvType) + 1 + SizeOfNonNegativeInteger(n)
  }

  function HeadersSize(headers: seq<Header>): nat {
    if headers == [] then 0 else |headers[0].tlv| + HeadersSize(headers[1..])
  }

  /** Size of the TLV-VALUE of the packet without its Fragment. */
  function NonFragmentSize(p: LpPacket): nat {
    (if p.sequence.Some? then SequenceTlvSize(TLV_SEQUENCE) else 0) +
    (if p.fragIndex.Some? then IntegerTlvSize(TLV_FRAG_INDEX, p.fragIndex.value) else 0) +
    (if p.fragCount.Some? then IntegerTlvSize(TLV_FRAG_COUNT, p.fragCount.value) else 0) +
    (if p.txSequence.Some? then SequenceTlvSize(TLV_TX_SEQUENCE) else 0) +
    SequenceTlvSize(TLV_ACK) * |p.acks| +
    (if p.congestionMark.Some? then IntegerTlvSize(TLV_CONGESTION_MARK, p.congestionMark.value) else 0) +
    HeadersSize(p.headers)
  }

  function FragmentTlvSize(p: LpPacket): nat {
    if p.fragment.Some?
    then SizeOfVarNumber(TLV_FRAGMENT) + SizeOfVarNumber(|p.fragment.value|) + |p.fragment.value|
    else 0
  }

  function ValueSize(p: LpPacket): nat {
    NonFragmentSize(p) + FragmentTlvSize(p)
  }

  /** A packet with nothing but a Fragment is encoded as the bare network packet. */
  predicate IsBare(p: LpPacket) {
    p == EMPTY_PACKET.(fragment := p.fragment) && p.fragment.Some?
  }

  function LpTlvSize(valueSize: nat): nat {
    SizeOfVarNumber(TLV_LP_PACKET) + SizeOfVarNumber(valueSize) + valueSize
  }

  /** Size of wireEncode(). */
  function WireSize(p: LpPacket): nat {
    if IsBare(p) then |p.fragment.value| else LpTlvSize(ValueSize(p))
  }

  /** What of a packet is the fragment itself: everything but the fields that differ from one
      transmission of that fragment to the next. */
  function Core(p: LpPacket): LpPacket {
    p.(txSequence := None, acks := [], congestionMark := None)
  }

  const MTU_UNLIMITED := -1
  const MAX_NDN_PACKET_SIZE := 8800
}
