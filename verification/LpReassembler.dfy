/** LpReassembler: collecting fragments into network packets. */
module LpReassembler {
  import opened Sequence64
  import opened LpPackets
  import opened LpFragmenter

  type EndpointId = nat

  /** Message identifier: who sent it, and the Sequence of its first fragment. */
  datatype Key = Key(endpoint: EndpointId, id: Sequence)

  datatype PartialPacket = PartialPacket(fragments: seq<LpPacket>, fragCount: nat, nReceived: nat, dropTimer: bool)

  type Partials = map<Key, PartialPacket>

  /** A reassembled network packet and the first fragment, whose other headers apply to it. */
  datatype Delivery = Delivery(payload: seq<Byte>, firstFrag: LpPacket)

  datatype ReceiveResult = ReceiveResult(partials: Partials, out: Option<Delivery>)

  function IndexField(p: LpPacket): nat {
    if p.fragIndex.Some? then p.fragIndex.value else 0
  }

  function CountField(p: LpPacket): nat {
    if p.fragCount.Some? then p.fragCount.value else 1
  }

  function Payload(p: LpPacket): seq<Byte> {
    if p.fragment.Some? then p.fragment.value else []
  }

  function PayloadsOf(frags: seq<LpPacket>): seq<seq<Byte>> {
    if frags == [] then [] else [Payload(frags[0])] + PayloadsOf(frags[1..])
  }

  function KeyOf(p: LpPacket, endpoint: EndpointId): Key
    requires p.sequence.Some?
  {
    Key(endpoint, Minus(p.sequence.value, IndexField(p)))
  }

  /** A new PartialPacket: as many empty slots as there are fragments. */
  function NewPartial(n: nat): PartialPacket {
    PartialPacket(seq(n, _ => EMPTY_PACKET), n, 0, false)
  }

  function Store(pp: PartialPacket, i: nat, p: LpPacket): PartialPacket
    requires i < |pp.fragments|
  {
    pp.(fragments := pp.fragments[i := p], nReceived := pp.nReceived + 1)
  }

  /** Slots are filled with packets that have a Sequence; the count is that of the packet it came with. */
  ghost predicate SlotsMatchCount(m: Partials) {
    forall k | k in m :: |m[k].fragments| == m[k].fragCount >= 1
  }

  /** receiveFragment. */
  function Receive(m: Partials, nMaxFragments: nat, p: LpPacket, endpoint: EndpointId): (r: ReceiveResult)
    requires SlotsMatchCount(m)
    ensures SlotsMatchCount(r.partials)
  {
    var i := IndexField(p);
    var n := CountField(p);
    if i >= n || n > nMaxFragments then ReceiveResult(m, None)
    else if i == 0 && n == 1 then ReceiveResult(m, Some(Delivery(Payload(p), p)))
    else if p.sequence.None? then ReceiveResult(m, None)
    else
      var key := KeyOf(p, endpoint);
      var pp := if key in m then m[key] else NewPartial(n);
      if n != pp.fragCount || pp.fragments[i].sequence.Some? then ReceiveResult(m, None)
      else
        var stored := Store(pp, i, p);
        if stored.nReceived == n then
          ReceiveResult(m - {key}, Some(Delivery(Join(PayloadsOf(stored.fragments)), stored.fragments[0])))
        else
          ReceiveResult(m[key := stored.(dropTimer := true)], None)
  }

  // ---- the object ----

  lemma {:induction false} PayloadsOfSnoc(frags: seq<LpPacket>, p: LpPacket)
    ensures PayloadsOf(frags + [p]) == PayloadsOf(frags) + [Payload(p)]
  {
    if frags == [] {
      assert frags + [p] == [p];
    } else {
      assert (frags + [p])[1..] == frags[1..] + [p];
      PayloadsOfSnoc(frags[1..], p);
    }
  }

  lemma {:induction false} JoinSnoc(pieces: seq<seq<Byte>>, piece: seq<Byte>)
    ensures Join(pieces + [piece]) == Join(pieces) + piece
  {
    if pieces == [] {
      assert pieces + [piece] == [piece];
    } else {
      assert (pieces + [piece])[1..] == pieces[1..] + [piece];
      JoinSnoc(pieces[1..], piece);
    }
  }

  lemma JoinNext(frags: seq<LpPacket>, i: nat)
    requires i < |frags|
    ensures Join(PayloadsOf(frags[..i + 1])) == Join(PayloadsOf(frags[..i])) + Payload(frags[i])
  {
    assert frags[..i + 1] == frags[..i] + [frags[i]];
    PayloadsOfSnoc(frags[..i], frags[i]);
    JoinSnoc(PayloadsOf(frags[..i]), Payload(frags[i]));
  }

  lemma {:induction false} JoinPrefixLength(frags: seq<LpPacket>, i: nat)
    requires i <= |frags|
    ensures |Join(PayloadsOf(frags[..i]))| <= |Join(PayloadsOf(frags))|
    decreases |frags| - i
  {
    if i == |frags| {
      assert frags[..i] == frags;
    } else {
      JoinNext(frags, i);
      JoinPrefixLength(frags, i + 1);
    }
  }

  /** doReassembly: add up the sizes, then copy the fragments into one buffer. */
  method DoReassembly(frags: seq<LpPacket>) returns (payload: seq<Byte>)
    ensures payload == Join(PayloadsOf(frags))
  {
    var payloadSize := 0;
    for i := 0 to |frags|
      invariant payloadSize == |Join(PayloadsOf(frags[..i]))|
    {
      JoinNext(frags, i);
      payloadSize := payloadSize + |Payload(frags[i])|;
    }
    assert frags[..|frags|] == frags;
    var fragBuffer := new Byte[payloadSize];
    var at := 0;
    for i := 0 to |frags|
      invariant at == |Join(PayloadsOf(frags[..i]))| <= payloadSize
      invariant fragBuffer[..at] == Join(PayloadsOf(frags[..i]))
    {
      JoinNext(frags, i);
      JoinPrefixLength(frags, i + 1);
      var piece := Payload(frags[i]);
      CopyInto(fragBuffer, at, piece);
      assert fragBuffer[..at + |piece|] == fragBuffer[..at] + fragBuffer[at..at + |piece|];
      at := at + |piece|;
    }
    payload := fragBuffer[..];
    assert fragBuffer[..at] == fragBuffer[..];
  }

  /** std::copy. */
  method CopyInto(buffer: array<Byte>, at: nat, piece: seq<Byte>)
    requires at + |piece| <= buffer.Length
    modifies buffer
    ensures buffer[..at] == old(buffer[..at])
    ensures buffer[at..at + |piece|] == piece
    ensures buffer[at + |piece|..] == old(buffer[at + |piece|..])
  {
    for j := 0 to |piece|
      invariant buffer[..at] == old(buffer[..at])
      invariant buffer[at..at + j] == piece[..j]
      invariant buffer[at + |piece|..] == old(buffer[at + |piece|..])
    {
      buffer[at + j] := piece[j];
      assert buffer[at..at + j + 1] == buffer[at..at + j] + [piece[j]];
    }
    assert piece[..|piece|] == piece;
  }

  class LpReassembler {
    var nMaxFragments: nat
    var partialPackets: map<Key, PartialPacket>

    constructor (nMaxFragments: nat)
      ensures partialPackets == map[] && this.nMaxFragments == nMaxFragments
    {
      this.nMaxFragments := nMaxFragments;
      partialPackets := map[];
    }

    method ReceiveFragment(packet: LpPacket, remoteEndpoint: EndpointId) returns (out: Option<Delivery>)
      requires packet.fragment.Some? && SlotsMatchCount(partialPackets)
      modifies this`partialPackets
      ensures var r := Receive(old(partialPackets), nMaxFragments, packet, remoteEndpoint);
              partialPackets == r.partials && out == r.out
    {
      var fragIndex := 0;
      var fragCount := 1;
      if packet.fragIndex.Some? { fragIndex := packet.fragIndex.value; }
      if packet.fragCount.Some? { fragCount := packet.fragCount.value; }
      if fragIndex >= fragCount { return None; }
      if fragCount > nMaxFragments { return None; }
      if fragIndex == 0 && fragCount == 1 {
        return Some(Delivery(packet.fragment.value, packet));
      }
      if packet.sequence.None? { return None; }
      var key := Key(remoteEndpoint, Minus(packet.sequence.value, fragIndex));
      var pp := if key in partialPackets then partialPackets[key] else NewPartial(fragCount);
      if fragCount != pp.fragCount { return None; }
      if pp.fragments[fragIndex].sequence.Some? { return None; }
      pp := pp.(fragments := pp.fragments[fragIndex := packet], nReceived := pp.nReceived + 1);
      if pp.nReceived == pp.fragCount {
        var reassembled := DoReassembly(pp.fragments);
        partialPackets := partialPackets - {key};
        return Some(Delivery(reassembled, pp.fragments[0]));
      }
      partialPackets := partialPackets[key := pp.(dropTimer := true)];
      return None;
    }

    /** The drop timer of a partial packet expires; the result is what beforeTimeout reports. */
    method TimeoutPartialPacket(key: Key) returns (nDropped: Option<nat>)
      modifies this`partialPackets
      ensures partialPackets == old(partialPackets) - {key}
      ensures nDropped == if key in old(partialPackets) then Some(old(partialPackets)[key].nReceived) else None
    {
      if key !in partialPackets { return None; }
      nDropped := Some(partialPackets[key].nReceived);
      partialPackets := partialPackets - {key};
    }
  }

  // ---- safety for arbitrary input ----

  function CountFilled(frags: seq<LpPacket>): (n: nat)
    ensures n <= |frags|
  {
    if frags == [] then 0 else (if frags[0].sequence.Some? then 1 else 0) + CountFilled(frags[1..])
  }

  lemma {:induction false} CountFilledStore(frags: seq<LpPacket>, i: nat, p: LpPacket)
    requires i < |frags| && frags[i].sequence.None? && p.sequence.Some?
    ensures CountFilled(frags[i := p]) == CountFilled(frags) + 1
  {
    if i == 0 {
      assert frags[i := p][1..] == frags[1..];
    } else {
      assert frags[i := p][1..] == frags[1..][i - 1 := p];
      CountFilledStore(frags[1..], i - 1, p);
    }
  }

  lemma {:induction false} CountFilledEmpty(n: nat)
    ensures CountFilled(seq(n, _ => EMPTY_PACKET)) == 0
  {
    if n > 0 {
      assert seq(n, _ => EMPTY_PACKET)[1..] == seq(n - 1, _ => EMPTY_PACKET);
      CountFilledEmpty(n - 1);
    }
  }

  lemma {:induction false} AllFilled(frags: seq<LpPacket>)
    requires CountFilled(frags) == |frags|
    ensures forall i | 0 <= i < |frags| :: frags[i].sequence.Some?
  {
    if frags != [] { AllFilled(frags[1..]); }
  }

  /** Slot `j` of the message `key` holds a packet that arrived from that endpoint with FragIndex `j`,
      the right FragCount and the Sequence `j` places after the message identifier. */
  ghost predicate SlotSound(key: Key, n: nat, j: nat, p: LpPacket, arrived: set<(EndpointId, LpPacket)>) {
    && (key.endpoint, p) in arrived
    && p.sequence == Some(Plus(key.id, j)) && IndexField(p) == j && CountField(p) == n
  }

  ghost predicate PartialSound(key: Key, pp: PartialPacket, arrived: set<(EndpointId, LpPacket)>) {
    && |pp.fragments| == pp.fragCount
    && 1 <= pp.nReceived == CountFilled(pp.fragments) < pp.fragCount
    && pp.dropTimer
    && forall j | 0 <= j < |pp.fragments| :: pp.fragments[j].sequence.Some? ==>
         SlotSound(key, pp.fragCount, j, pp.fragments[j], arrived)
  }

  ghost predicate Sound(m: Partials, arrived: set<(EndpointId, LpPacket)>) {
    forall k | k in m :: PartialSound(k, m[k], arrived)
  }

  /** A delivery is one whole packet, or all the fragments 0..n-1 of one message, in order. */
  ghost predicate DeliverySound(d: Delivery, arrived: set<(EndpointId, LpPacket)>) {
    || (exists e :: (e, d.firstFrag) in arrived && d.payload == Payload(d.firstFrag)
                    && IndexField(d.firstFrag) == 0 && CountField(d.firstFrag) == 1)
    || (exists key, frags :: IsMessage(key, frags, arrived)
                    && d.firstFrag == frags[0] && d.payload == Join(PayloadsOf(frags)))
  }

  ghost predicate IsMessage(key: Key, frags: seq<LpPacket>, arrived: set<(EndpointId, LpPacket)>) {
    |frags| >= 2 && forall j | 0 <= j < |frags| :: SlotSound(key, |frags|, j, frags[j], arrived)
  }

  lemma PlusMinus(s: Sequence, i: nat)
    ensures Plus(Minus(s, i), i) == s
  {}

  lemma SoundGrows(m: Partials, arrived: set<(EndpointId, LpPacket)>, more: set<(EndpointId, LpPacket)>)
    requires Sound(m, arrived) && arrived <= more
    ensures Sound(m, more) && SlotsMatchCount(m)
  {
    forall k | k in m ensures PartialSound(k, m[k], more) && |m[k].fragments| == m[k].fragCount >= 1 {
      assert PartialSound(k, m[k], arrived);
    }
  }

  lemma StoreSound(key: Key, pp: PartialPacket, i: nat, p: LpPacket, arrived: set<(EndpointId, LpPacket)>)
    requires |pp.fragments| == pp.fragCount && pp.nReceived == CountFilled(pp.fragments)
    requires forall j | 0 <= j < |pp.fragments| :: pp.fragments[j].sequence.Some? ==>
               SlotSound(key, pp.fragCount, j, pp.fragments[j], arrived)
    requires i < pp.fragCount && pp.fragments[i].sequence.None? && SlotSound(key, pp.fragCount, i, p, arrived)
    ensures var s := Store(pp, i, p);
            && s.nReceived == CountFilled(s.fragments) && |s.fragments| == s.fragCount == pp.fragCount
            && forall j | 0 <= j < |s.fragments| :: s.fragments[j].sequence.Some? ==>
                 SlotSound(key, s.fragCount, j, s.fragments[j], arrived)
  {
    CountFilledStore(pp.fragments, i, p);
  }

  /** Whatever arrives: counts stay exact, slots stay sound, every partial packet has a drop timer, and
      what is delivered is one complete message. */
  lemma ReceiveKeepsSound(m: Partials, nMaxFragments: nat, p: LpPacket, e: EndpointId, arrived: set<(EndpointId, LpPacket)>)
    requires Sound(m, arrived) && (e, p) in arrived && SlotsMatchCount(m)
    ensures var r := Receive(m, nMaxFragments, p, e);
            Sound(r.partials, arrived) && (r.out.Some? ==> DeliverySound(r.out.value, arrived))
  {
    var i := IndexField(p);
    var n := CountField(p);
    var r := Receive(m, nMaxFragments, p, e);
    if i < n <= nMaxFragments && !(i == 0 && n == 1) && p.sequence.Some? {
      var key := KeyOf(p, e);
      var pp := if key in m then m[key] else NewPartial(n);
      if key in m { assert PartialSound(key, m[key], arrived); } else { CountFilledEmpty(n); }
      if n == pp.fragCount && pp.fragments[i].sequence.None? {
        PlusMinus(p.sequence.value, i);
        StoreSound(key, pp, i, p, arrived);
        var s := Store(pp, i, p);
        if s.nReceived == n {
          AllFilled(s.fragments);
          assert IsMessage(key, s.fragments, arrived);
        } else {
          assert PartialSound(key, s.(dropTimer := true), arrived);
        }
      }
    }
  }

  datatype Event = Arrive(pkt: LpPacket, endpoint: EndpointId) | DropTimer(key: Key)

  /** A run: arrivals and expiring timers; `arrived` collects what came in, `out` what went up. */
  datatype Run = Run(partials: Partials, arrived: set<(EndpointId, LpPacket)>, out: seq<Delivery>)

  ghost predicate GoodRun(r: Run) {
    Sound(r.partials, r.arrived) && SlotsMatchCount(r.partials) && forall d | d in r.out :: DeliverySound(d, r.arrived)
  }

  ghost function StepRun(r: Run, nMaxFragments: nat, ev: Event): Run
    requires SlotsMatchCount(r.partials)
  {
    match ev
    case Arrive(p, e) =>
      var q := Receive(r.partials, nMaxFragments, p, e);
      Run(q.partials, r.arrived + {(e, p)}, r.out + (if q.out.Some? then [q.out.value] else []))
    case DropTimer(key) => r.(partials := r.partials - {key})
  }

  lemma DeliverySoundGrows(d: Delivery, arrived: set<(EndpointId, LpPacket)>, more: set<(EndpointId, LpPacket)>)
    requires DeliverySound(d, arrived) && arrived <= more
    ensures DeliverySound(d, more)
  {
    if key, frags :| IsMessage(key, frags, arrived) && d.firstFrag == frags[0] && d.payload == Join(PayloadsOf(frags)) {
      assert IsMessage(key, frags, more);
    }
  }

  lemma StepKeepsGood(r: Run, nMaxFragments: nat, ev: Event)
    requires GoodRun(r)
    ensures GoodRun(StepRun(r, nMaxFragments, ev))
  {
    match ev
    case Arrive(p, e) =>
      var more := r.arrived + {(e, p)};
      SoundGrows(r.partials, r.arrived, more);
      ReceiveKeepsSound(r.partials, nMaxFragments, p, e, more);
      SoundGrows(Receive(r.partials, nMaxFragments, p, e).partials, more, more);
      forall d | d in r.out ensures DeliverySound(d, more) { DeliverySoundGrows(d, r.arrived, more); }
    case DropTimer(key) =>
  }

  /** Every run, for arbitrary packets and timers and a limit that may change: partial packets hold what
      they should, and only whole messages are delivered. */
  ghost function RunAll(limits: seq<nat>, events: seq<Event>): (r: Run)
    requires |limits| == |events|
    ensures GoodRun(r)
  {
    if events == [] then Run(map[], {}, [])
    else
      var n := |events| - 1;
      var before := RunAll(limits[..n], events[..n]);
      StepKeepsGood(before, limits[n], events[n]);
      StepRun(before, limits[n], events[n])
  }
}
