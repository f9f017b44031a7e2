/** Fragmenting, numbering and reassembling is the identity: a message is delivered once for every time
    its fragments have all arrived without its partial packet being dropped in between. */
module RoundTrip {
  import opened Sequence64
  import opened LpPackets
  import opened LpFragmenter
  import opened LpReassembler

  // ---- numbering (assignSequences) ----

  function Number(frags: seq<LpPacket>, lastSeqNo: Sequence): (r: seq<LpPacket>)
    ensures |r| == |frags|
  {
    seq(|frags|, i requires 0 <= i < |frags| => frags[i].(sequence := Some(Plus(lastSeqNo, i + 1))))
  }

  // ---- messages and arrivals ----

  /** The fragments of one network packet, as sent by one endpoint. */
  datatype Message = Message(endpoint: EndpointId, frags: seq<LpPacket>)

  ghost predicate WellFormed(msg: Message, nMaxFragments: nat) {
    var n := |msg.frags|;
    && 1 <= n <= nMaxFragments
    && (forall i | 0 <= i < n :: msg.frags[i].fragment.Some?)
    && if n == 1 then IndexField(msg.frags[0]) == 0 && CountField(msg.frags[0]) == 1
       else && msg.frags[0].sequence.Some?
            && forall i | 0 <= i < n ::
                 && IndexField(msg.frags[i]) == i && CountField(msg.frags[i]) == n
                 && msg.frags[i].sequence == Some(Plus(msg.frags[0].sequence.value, i))
  }

  ghost predicate AllWellFormed(msgs: seq<Message>, nMaxFragments: nat) {
    forall m | 0 <= m < |msgs| :: WellFormed(msgs[m], nMaxFragments)
  }

  /** Endpoint and Sequence of the first fragment (which a well-formed fragmented message has). */
  ghost function MessageKey(msg: Message): Key {
    Key(msg.endpoint,
        if msg.frags != [] && msg.frags[0].sequence.Some? then msg.frags[0].sequence.value else 0)
  }

  /** What happens at the reassembler: packet `pkt` arrives, a transmission of fragment `idx` of message `msg`;
      or the drop timer of a partial packet expires. */
  datatype Happening = Arrival(msg: nat, idx: nat, pkt: LpPacket) | Drop(key: Key)

  ghost predicate Valid(msgs: seq<Message>, h: Happening) {
    h.Arrival? ==> h.msg < |msgs| && h.idx < |msgs[h.msg].frags| && Core(h.pkt) == Core(msgs[h.msg].frags[h.idx])
  }

  ghost predicate InRange(msgs: seq<Message>, trace: seq<Happening>) {
    forall h | h in trace && h.Arrival? :: h.msg < |msgs|
  }

  /** The partial packet of message m, if there is one, is dropped. */
  ghost predicate Drops(msgs: seq<Message>, h: Happening, m: nat) {
    h.Drop? && m < |msgs| && h.key == MessageKey(msgs[m])
  }

  ghost function Full(n: nat): (r: set<nat>)
    ensures forall i :: i in r <==> 0 <= i < n
  {
    if n == 0 then {} else Full(n - 1) + {n - 1}
  }

  /** The fragments of message m that have arrived since it was last complete or dropped. */
  ghost function Since(msgs: seq<Message>, trace: seq<Happening>, m: nat): set<nat> {
    if trace == [] || m >= |msgs| then {}
    else
      var before, last := trace[..|trace| - 1], trace[|trace| - 1];
      if Drops(msgs, last, m) then {}
      else if last.Drop? || last.msg != m then Since(msgs, before, m)
      else
        var s := Since(msgs, before, m) + {last.idx};
        if s == Full(|msgs[m].frags|) then {} else s
  }

  /** How often the fragments of message m have all arrived, counting anew each time and after every drop. */
  ghost function Rounds(msgs: seq<Message>, trace: seq<Happening>, m: nat): nat {
    if trace == [] || m >= |msgs| then 0
    else
      var before, last := trace[..|trace| - 1], trace[|trace| - 1];
      Rounds(msgs, before, m) + (if last.Arrival? && last.msg == m && Completes(msgs, trace) then 1 else 0)
  }

  /** The last arrival completes its message. */
  ghost predicate Completes(msgs: seq<Message>, trace: seq<Happening>)
    requires trace != [] && trace[|trace| - 1].Arrival?
  {
    var before, last := trace[..|trace| - 1], trace[|trace| - 1];
    last.msg < |msgs| && Since(msgs, before, last.msg) + {last.idx} == Full(|msgs[last.msg].frags|)
  }

  /** Some but not all fragments have arrived since it was last complete or dropped. */
  ghost predicate InFlight(msgs: seq<Message>, trace: seq<Happening>, m: nat) {
    m < |msgs| && |msgs[m].frags| >= 2 && Since(msgs, trace, m) != {}
  }

  /** No two messages in flight at the same time share an endpoint and a message identifier. */
  ghost predicate NoClash(msgs: seq<Message>, trace: seq<Happening>) {
    forall m: nat, m': nat | InFlight(msgs, trace, m) && InFlight(msgs, trace, m') && m != m' ::
      MessageKey(msgs[m]) != MessageKey(msgs[m'])
  }

  /** Any order, interleaving and duplication, also of messages already complete, and drops at any time, as long
      as identifiers in flight are distinct. */
  ghost predicate FairTrace(msgs: seq<Message>, trace: seq<Happening>) {
    trace != [] ==>
      var before, last := trace[..|trace| - 1], trace[|trace| - 1];
      FairTrace(msgs, before) && Valid(msgs, last) && NoClash(msgs, trace)
  }

  /** What the reassembler holds and has delivered after a trace, each delivery tagged with the message
      of the packet that triggered it. */
  datatype Progress = Progress(partials: Partials, delivered: seq<(nat, Delivery)>)

  ghost function RunTrace(msgs: seq<Message>, trace: seq<Happening>, nMaxFragments: nat): (r: Progress)
    requires InRange(msgs, trace)
    ensures SlotsMatchCount(r.partials)
  {
    if trace == [] then Progress(map[], [])
    else
      var before, last := trace[..|trace| - 1], trace[|trace| - 1];
      var r := RunTrace(msgs, before, nMaxFragments);
      if last.Drop? then r.(partials := r.partials - {last.key})
      else
        var q := Receive(r.partials, nMaxFragments, last.pkt, msgs[last.msg].endpoint);
        Progress(q.partials, r.delivered + (if q.out.Some? then [(last.msg, q.out.value)] else []))
  }

  // ---- sets of fragment indices ----

  lemma {:induction false} FullSize(n: nat)
    ensures |Full(n)| == n
  {
    if n > 0 {
      FullSize(n - 1);
      assert n - 1 !in Full(n - 1);
      assert Full(n) == Full(n - 1) + {n - 1};
    } else {
      assert Full(n) == {};
    }
  }

  lemma FullBySize(s: set<nat>, n: nat)
    requires s <= Full(n)
    ensures |s| == n <==> s == Full(n)
  {
    FullSize(n);
    if |s| == n && s != Full(n) {
      var x :| x in Full(n) && x !in s;
      assert s <= Full(n) - {x};
      Smaller(s, Full(n) - {x});
    }
  }

  lemma {:induction false} Smaller(s: set<nat>, t: set<nat>)
    requires s <= t
    ensures |s| <= |t|
  {
    if x :| x in s {
      Smaller(s - {x}, t - {x});
    }
  }

  lemma {:induction false} SinceInRange(msgs: seq<Message>, trace: seq<Happening>, m: nat)
    requires FairTrace(msgs, trace) && m < |msgs|
    ensures Since(msgs, trace, m) <= Full(|msgs[m].frags|)
    ensures |msgs[m].frags| >= 1 ==> Since(msgs, trace, m) != Full(|msgs[m].frags|)
    ensures AllValid(msgs, trace)
  {
    hide NoClash;
    if |msgs[m].frags| >= 1 { assert 0 in Full(|msgs[m].frags|); }
    if trace != [] {
      SinceInRange(msgs, trace[..|trace| - 1], m);
      forall h | h in trace ensures Valid(msgs, h) {
        assert h in trace[..|trace| - 1] || h == trace[|trace| - 1];
      }
    }
  }

  // ---- the reassembler's table mirrors the messages in flight ----

  ghost predicate Holds(msg: Message, seen: set<nat>, pp: PartialPacket) {
    && |pp.fragments| == pp.fragCount == |msg.frags|
    && pp.nReceived == |seen|
    && forall j | 0 <= j < |msg.frags| ::
         if j in seen then Core(pp.fragments[j]) == Core(msg.frags[j]) else pp.fragments[j] == EMPTY_PACKET
  }

  ghost predicate Mirrors(msgs: seq<Message>, trace: seq<Happening>, partials: Partials) {
    && (forall m: nat | InFlight(msgs, trace, m) ::
          MessageKey(msgs[m]) in partials && Holds(msgs[m], Since(msgs, trace, m), partials[MessageKey(msgs[m])]))
    && (forall k | k in partials :: exists m: nat :: InFlight(msgs, trace, m) && MessageKey(msgs[m]) == k)
  }

  /** The right delivery for a message: its payload, and headers that are those of its first fragment. */
  ghost predicate IsDeliveryOf(msg: Message, d: Delivery)
    requires |msg.frags| >= 1
  {
    d.payload == Join(PayloadsOf(msg.frags)) && Core(d.firstFrag) == Core(msg.frags[0])
  }

  lemma {:induction false} PayloadsFromCore(a: seq<LpPacket>, b: seq<LpPacket>)
    requires |a| == |b| && forall i | 0 <= i < |a| :: Core(a[i]) == Core(b[i])
    ensures PayloadsOf(a) == PayloadsOf(b)
  {
    if a != [] {
      assert Payload(a[0]) == Payload(b[0]) by { assert Core(a[0]).fragment == Core(b[0]).fragment; }
      PayloadsFromCore(a[1..], b[1..]);
    }
  }

  /** The identifier computed from any fragment is that of the message. */
  lemma KeyFromFragment(msg: Message, nMaxFragments: nat, i: nat, pkt: LpPacket)
    requires WellFormed(msg, nMaxFragments) && |msg.frags| >= 2 && i < |msg.frags| && Core(pkt) == Core(msg.frags[i])
    ensures pkt.sequence.Some? && IndexField(pkt) == i && CountField(pkt) == |msg.frags|
    ensures KeyOf(pkt, msg.endpoint) == MessageKey(msg)
  {
    assert Core(pkt).sequence == Core(msg.frags[i]).sequence;
    assert Core(pkt).fragIndex == Core(msg.frags[i]).fragIndex;
    assert Core(pkt).fragCount == Core(msg.frags[i]).fragCount;
    MinusPlus(msg.frags[0].sequence.value, i);
  }

  lemma MinusPlus(s: Sequence, i: nat)
    ensures Minus(Plus(s, i), i) == s
  {}

  lemma StoreHolds(msg: Message, seen: set<nat>, pp: PartialPacket, i: nat, pkt: LpPacket)
    requires Holds(msg, seen, pp) && i < |msg.frags| && i !in seen && Core(pkt) == Core(msg.frags[i])
    ensures Holds(msg, seen + {i}, Store(pp, i, pkt))
  {}

  lemma NewHolds(msg: Message)
    ensures Holds(msg, {}, NewPartial(|msg.frags|))
  {}

  // ---- one arrival ----

  /** What one arrival should deliver. */
  ghost predicate RightOutput(msgs: seq<Message>, trace: seq<Happening>, nMaxFragments: nat, out: Option<Delivery>)
    requires AllWellFormed(msgs, nMaxFragments) && trace != [] && trace[|trace| - 1].Arrival? && trace[|trace| - 1].msg < |msgs|
  {
    if Completes(msgs, trace) then out.Some? && IsDeliveryOf(msgs[trace[|trace| - 1].msg], out.value)
    else out.None?
  }

  lemma SingleArrival(msg: Message, nMaxFragments: nat, pkt: LpPacket, partials: Partials)
    requires WellFormed(msg, nMaxFragments) && |msg.frags| == 1 && Core(pkt) == Core(msg.frags[0])
    requires SlotsMatchCount(partials)
    ensures var r := Receive(partials, nMaxFragments, pkt, msg.endpoint);
            r.partials == partials && r.out.Some? && IsDeliveryOf(msg, r.out.value)
  {
    assert Core(pkt).fragIndex == Core(msg.frags[0]).fragIndex;
    assert Core(pkt).fragCount == Core(msg.frags[0]).fragCount;
    assert Core(pkt).fragment == Core(msg.frags[0]).fragment;
    assert msg.frags == [msg.frags[0]];
    assert Join(PayloadsOf(msg.frags)) == Payload(msg.frags[0]) + [];
  }

  /** The table entry that receiveFragment works on. */
  ghost function Entry(partials: Partials, msg: Message): PartialPacket {
    if MessageKey(msg) in partials then partials[MessageKey(msg)] else NewPartial(|msg.frags|)
  }

  /** receiveFragment for a fragment of a well-formed message, without the checks it passes. */
  lemma ReceiveUnfold(msg: Message, nMaxFragments: nat, i: nat, pkt: LpPacket, partials: Partials)
    requires WellFormed(msg, nMaxFragments) && |msg.frags| >= 2 && i < |msg.frags| && Core(pkt) == Core(msg.frags[i])
    requires SlotsMatchCount(partials)
    requires Entry(partials, msg).fragCount == |Entry(partials, msg).fragments| == |msg.frags|
    ensures var r := Receive(partials, nMaxFragments, pkt, msg.endpoint);
            var pp := Entry(partials, msg); var key := MessageKey(msg);
            if pp.fragments[i].sequence.Some? then r == ReceiveResult(partials, None)
            else
              var s := Store(pp, i, pkt);
              if s.nReceived == |msg.frags| then
                r == ReceiveResult(partials - {key}, Some(Delivery(Join(PayloadsOf(s.fragments)), s.fragments[0])))
              else r == ReceiveResult(partials[key := s.(dropTimer := true)], None)
  {
    KeyFromFragment(msg, nMaxFragments, i, pkt);
  }

  /** An arrival for a message of which `seen` is held, or nothing yet. */
  lemma MultiArrival(msg: Message, nMaxFragments: nat, seen: set<nat>, i: nat, pkt: LpPacket, partials: Partials)
    requires WellFormed(msg, nMaxFragments) && |msg.frags| >= 2 && i < |msg.frags| && Core(pkt) == Core(msg.frags[i])
    requires seen <= Full(|msg.frags|) && seen != Full(|msg.frags|)
    requires SlotsMatchCount(partials)
    requires var key := MessageKey(msg);
             if seen == {} then key !in partials else key in partials && Holds(msg, seen, partials[key])
    ensures var r := Receive(partials, nMaxFragments, pkt, msg.endpoint); var key := MessageKey(msg);
            && (forall k | k != key :: (k in r.partials <==> k in partials) && (k in partials ==> r.partials[k] == partials[k]))
            && if seen + {i} == Full(|msg.frags|)
               then key !in r.partials && r.out.Some? && IsDeliveryOf(msg, r.out.value)
               else key in r.partials && r.out.None? && Holds(msg, seen + {i}, r.partials[key])
  {
    hide Receive, WellFormed, PayloadsOf, Full;
    NewHolds(msg);
    var pp := Entry(partials, msg);
    ReceiveUnfold(msg, nMaxFragments, i, pkt, partials);
    SequenceFromCore(msg, nMaxFragments, i, pp.fragments[i]);
    if i in seen {
      assert seen + {i} == seen;
    } else {
      StoreHolds(msg, seen, pp, i, pkt);
      FullBySize(seen + {i}, |msg.frags|);
      if seen + {i} == Full(|msg.frags|) { CompleteDelivers(msg, Store(pp, i, pkt)); }
    }
  }

  lemma SequenceFromCore(msg: Message, nMaxFragments: nat, i: nat, pkt: LpPacket)
    requires WellFormed(msg, nMaxFragments) && |msg.frags| >= 2 && i < |msg.frags|
    ensures Core(pkt) == Core(msg.frags[i]) ==> pkt.sequence.Some?
    ensures i in Full(|msg.frags|)
  {
    if Core(pkt) == Core(msg.frags[i]) { KeyFromFragment(msg, nMaxFragments, i, pkt); }
  }

  lemma CompleteDelivers(msg: Message, pp: PartialPacket)
    requires |msg.frags| >= 1 && Holds(msg, Full(|msg.frags|), pp)
    ensures IsDeliveryOf(msg, Delivery(Join(PayloadsOf(pp.fragments)), pp.fragments[0]))
  {
    forall j | 0 <= j < |msg.frags| ensures Core(pp.fragments[j]) == Core(msg.frags[j]) {
      assert j in Full(|msg.frags|);
    }
    PayloadsFromCore(pp.fragments, msg.frags);
  }

  lemma OthersUnchanged(msgs: seq<Message>, trace: seq<Happening>, m: nat)
    requires trace != [] && trace[|trace| - 1].Arrival? && m != trace[|trace| - 1].msg
    ensures Since(msgs, trace, m) == Since(msgs, trace[..|trace| - 1], m)
    ensures InFlight(msgs, trace, m) <==> InFlight(msgs, trace[..|trace| - 1], m)
  {}

  lemma ArrivalIsHeld(msgs: seq<Message>, trace: seq<Happening>)
    requires trace != [] && trace[|trace| - 1].Arrival? && trace[|trace| - 1].msg < |msgs|
    ensures var last := trace[|trace| - 1]; var since := Since(msgs, trace, last.msg);
            if Completes(msgs, trace) then since == {} else last.idx in since
  {}

  lemma FirstArrivalInFlight(msgs: seq<Message>, trace: seq<Happening>)
    requires trace != []
    requires var last := trace[|trace| - 1];
             last.Arrival? && last.msg < |msgs| && |msgs[last.msg].frags| >= 2 && Since(msgs, trace[..|trace| - 1], last.msg) == {}
    ensures InFlight(msgs, trace, trace[|trace| - 1].msg)
  {
    var last := trace[|trace| - 1];
    assert 0 in Full(|msgs[last.msg].frags|) && 1 in Full(|msgs[last.msg].frags|);
  }

  lemma FairStep(msgs: seq<Message>, trace: seq<Happening>)
    requires trace != [] && FairTrace(msgs, trace)
    ensures var before, last := trace[..|trace| - 1], trace[|trace| - 1];
            && FairTrace(msgs, before) && Valid(msgs, last) && NoClash(msgs, trace) && NoClash(msgs, before)
  {}

  /** If nothing of the arriving message is held, its identifier is free. */
  lemma IdentifierFree(msgs: seq<Message>, trace: seq<Happening>, nMaxFragments: nat, partials: Partials)
    requires AllWellFormed(msgs, nMaxFragments) && trace != [] && NoClash(msgs, trace)
    requires Mirrors(msgs, trace[..|trace| - 1], partials)
    requires var last := trace[|trace| - 1];
             last.Arrival? && last.msg < |msgs| && |msgs[last.msg].frags| >= 2 && Since(msgs, trace[..|trace| - 1], last.msg) == {}
    ensures MessageKey(msgs[trace[|trace| - 1].msg]) !in partials
  {
    var before, last := trace[..|trace| - 1], trace[|trace| - 1];
    var key := MessageKey(msgs[last.msg]);
    hide WellFormed, Holds;
    if key in partials {
      var m: nat :| InFlight(msgs, before, m) && MessageKey(msgs[m]) == key;
      OthersUnchanged(msgs, trace, m);
      FirstArrivalInFlight(msgs, trace);
      assert false;
    }
  }

  lemma ArrivalKeepsMirror(msgs: seq<Message>, trace: seq<Happening>, nMaxFragments: nat, partials: Partials, r: ReceiveResult)
    requires AllWellFormed(msgs, nMaxFragments) && trace != [] && trace[|trace| - 1].Arrival? && FairTrace(msgs, trace)
    requires SlotsMatchCount(partials) && Mirrors(msgs, trace[..|trace| - 1], partials)
    requires var last := trace[|trace| - 1];
             r == Receive(partials, nMaxFragments, last.pkt, msgs[last.msg].endpoint)
    ensures Mirrors(msgs, trace, r.partials)
    ensures RightOutput(msgs, trace, nMaxFragments, r.out)
  {
    hide Receive, Holds, IsDeliveryOf, FairTrace, NoClash, WellFormed;
    FairStep(msgs, trace);
    var before, last := trace[..|trace| - 1], trace[|trace| - 1];
    var msg := msgs[last.msg];
    SinceInRange(msgs, before, last.msg);
    var seen := Since(msgs, before, last.msg);
    if |msg.frags| == 1 {
      assert last.idx == 0;
      SingleArrival(msg, nMaxFragments, last.pkt, partials);
      FullOne();
      assert seen + {0} == Full(1);
      MirrorSame(msgs, trace, nMaxFragments, partials);
    } else {
      WellFormedSize(msgs, nMaxFragments, last.msg);
      if seen == {} { IdentifierFree(msgs, trace, nMaxFragments, partials); }
      else { assert InFlight(msgs, before, last.msg); }
      MultiArrival(msg, nMaxFragments, seen, last.idx, last.pkt, partials);
      MirrorUpdate(msgs, trace, nMaxFragments, partials, r.partials);
    }
  }

  lemma WellFormedSize(msgs: seq<Message>, nMaxFragments: nat, m: nat)
    requires AllWellFormed(msgs, nMaxFragments) && m < |msgs|
    ensures |msgs[m].frags| >= 1
  {}

  lemma FullOne()
    ensures Full(1) == {0}
  {}

  lemma MirrorSame(msgs: seq<Message>, trace: seq<Happening>, nMaxFragments: nat, partials: Partials)
    requires AllWellFormed(msgs, nMaxFragments) && trace != []
    requires trace[|trace| - 1].Arrival? && trace[|trace| - 1].msg < |msgs| && |msgs[trace[|trace| - 1].msg].frags| == 1
    requires Mirrors(msgs, trace[..|trace| - 1], partials)
    ensures Mirrors(msgs, trace, partials)
  {
    hide Holds, WellFormed, Since;
    var before, last := trace[..|trace| - 1], trace[|trace| - 1];
    forall m: nat | InFlight(msgs, trace, m)
      ensures MessageKey(msgs[m]) in partials && Holds(msgs[m], Since(msgs, trace, m), partials[MessageKey(msgs[m])])
    {
      OthersUnchanged(msgs, trace, m);
    }
    forall k | k in partials ensures exists m: nat :: InFlight(msgs, trace, m) && MessageKey(msgs[m]) == k {
      var m: nat :| InFlight(msgs, before, m) && MessageKey(msgs[m]) == k;
      OthersUnchanged(msgs, trace, m);
    }
  }

  lemma MirrorUpdate(msgs: seq<Message>, trace: seq<Happening>, nMaxFragments: nat, partials: Partials, next: Partials)
    requires AllWellFormed(msgs, nMaxFragments) && trace != [] && NoClash(msgs, trace[..|trace| - 1])
    requires Mirrors(msgs, trace[..|trace| - 1], partials)
    requires trace[|trace| - 1].Arrival? && trace[|trace| - 1].msg < |msgs| && |msgs[trace[|trace| - 1].msg].frags| >= 2
    requires var m := trace[|trace| - 1].msg; var key := MessageKey(msgs[m]);
             && (forall k | k != key :: (k in next <==> k in partials) && (k in partials ==> next[k] == partials[k]))
             && if Completes(msgs, trace) then key !in next
                else key in next && Holds(msgs[m], Since(msgs, trace, m), next[key])
    requires var m := trace[|trace| - 1].msg; var key := MessageKey(msgs[m]);
             key in partials ==> InFlight(msgs, trace[..|trace| - 1], m)
    ensures Mirrors(msgs, trace, next)
  {
    hide Holds, WellFormed, Since, Completes;
    ArrivalIsHeld(msgs, trace);
    var before, last := trace[..|trace| - 1], trace[|trace| - 1];
    var key := MessageKey(msgs[last.msg]);
    forall m: nat | InFlight(msgs, trace, m)
      ensures MessageKey(msgs[m]) in next && Holds(msgs[m], Since(msgs, trace, m), next[MessageKey(msgs[m])])
    {
      if m != last.msg {
        OthersUnchanged(msgs, trace, m);
        assert MessageKey(msgs[m]) != key;
      }
    }
    forall k | k in next ensures exists m: nat :: InFlight(msgs, trace, m) && MessageKey(msgs[m]) == k {
      if k == key {
        assert InFlight(msgs, trace, last.msg);
      } else {
        var m: nat :| InFlight(msgs, before, m) && MessageKey(msgs[m]) == k;
        OthersUnchanged(msgs, trace, m);
      }
    }
  }

  /** A drop takes away what is held of one message. */
  lemma DropKeepsMirror(msgs: seq<Message>, trace: seq<Happening>, nMaxFragments: nat, partials: Partials)
    requires AllWellFormed(msgs, nMaxFragments) && trace != [] && trace[|trace| - 1].Drop?
    requires Mirrors(msgs, trace[..|trace| - 1], partials)
    ensures Mirrors(msgs, trace, partials - {trace[|trace| - 1].key})
  {
    hide Holds, WellFormed;
    var before, last := trace[..|trace| - 1], trace[|trace| - 1];
    forall m: nat | InFlight(msgs, trace, m) ensures InFlight(msgs, before, m) && MessageKey(msgs[m]) != last.key {}
    forall k | k in partials && k != last.key ensures exists m: nat :: InFlight(msgs, trace, m) && MessageKey(msgs[m]) == k {
      var m: nat :| InFlight(msgs, before, m) && MessageKey(msgs[m]) == k;
      assert InFlight(msgs, trace, m);
    }
  }

  lemma DropDelivers(msgs: seq<Message>, trace: seq<Happening>, nMaxFragments: nat, delivered: seq<(nat, Delivery)>)
    requires AllWellFormed(msgs, nMaxFragments) && trace != [] && trace[|trace| - 1].Drop?
    requires DeliveredByRounds(msgs, trace[..|trace| - 1], nMaxFragments, delivered)
    ensures DeliveredByRounds(msgs, trace, nMaxFragments, delivered)
  {
    hide IsDeliveryOf, WellFormed;
  }

  // ---- whole traces ----

  ghost function CountOf(delivered: seq<(nat, Delivery)>, m: nat): nat {
    if delivered == [] then 0
    else CountOf(delivered[..|delivered| - 1], m) + (if delivered[|delivered| - 1].0 == m then 1 else 0)
  }

  lemma CountSnoc(delivered: seq<(nat, Delivery)>, d: (nat, Delivery), m: nat)
    ensures CountOf(delivered + [d], m) == CountOf(delivered, m) + (if d.0 == m then 1 else 0)
  {
    assert (delivered + [d])[..|delivered|] == delivered;
  }

  /** Each message has been delivered once for every round of its fragments, and every delivery is the
      right one. */
  ghost predicate DeliveredByRounds(msgs: seq<Message>, trace: seq<Happening>, nMaxFragments: nat, delivered: seq<(nat, Delivery)>)
    requires AllWellFormed(msgs, nMaxFragments)
  {
    && (forall m: nat | m < |msgs| :: CountOf(delivered, m) == Rounds(msgs, trace, m))
    && (forall d | d in delivered :: d.0 < |msgs| && IsDeliveryOf(msgs[d.0], d.1))
  }

  lemma DeliveriesAdvance(msgs: seq<Message>, trace: seq<Happening>, nMaxFragments: nat,
                          delivered: seq<(nat, Delivery)>, out: Option<Delivery>)
    requires AllWellFormed(msgs, nMaxFragments) && trace != []
    requires trace[|trace| - 1].Arrival? && trace[|trace| - 1].msg < |msgs|
    requires DeliveredByRounds(msgs, trace[..|trace| - 1], nMaxFragments, delivered)
    requires RightOutput(msgs, trace, nMaxFragments, out)
    ensures DeliveredByRounds(msgs, trace, nMaxFragments,
                              delivered + (if out.Some? then [(trace[|trace| - 1].msg, out.value)] else []))
  {
    hide IsDeliveryOf, WellFormed, Since, Completes;
    var before, last := trace[..|trace| - 1], trace[|trace| - 1];
    var all := delivered + (if out.Some? then [(last.msg, out.value)] else []);
    forall m: nat | m < |msgs| ensures CountOf(all, m) == Rounds(msgs, trace, m) {
      if out.Some? { CountSnoc(delivered, (last.msg, out.value), m); } else { assert all == delivered; }
    }
  }

  /** For every fair trace, late copies and drops included, the reassembler delivers each message once for every
      round of its fragments, and nothing else. */
  lemma {:induction false} ReassemblyCountsRounds(msgs: seq<Message>, trace: seq<Happening>, nMaxFragments: nat)
    requires AllWellFormed(msgs, nMaxFragments) && FairTrace(msgs, trace)
    ensures InRange(msgs, trace)
    ensures var r := RunTrace(msgs, trace, nMaxFragments);
            && Mirrors(msgs, trace, r.partials)
            && DeliveredByRounds(msgs, trace, nMaxFragments, r.delivered)
  {
    hide WellFormed, Receive, RightOutput, DeliveredByRounds, Mirrors, Completes, Core, NoClash, FairTrace, SlotsMatchCount;
    if trace == [] {
      NothingYet(msgs, nMaxFragments);
    } else {
      FairStep(msgs, trace);
      var before, last := trace[..|trace| - 1], trace[|trace| - 1];
      ReassemblyCountsRounds(msgs, before, nMaxFragments);
      var r := RunTrace(msgs, before, nMaxFragments);
      assert trace == before + [last];
      if last.Drop? {
        DropKeepsMirror(msgs, trace, nMaxFragments, r.partials);
        DropDelivers(msgs, trace, nMaxFragments, r.delivered);
      } else {
        var q := Receive(r.partials, nMaxFragments, last.pkt, msgs[last.msg].endpoint);
        ArrivalKeepsMirror(msgs, trace, nMaxFragments, r.partials, q);
        DeliveriesAdvance(msgs, trace, nMaxFragments, r.delivered, q.out);
      }
    }
  }

  lemma NothingYet(msgs: seq<Message>, nMaxFragments: nat)
    requires AllWellFormed(msgs, nMaxFragments)
    ensures Mirrors(msgs, [], map[]) && DeliveredByRounds(msgs, [], nMaxFragments, [])
  {}

  // ---- when a message is delivered, and when exactly once ----

  ghost function Seen(trace: seq<Happening>, m: nat): set<nat> {
    set t | 0 <= t < |trace| && trace[t].Arrival? && trace[t].msg == m :: trace[t].idx
  }

  /** All fragments of the message have arrived. */
  ghost predicate Complete(msgs: seq<Message>, trace: seq<Happening>, m: nat)
    requires m < |msgs|
  {
    Seen(trace, m) == Full(|msgs[m].frags|)
  }

  ghost predicate NoDrop(msgs: seq<Message>, trace: seq<Happening>, m: nat) {
    forall h | h in trace :: !Drops(msgs, h, m)
  }

  /** There is a stretch without a drop of the message in which all its fragments arrive. */
  ghost predicate HasStretch(msgs: seq<Message>, trace: seq<Happening>, m: nat)
    requires m < |msgs|
  {
    exists i: nat, j: nat :: i <= j <= |trace| && NoDrop(msgs, trace[i..j], m) && Complete(msgs, trace[i..j], m)
  }

  ghost predicate AllValid(msgs: seq<Message>, trace: seq<Happening>) {
    forall h | h in trace :: Valid(msgs, h)
  }

  lemma SeenSnoc(trace: seq<Happening>, m: nat)
    requires trace != []
    ensures var before, last := trace[..|trace| - 1], trace[|trace| - 1];
            Seen(trace, m) == Seen(before, m) + (if last.Arrival? && last.msg == m then {last.idx} else {})
  {
    var before, last := trace[..|trace| - 1], trace[|trace| - 1];
    if last.Arrival? && last.msg == m { assert last.idx in Seen(trace, m) by { assert trace[|trace| - 1].msg == m; } }
    forall i | i in Seen(before, m) ensures i in Seen(trace, m) {
      var t :| 0 <= t < |before| && before[t].Arrival? && before[t].msg == m && before[t].idx == i;
      assert trace[t].Arrival? && trace[t].msg == m && trace[t].idx == i;
    }
    forall i | i in Seen(trace, m) ensures i in Seen(before, m) || (last.Arrival? && last.msg == m && last.idx == i) {
      var t :| 0 <= t < |trace| && trace[t].Arrival? && trace[t].msg == m && trace[t].idx == i;
      if t < |before| { assert before[t].Arrival? && before[t].msg == m && before[t].idx == i; }
    }
  }

  lemma SeenInRange(msgs: seq<Message>, trace: seq<Happening>, m: nat)
    requires AllValid(msgs, trace) && m < |msgs|
    ensures Seen(trace, m) <= Full(|msgs[m].frags|)
  {
    forall t | 0 <= t < |trace| && trace[t].Arrival? && trace[t].msg == m ensures trace[t].idx in Full(|msgs[m].frags|) {
      assert trace[t] in trace;
      assert Valid(msgs, trace[t]);
    }
  }

  /** What is held of a message is what arrived in a last stretch without a drop. */
  lemma {:induction false} SinceIsStretch(msgs: seq<Message>, trace: seq<Happening>, m: nat) returns (i: nat)
    requires m < |msgs|
    ensures i <= |trace| && NoDrop(msgs, trace[i..], m) && Since(msgs, trace, m) == Seen(trace[i..], m)
  {
    hide Drops;
    i := |trace|;
    if trace != [] && Since(msgs, trace, m) != {} {
      var before := trace[..|trace| - 1];
      i := SinceIsStretch(msgs, before, m);
      assert trace[i..][..|trace| - i - 1] == before[i..];
      assert trace[i..] == before[i..] + [trace[|trace| - 1]];
      SeenSnoc(trace[i..], m);
    }
  }

  lemma {:induction false} RoundHasStretch(msgs: seq<Message>, trace: seq<Happening>, m: nat)
    requires m < |msgs| && Rounds(msgs, trace, m) > 0
    ensures HasStretch(msgs, trace, m)
  {
    hide Complete, NoDrop, Drops;
    var before, last := trace[..|trace| - 1], trace[|trace| - 1];
    if Rounds(msgs, before, m) > 0 {
      RoundHasStretch(msgs, before, m);
      var i: nat, j: nat :| i <= j <= |before| && NoDrop(msgs, before[i..j], m) && Complete(msgs, before[i..j], m);
      assert trace[i..j] == before[i..j];
    } else {
      var i := SinceIsStretch(msgs, before, m);
      StretchEnds(msgs, trace, m, i);
    }
  }

  lemma StretchEnds(msgs: seq<Message>, trace: seq<Happening>, m: nat, i: nat)
    requires trace != [] && trace[|trace| - 1].Arrival? && trace[|trace| - 1].msg == m && Completes(msgs, trace)
    requires i < |trace|
    requires var before := trace[..|trace| - 1];
             NoDrop(msgs, before[i..], m) && Since(msgs, before, m) == Seen(before[i..], m)
    ensures HasStretch(msgs, trace, m)
  {
    var before := trace[..|trace| - 1];
    var rest := trace[i..|trace|];
    assert rest[..|rest| - 1] == before[i..];
    assert rest == before[i..] + [trace[|trace| - 1]];
    SeenSnoc(rest, m);
    assert NoDrop(msgs, rest, m) && Complete(msgs, rest, m);
  }

  lemma {:induction false} RoundsGrow(msgs: seq<Message>, a: seq<Happening>, b: seq<Happening>, m: nat)
    ensures Rounds(msgs, a + b, m) >= Rounds(msgs, a, m)
  {
    hide Completes;
    if b == [] {
      assert a + b == a;
    } else {
      assert (a + b)[..|a + b| - 1] == a + b[..|b| - 1];
      RoundsGrow(msgs, a, b[..|b| - 1], m);
    }
  }

  /** What arrives in a stretch without a drop and without a round is held at its end. */
  lemma {:induction false} StretchIsHeld(msgs: seq<Message>, a: seq<Happening>, b: seq<Happening>, m: nat)
    requires m < |msgs| && NoDrop(msgs, b, m) && Rounds(msgs, a + b, m) == Rounds(msgs, a, m)
    ensures Seen(b, m) <= Since(msgs, a + b, m)
  {
    hide Drops;
    if b != [] {
      var less := b[..|b| - 1];
      assert (a + b)[..|a + b| - 1] == a + less;
      RoundsGrow(msgs, a, less, m);
      forall h | h in less ensures !Drops(msgs, h, m) { assert h in b; }
      assert b[|b| - 1] in b;
      StretchIsHeld(msgs, a, less, m);
      SeenSnoc(b, m);
    }
  }

  lemma {:induction false} HeldInRange(msgs: seq<Message>, trace: seq<Happening>, m: nat)
    requires AllValid(msgs, trace) && m < |msgs| && |msgs[m].frags| >= 1
    ensures Since(msgs, trace, m) < Full(|msgs[m].frags|)
  {
    assert 0 in Full(|msgs[m].frags|);
    if trace != [] {
      var before := trace[..|trace| - 1];
      assert AllValid(msgs, before) by { forall h | h in before ensures Valid(msgs, h) { assert h in trace; } }
      assert trace[|trace| - 1] in trace;
      HeldInRange(msgs, before, m);
    }
  }

  /** For every trace, a message gets a round iff there is a stretch without a drop of it in which all its
      fragments arrive. */
  lemma RoundIffStretch(msgs: seq<Message>, trace: seq<Happening>, m: nat)
    requires AllValid(msgs, trace) && m < |msgs| && |msgs[m].frags| >= 1
    ensures Rounds(msgs, trace, m) > 0 <==> HasStretch(msgs, trace, m)
  {
    hide Rounds, Since, NoDrop;
    if HasStretch(msgs, trace, m) {
      var i: nat, j: nat :| i <= j <= |trace| && NoDrop(msgs, trace[i..j], m) && Complete(msgs, trace[i..j], m);
      var a, b, c := trace[..i], trace[i..j], trace[j..];
      assert trace == (a + b) + c;
      assert AllValid(msgs, a + b) by { forall h | h in a + b ensures Valid(msgs, h) { assert h in trace; } }
      RoundsGrow(msgs, a + b, c, m);
      RoundsGrow(msgs, a, b, m);
      if Rounds(msgs, a + b, m) == Rounds(msgs, a, m) {
        StretchIsHeld(msgs, a, b, m);
        HeldInRange(msgs, a + b, m);
        assert false;
      }
    }
    if Rounds(msgs, trace, m) > 0 { RoundHasStretch(msgs, trace, m); }
  }

  /** Without a drop the whole trace is such a stretch if any part of it is. */
  lemma NoDropNeedsAll(msgs: seq<Message>, trace: seq<Happening>, m: nat)
    requires AllValid(msgs, trace) && m < |msgs| && NoDrop(msgs, trace, m)
    ensures HasStretch(msgs, trace, m) <==> Complete(msgs, trace, m)
  {
    SeenInRange(msgs, trace, m);
    if HasStretch(msgs, trace, m) {
      var i: nat, j: nat :| i <= j <= |trace| && NoDrop(msgs, trace[i..j], m) && Complete(msgs, trace[i..j], m);
      SeenInSlice(trace, i, j, m);
    }
    if Complete(msgs, trace, m) { assert trace[0..|trace|] == trace; }
  }

  lemma SeenInSlice(trace: seq<Happening>, i: nat, j: nat, m: nat)
    requires i <= j <= |trace|
    ensures Seen(trace[i..j], m) <= Seen(trace, m)
  {
    forall x | x in Seen(trace[i..j], m) ensures x in Seen(trace, m) {
      var t :| 0 <= t < j - i && trace[i..j][t].Arrival? && trace[i..j][t].msg == m && trace[i..j][t].idx == x;
      assert trace[i + t].Arrival? && trace[i + t].msg == m && trace[i + t].idx == x;
    }
  }

  /** A trace that starts when nothing of the message is held counts on its own. */
  lemma {:induction false} RoundsAdd(msgs: seq<Message>, a: seq<Happening>, b: seq<Happening>, m: nat)
    requires Since(msgs, a, m) == {}
    ensures Since(msgs, a + b, m) == Since(msgs, b, m)
    ensures Rounds(msgs, a + b, m) == Rounds(msgs, a, m) + Rounds(msgs, b, m)
  {
    if b == [] {
      assert a + b == a;
    } else {
      assert (a + b)[..|a + b| - 1] == a + b[..|b| - 1];
      RoundsAdd(msgs, a, b[..|b| - 1], m);
    }
  }

  /** The t-th happening is the end of the first such stretch. */
  ghost predicate FirstStretch(msgs: seq<Message>, trace: seq<Happening>, m: nat, t: nat)
    requires m < |msgs|
  {
    1 <= t <= |trace| && HasStretch(msgs, trace[..t], m) && !HasStretch(msgs, trace[..t - 1], m)
  }

  lemma AllValidPart(msgs: seq<Message>, trace: seq<Happening>, i: nat, j: nat)
    requires AllValid(msgs, trace) && i <= j <= |trace|
    ensures AllValid(msgs, trace[i..j])
  {
    forall h | h in trace[i..j] ensures Valid(msgs, h) { assert h in trace; }
  }

  lemma FirstStretchIsRound(msgs: seq<Message>, trace: seq<Happening>, m: nat, t: nat)
    requires AllValid(msgs, trace) && m < |msgs| && |msgs[m].frags| >= 1 && FirstStretch(msgs, trace, m, t)
    ensures Rounds(msgs, trace[..t], m) == 1 && Since(msgs, trace[..t], m) == {}
  {
    hide HasStretch, AllValid;
    var head := trace[..t];
    assert head[..|head| - 1] == trace[..t - 1];
    AllValidPart(msgs, trace, 0, t);
    AllValidPart(msgs, trace, 0, t - 1);
    RoundIffStretch(msgs, trace[..t - 1], m);
    RoundIffStretch(msgs, head, m);
  }

  lemma {:induction false} FindFirstStretch(msgs: seq<Message>, trace: seq<Happening>, m: nat) returns (t: nat)
    requires AllValid(msgs, trace) && m < |msgs| && |msgs[m].frags| >= 1 && Rounds(msgs, trace, m) > 0
    ensures FirstStretch(msgs, trace, m, t)
  {
    hide HasStretch, AllValid;
    var before := trace[..|trace| - 1];
    AllValidPart(msgs, trace, 0, |trace| - 1);
    RoundIffStretch(msgs, before, m);
    RoundIffStretch(msgs, trace, m);
    if Rounds(msgs, before, m) > 0 {
      t := FindFirstStretch(msgs, before, m);
      assert before[..t] == trace[..t] && before[..t - 1] == trace[..t - 1];
    } else {
      t := |trace|;
      assert trace[..t] == trace;
    }
  }

  /** A message gets exactly one round iff there is such a stretch and what comes after the first one has none. */
  lemma OneRoundIff(msgs: seq<Message>, trace: seq<Happening>, m: nat)
    requires AllValid(msgs, trace) && m < |msgs| && |msgs[m].frags| >= 1
    ensures Rounds(msgs, trace, m) == 1 <==>
            exists t: nat :: FirstStretch(msgs, trace, m, t) && !HasStretch(msgs, trace[t..], m)
  {
    hide HasStretch, Rounds, Since, AllValid;
    forall t: nat | FirstStretch(msgs, trace, m, t)
      ensures Rounds(msgs, trace, m) == 1 <==> !HasStretch(msgs, trace[t..], m)
    {
      FirstStretchIsRound(msgs, trace, m, t);
      assert trace == trace[..t] + trace[t..];
      RoundsAdd(msgs, trace[..t], trace[t..], m);
      AllValidPart(msgs, trace, t, |trace|);
      assert trace[t..|trace|] == trace[t..];
      RoundIffStretch(msgs, trace[t..], m);
    }
    if Rounds(msgs, trace, m) == 1 {
      var t := FindFirstStretch(msgs, trace, m);
    }
  }

  /** For every fair trace a message is delivered exactly once iff its fragments all arrive without a drop in
      between, and what comes after the first time does not make up the whole message again. */
  lemma DeliveredOnceIff(msgs: seq<Message>, trace: seq<Happening>, nMaxFragments: nat, m: nat)
    requires AllWellFormed(msgs, nMaxFragments) && FairTrace(msgs, trace) && m < |msgs|
    ensures InRange(msgs, trace)
    ensures CountOf(RunTrace(msgs, trace, nMaxFragments).delivered, m) == 1 <==>
            exists t: nat :: FirstStretch(msgs, trace, m, t) && !HasStretch(msgs, trace[t..], m)
  {
    hide HasStretch, FirstStretch, Mirrors;
    ReassemblyCountsRounds(msgs, trace, nMaxFragments);
    SinceInRange(msgs, trace, m);
    OneRoundIff(msgs, trace, m);
  }

  /** No copy arrives after its message could be delivered. */
  ghost predicate NoLateCopy(msgs: seq<Message>, trace: seq<Happening>) {
    trace != [] ==>
      var before, last := trace[..|trace| - 1], trace[|trace| - 1];
      NoLateCopy(msgs, before) && (last.Arrival? ==> last.msg < |msgs| && !HasStretch(msgs, before, last.msg))
  }

  lemma {:induction false} NoLateRounds(msgs: seq<Message>, trace: seq<Happening>, m: nat)
    requires AllValid(msgs, trace) && NoLateCopy(msgs, trace) && m < |msgs| && |msgs[m].frags| >= 1
    ensures Rounds(msgs, trace, m) <= 1
  {
    hide HasStretch, AllValid;
    if trace != [] {
      AllValidPart(msgs, trace, 0, |trace| - 1);
      NoLateRounds(msgs, trace[..|trace| - 1], m);
      RoundIffStretch(msgs, trace[..|trace| - 1], m);
    }
  }

  /** Without late copies, the messages whose fragments all arrive without a drop in between are delivered,
      each exactly once. */
  lemma ReassemblyIsExact(msgs: seq<Message>, trace: seq<Happening>, nMaxFragments: nat, m: nat)
    requires AllWellFormed(msgs, nMaxFragments) && FairTrace(msgs, trace) && NoLateCopy(msgs, trace) && m < |msgs|
    ensures InRange(msgs, trace)
    ensures CountOf(RunTrace(msgs, trace, nMaxFragments).delivered, m) == if HasStretch(msgs, trace, m) then 1 else 0
  {
    hide HasStretch, Mirrors;
    ReassemblyCountsRounds(msgs, trace, nMaxFragments);
    SinceInRange(msgs, trace, m);
    NoLateRounds(msgs, trace, m);
    RoundIffStretch(msgs, trace, m);
  }

  // ---- from network packets to messages and back ----

  /** A network packet to send: the packet with its headers, the MTU left for fragmentation, the last
      Sequence assigned before it, and whether single fragments are numbered (reliability is on). */
  datatype Outgoing = Outgoing(endpoint: EndpointId, packet: LpPacket, mtu: nat, lastSeqNo: Sequence, reliable: bool)

  /** What the fragmenter accepts with this limit on the number of fragments. */
  ghost predicate Sendable(o: Outgoing, nMaxFragments: nat) {
    && IsNetPacket(o.packet)
    && (FastPath(o.packet, o.mtu) ||
        (RoomForFirst(o.packet, o.mtu) && |Payloads(o.packet, o.mtu)| <= nMaxFragments))
  }

  /** The fragments of a sendable packet. */
  ghost function Split(o: Outgoing): seq<LpPacket> {
    if o.packet.fragment.Some? && !FastPath(o.packet, o.mtu) && RoomForFirst(o.packet, o.mtu)
    then FragmentAll(o.packet, Payloads(o.packet, o.mtu)) else [o.packet]
  }

  ghost function MessageOf(o: Outgoing): Message {
    Message(o.endpoint, if o.reliable || |Split(o)| > 1 then Number(Split(o), o.lastSeqNo) else Split(o))
  }

  ghost function Messages(outs: seq<Outgoing>): seq<Message> {
    seq(|outs|, i requires 0 <= i < |outs| => MessageOf(outs[i]))
  }

  lemma {:induction false} PayloadsOfAll(frags: seq<LpPacket>, payloads: seq<seq<Byte>>)
    requires |frags| == |payloads| && forall i | 0 <= i < |frags| :: frags[i].fragment == Some(payloads[i])
    ensures PayloadsOf(frags) == payloads
  {
    if frags != [] {
      PayloadsOfAll(frags[1..], payloads[1..]);
      assert payloads == [payloads[0]] + payloads[1..];
    }
  }

  lemma PlusPlus(s: Sequence, i: nat)
    ensures Plus(Plus(s, 1), i) == Plus(s, i + 1)
  {}

  /** The numbered fragments of a packet form a well-formed message that carries exactly the packet;
      the other headers are on the first fragment. */
  lemma MessageIsFaithful(o: Outgoing, nMaxFragments: nat)
    requires Sendable(o, nMaxFragments) && nMaxFragments >= 1
    ensures WellFormed(MessageOf(o), nMaxFragments)
    ensures Join(PayloadsOf(MessageOf(o).frags)) == Payload(o.packet)
    ensures var first := MessageOf(o).frags[0];
            first.headers == o.packet.headers && first.congestionMark == o.packet.congestionMark
  {
    var msg := MessageOf(o);
    if FastPath(o.packet, o.mtu) {
      PayloadsOfAll(msg.frags, [o.packet.fragment.value]);
      assert Join([o.packet.fragment.value]) == o.packet.fragment.value + [];
    } else {
      PayloadsPartition(o.packet, o.mtu);
      PayloadsOfAll(msg.frags, Payloads(o.packet, o.mtu));
      forall i | 0 <= i < |msg.frags| ensures msg.frags[i].sequence == Some(Plus(msg.frags[0].sequence.value, i)) {
        PlusPlus(o.lastSeqNo, i);
      }
    }
  }

  /** Fragmenting, numbering and reassembling is the identity: for any packets from any endpoints, any
      Sequence numbers (wrapping included) and any fair arrival order, what is delivered for a packet is its
      payload and its headers; it is delivered once for every round of its fragments, and at least once
      iff all of them have arrived in a stretch in which it was not dropped. */
  lemma FragmentationIsIdentity(outs: seq<Outgoing>, trace: seq<Happening>, nMaxFragments: nat, m: nat)
    requires nMaxFragments >= 1 && (forall o | o in outs :: Sendable(o, nMaxFragments))
    requires FairTrace(Messages(outs), trace) && m < |outs|
    ensures InRange(Messages(outs), trace)
    ensures var msgs := Messages(outs); var delivered := RunTrace(msgs, trace, nMaxFragments).delivered;
            && CountOf(delivered, m) == Rounds(msgs, trace, m)
            && (CountOf(delivered, m) > 0 <==> HasStretch(msgs, trace, m))
            && forall d | d in delivered && d.0 == m ::
                 && d.1.payload == Payload(outs[m].packet)
                 && d.1.firstFrag.headers == outs[m].packet.headers
  {
    hide WellFormed, MessageOf, Sendable, FairTrace, RunTrace, Mirrors, HasStretch, Rounds;
    var msgs := Messages(outs);
    forall i | 0 <= i < |msgs| ensures WellFormed(msgs[i], nMaxFragments) {
      assert outs[i] in outs;
      MessageIsFaithful(outs[i], nMaxFragments);
    }
    MessageIsFaithful(outs[m], nMaxFragments);
    ReassemblyCountsRounds(msgs, trace, nMaxFragments);
    SinceInRange(msgs, trace, m);
    WellFormedSize(msgs, nMaxFragments, m);
    RoundIffStretch(msgs, trace, m);
    forall d | d in RunTrace(msgs, trace, nMaxFragments).delivered && d.0 == m
      ensures d.1.payload == Payload(outs[m].packet) && d.1.firstFrag.headers == outs[m].packet.headers
    {
      assert IsDeliveryOf(msgs[m], d.1);
      assert Core(d.1.firstFrag).headers == Core(msgs[m].frags[0]).headers;
    }
  }

  // ---- late copies ----

  /** All fragments of the only message, in order. */
  ghost function InOrder(msg: Message): seq<Happening> {
    seq(|msg.frags|, i requires 0 <= i < |msg.frags| => Arrival(0, i, msg.frags[i]))
  }

  lemma InOrderIsOneRound(msg: Message)
    requires |msg.frags| >= 1
    ensures AllValid([msg], InOrder(msg))
    ensures Rounds([msg], InOrder(msg), 0) == 1 && Since([msg], InOrder(msg), 0) == {}
  {
    var n, all := |msg.frags|, InOrder(msg);
    SeenInRange([msg], all, 0);
    SeenInRange([msg], all[..n - 1], 0);
    forall i | i in Full(n) ensures i in Seen(all, 0) {
      assert all[i].Arrival? && all[i].msg == 0 && all[i].idx == i;
    }
    assert all[..n] == all;
    assert n - 1 !in Seen(all[..n - 1], 0) && n - 1 in Full(n);
    NoDropNeedsAll([msg], all, 0);
    NoDropNeedsAll([msg], all[..n - 1], 0);
    FirstStretchIsRound([msg], all, 0, n);
  }

  lemma {:induction false} OneMessageIsFair(msg: Message, trace: seq<Happening>)
    requires AllValid([msg], trace)
    ensures FairTrace([msg], trace)
  {
    if trace != [] {
      var before, last := trace[..|trace| - 1], trace[|trace| - 1];
      assert last in trace;
      forall h | h in before ensures Valid([msg], h) { assert h in trace; }
      OneMessageIsFair(msg, before);
    }
  }

  /** A message that was complete is not remembered: for every message, the same fragments arriving again
      are delivered again. A single late copy is, unless it is the whole message. */
  lemma LateCopyIsDeliveredAgain(msg: Message, nMaxFragments: nat)
    requires WellFormed(msg, nMaxFragments)
    ensures var once := InOrder(msg); var again := once + once; var copy := once + [once[0]];
            && InRange([msg], again) && InRange([msg], copy)
            && CountOf(RunTrace([msg], again, nMaxFragments).delivered, 0) == 2
            && CountOf(RunTrace([msg], copy, nMaxFragments).delivered, 0) == (if |msg.frags| == 1 then 2 else 1)
  {
    hide WellFormed, RunTrace;
    var once := InOrder(msg);
    WellFormedSize([msg], nMaxFragments, 0);
    InOrderIsOneRound(msg);
    RoundsAdd([msg], once, once, 0);
    RoundsAdd([msg], once, [once[0]], 0);
    assert Rounds([msg], [once[0]], 0) == if |msg.frags| == 1 then 1 else 0 by {
      assert [once[0]][..0] == [] && Since([msg], [], 0) + {0} == {0};
      FullOne();
      if |msg.frags| > 1 { assert 1 in Full(|msg.frags|); }
    }
    OneMessageIsFair(msg, once + once);
    OneMessageIsFair(msg, once + [once[0]]);
    ReassemblyCountsRounds([msg], once + once, nMaxFragments);
    ReassemblyCountsRounds([msg], once + [once[0]], nMaxFragments);
  }
}
