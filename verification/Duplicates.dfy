/** Which fragments are dropped as duplicates: those whose Sequence was received before and has not been reached
    by an eviction since. */
module Duplicates {
  import opened Sequence64
  import opened LpPackets
  import opened SendWindow
  import opened AckProcessing
  import opened AckQueue
  import opened Peers

  /** One of the two endpoints. */
  function Side(s: System, isA: bool): Endpoint {
    if isA then s.a else s.b
  }

  /** The Sequences of the fragments received. */
  ghost function Heard(received: seq<LpPacket>): set<Sequence> {
    set p | p in received && IsFragment(p) && p.sequence.Some? :: p.sequence.value
  }

  ghost predicate Honest(e: Endpoint) {
    OnlyReceived(e.peer.recent, Heard(e.received))
  }

  lemma HeardSnoc(received: seq<LpPacket>, pkt: LpPacket)
    ensures Heard(received + [pkt]) ==
            Heard(received) + (if IsFragment(pkt) && pkt.sequence.Some? then {pkt.sequence.value} else {})
  {
    forall s | s in Heard(received) ensures s in Heard(received + [pkt]) {
      var p :| p in received && IsFragment(p) && p.sequence == Some(s);
      assert p in received + [pkt];
    }
    assert pkt in received + [pkt];
  }

  /** The memory changes only when a numbered fragment arrives. */
  lemma StepMemory(c: Config, e: Endpoint, ev: Event, r: Endpoint)
    requires Step(c, e, ev, r)
    ensures r.received == e.received + (if ev.Receive? then [ev.pkt] else [])
    ensures r.peer.recent ==
            if ev.Receive? && IsFragment(ev.pkt) && ev.pkt.sequence.Some?
            then Remember(e.peer.recent, ev.pkt.sequence.value, ev.now, ev.rto) else e.peer.recent
  {
    hide Inv, HandleOutgoing, Lost, ProcessAcks, SendAll, IdleTimeout, Remember;
  }

  lemma StepKeepsHonest(c: Config, e: Endpoint, ev: Event, r: Endpoint)
    requires Honest(e) && Step(c, e, ev, r)
    ensures Honest(r)
  {
    hide Step, OnlyReceived, Remember, Heard;
    StepMemory(c, e, ev, r);
    if ev.Receive? {
      var pkt := ev.pkt;
      HeardSnoc(e.received, pkt);
      if IsFragment(pkt) && pkt.sequence.Some? {
        RememberSound(e.peer.recent, Heard(e.received), pkt.sequence.value, ev.now, ev.rto);
      } else {
        assert Heard(e.received) + {} == Heard(e.received);
      }
    } else {
      assert e.received + [] == e.received;
    }
  }

  /** An endpoint's step, or nothing. */
  lemma SideMoves(ca: Config, cb: Config, states: seq<System>, events: seq<(bool, Event)>, i: nat, isA: bool)
    requires IsRun(ca, cb, states, events) && i < |events|
    ensures var e, r := Side(states[i], isA), Side(states[i + 1], isA);
            if events[i].0 == isA then Step(if isA then ca else cb, e, events[i].1, r) else r == e
  {
    hide Step;
    assert Moves(ca, cb, states[i], events[i].0, events[i].1, states[i + 1]);
  }

  lemma {:induction false} RunsAreHonest(ca: Config, cb: Config, states: seq<System>, events: seq<(bool, Event)>, i: nat,
                                         isA: bool)
    requires IsRun(ca, cb, states, events) && i < |states|
    ensures Honest(Side(states[i], isA))
  {
    hide Step, Honest, Moves;
    if i == 0 {
      NewIsHonest();
    } else {
      RunsAreHonest(ca, cb, states, events, i - 1, isA);
      SideMoves(ca, cb, states, events, i - 1, isA);
      if events[i - 1].0 == isA {
        StepKeepsHonest(if isA then ca else cb, Side(states[i - 1], isA), events[i - 1].1, Side(states[i], isA));
      }
    }
  }

  lemma NewIsHonest()
    ensures Honest(NEW_ENDPOINT)
  {}

  /** In every run, when either endpoint reports a packet as not new, a fragment with the same Sequence
      reached it earlier: the first copy of every fragment goes on to the reassembler. */
  lemma OnlyDuplicatesAreDropped(ca: Config, cb: Config, states: seq<System>, events: seq<(bool, Event)>, i: nat,
                                 isA: bool, c: Config, pkt: LpPacket, now: int, rto: int)
    requires IsRun(ca, cb, states, events) && i < |states| && Inv(Side(states[i], isA).peer.tx)
    requires var r := ProcessIncoming(Side(states[i], isA).peer, c.opt, c.mtu, pkt, now, rto); r.ok && !r.isNew
    ensures exists p :: p in Side(states[i], isA).received && IsFragment(p) && p.sequence.Some? && p.sequence == pkt.sequence
  {
    hide IsRun, Inv, ProcessAcks, SendAll, Remember;
    RunsAreHonest(ca, cb, states, events, i, isA);
    assert pkt.sequence.value in Heard(Side(states[i], isA).received);
  }

  // ---- how long a Sequence is remembered ----

  /** Times are readings of the steady clock, and the head of the queue is in the map. */
  ghost predicate MemoryOk(r: Recent) {
    && (r.order != [] ==> r.order[0] in r.times)
    && forall s | s in r.times :: r.times[s] >= EPOCH
  }

  /** The eviction loop never leaves an entry behind that operator[] inserted: whatever comes to the head
      behind an evicted number and is not in the map is older than one RTO by the default time. */
  lemma {:induction false} EvictOnlyRemoves(r: Recent, now: int, rto: int)
    requires forall s | s in r.times :: r.times[s] >= EPOCH
    requires r.order != [] && r.order[0] !in r.times ==> now > EPOCH + rto
    ensures MemoryOk(Evict(r, now, rto))
    ensures forall s | s in Evict(r, now, rto).times :: s in r.times && Evict(r, now, rto).times[s] == r.times[s]
    decreases |r.order|
  {
    if r.order != [] {
      var k := r.order[0];
      var times := if k in r.times then r.times else r.times[k := EPOCH];
      if now > times[k] + rto {
        EvictOnlyRemoves(Recent(times - {k}, r.order[1..]), now, rto);
      }
    }
  }

  /** Everything up to position p of the queue that is in the map is older than one RTO. */
  ghost predicate OldUpTo(r: Recent, p: nat, now: int, rto: int)
    requires p < |r.order|
  {
    forall q | 0 <= q <= p && r.order[q] in r.times :: now > r.times[r.order[q]] + rto
  }

  /** The eviction loop gets as far as an occurrence of s. */
  ghost predicate Reached(r: Recent, s: Sequence, now: int, rto: int) {
    exists p: nat :: p < |r.order| && r.order[p] == s && OldUpTo(r, p, now, rto)
  }

  lemma ReachedBehind(r: Recent, s: Sequence, now: int, rto: int)
    requires r.order != [] && r.order[0] != s
    requires r.order[0] in r.times ==> now > r.times[r.order[0]] + rto
    ensures Reached(r, s, now, rto) <==> Reached(Recent(r.times - {r.order[0]}, r.order[1..]), s, now, rto)
  {
    var r1 := Recent(r.times - {r.order[0]}, r.order[1..]);
    forall p: nat | p + 1 < |r.order| ensures OldUpTo(r, p + 1, now, rto) <==> OldUpTo(r1, p, now, rto) {
      if OldUpTo(r, p + 1, now, rto) {
        forall q | 0 <= q <= p && r1.order[q] in r1.times ensures now > r1.times[r1.order[q]] + rto {
          assert r.order[q + 1] in r.times;
        }
      }
      if OldUpTo(r1, p, now, rto) {
        forall q | 0 <= q <= p + 1 && r.order[q] in r.times ensures now > r.times[r.order[q]] + rto {
          if r.order[q] != r.order[0] { assert r1.order[q - 1] in r1.times; }
        }
      }
    }
    if Reached(r, s, now, rto) {
      var p: nat :| p < |r.order| && r.order[p] == s && OldUpTo(r, p, now, rto);
      assert r1.order[p - 1] == s && OldUpTo(r1, p - 1, now, rto);
    }
    if Reached(r1, s, now, rto) {
      var p: nat :| p < |r1.order| && r1.order[p] == s && OldUpTo(r1, p, now, rto);
      assert r.order[p + 1] == s && OldUpTo(r, p + 1, now, rto);
    }
  }

  /** A remembered Sequence is forgotten exactly if the eviction loop reaches it: whatever stands before it
      in the queue keeps it, as long as that is not older than one RTO. */
  lemma {:induction false} EvictedIff(r: Recent, s: Sequence, now: int, rto: int)
    requires forall t | t in r.times :: r.times[t] >= EPOCH
    requires r.order != [] && r.order[0] !in r.times ==> now > EPOCH + rto
    requires s in r.times
    ensures s !in Evict(r, now, rto).times <==> Reached(r, s, now, rto)
    decreases |r.order|
  {
    if r.order != [] {
      var k := r.order[0];
      var times := if k in r.times then r.times else r.times[k := EPOCH];
      var r1 := Recent(times - {k}, r.order[1..]);
      assert times - {k} == r.times - {k};
      if now > times[k] + rto {
        EvictOnlyRemoves(r1, now, rto);
        if k == s {
          assert OldUpTo(r, 0, now, rto);
        } else {
          EvictedIff(r1, s, now, rto);
          ReachedBehind(r, s, now, rto);
        }
      } else {
        forall p: nat | p < |r.order| ensures !OldUpTo(r, p, now, rto) { assert r.order[0] in r.times; }
      }
    }
  }

  /** Exactly when a Sequence is in memory after a fragment numbered `got` has arrived, and with which time: a
      copy keeps the time unless the eviction at its own arrival reaches the Sequence, and then renews it. */
  lemma RememberIff(r: Recent, s: Sequence, got: Sequence, now: int, rto: int)
    requires MemoryOk(r) && now >= EPOCH
    ensures var q := Remember(r, got, now, rto); var kept := s in r.times && !Reached(r, s, now, rto);
            && MemoryOk(q)
            && (s in q.times <==> s == got || kept)
            && (s in q.times ==> q.times[s] == if kept then r.times[s] else now)
  {
    hide Reached;
    EvictOnlyRemoves(r, now, rto);
    if s in r.times { EvictedIff(r, s, now, rto); }
  }

  /** What is reached is older than one RTO. */
  lemma ReachedIsOld(r: Recent, s: Sequence, now: int, rto: int)
    requires s in r.times && Reached(r, s, now, rto)
    ensures now > r.times[s] + rto
  {}

  /** Clock readings do not lie before the epoch. */
  ghost predicate ClockOk(events: seq<(bool, Event)>) {
    forall i | 0 <= i < |events| && events[i].1.Receive? :: events[i].1.now >= EPOCH
  }

  /** The endpoint receives a fragment with a Sequence: only such an event touches its memory. */
  predicate Counts(ev: (bool, Event), isA: bool) {
    ev.0 == isA && ev.1.Receive? && IsFragment(ev.1.pkt) && ev.1.pkt.sequence.Some?
  }

  /** The memory after such an event, and after any other. */
  lemma MemoryMoves(ca: Config, cb: Config, states: seq<System>, events: seq<(bool, Event)>, i: nat, isA: bool)
    requires IsRun(ca, cb, states, events) && i < |events|
    ensures var r, q := Side(states[i], isA).peer.recent, Side(states[i + 1], isA).peer.recent; var ev := events[i].1;
            q == if Counts(events[i], isA) then Remember(r, ev.pkt.sequence.value, ev.now, ev.rto) else r
  {
    hide Step, Remember, Moves;
    SideMoves(ca, cb, states, events, i, isA);
    if events[i].0 == isA {
      StepMemory(if isA then ca else cb, Side(states[i], isA), events[i].1, Side(states[i + 1], isA));
    }
  }

  lemma {:induction false} MemoryStaysOk(ca: Config, cb: Config, states: seq<System>, events: seq<(bool, Event)>, i: nat,
                                         isA: bool)
    requires IsRun(ca, cb, states, events) && ClockOk(events) && i < |states|
    ensures MemoryOk(Side(states[i], isA).peer.recent)
  {
    hide Step, Moves, Remember, MemoryOk;
    if i == 0 {
      NewMemoryOk();
    } else {
      MemoryStaysOk(ca, cb, states, events, i - 1, isA);
      MemoryMoves(ca, cb, states, events, i - 1, isA);
      if Counts(events[i - 1], isA) {
        var ev := events[i - 1].1;
        var s := ev.pkt.sequence.value;
        RememberIff(Side(states[i - 1], isA).peer.recent, s, s, ev.now, ev.rto);
      }
    }
  }

  lemma NewMemoryOk()
    ensures MemoryOk(NEW_PEER.recent)
  {}

  /** The eviction at event u reaches the Sequence. */
  ghost predicate EvictedAt(states: seq<System>, events: seq<(bool, Event)>, u: nat, isA: bool, s: Sequence)
    requires u < |events| && u < |states|
  {
    && Counts(events[u], isA)
    && Reached(Side(states[u], isA).peer.recent, s, events[u].1.now, events[u].1.rto)
  }

  /** Event i is the last before state j in which the endpoint receives a fragment with this Sequence. */
  ghost predicate LastCopyAt(events: seq<(bool, Event)>, i: nat, j: nat, isA: bool, s: Sequence)
    requires i < j <= |events|
  {
    && Counts(events[i], isA) && events[i].1.pkt.sequence == Some(s)
    && forall u | i < u < j && Counts(events[u], isA) :: events[u].1.pkt.sequence != Some(s)
  }

  /** In every run a Sequence is still in memory iff no eviction since its last copy has reached it. Its time is
      then the one that copy found, if the eviction at its own arrival did not reach it, else that copy's. */
  lemma {:induction false} RememberedIff(ca: Config, cb: Config, states: seq<System>, events: seq<(bool, Event)>,
                                         i: nat, j: nat, isA: bool, s: Sequence)
    requires IsRun(ca, cb, states, events) && ClockOk(events) && i < j < |states| && LastCopyAt(events, i, j, isA, s)
    ensures var r, q := Side(states[i], isA).peer.recent, Side(states[j], isA).peer.recent;
            && (IsDuplicate(q, s) <==> forall u | i < u < j :: !EvictedAt(states, events, u, isA, s))
            && (IsDuplicate(q, s) ==>
                  q.times[s] == if IsDuplicate(r, s) && !EvictedAt(states, events, i, isA, s) then r.times[s]
                                else events[i].1.now)
    decreases j
  {
    hide Moves, Remember, Reached, MemoryOk, Counts;
    var r := Side(states[j - 1], isA).peer.recent;
    var ev := events[j - 1].1;
    MemoryStaysOk(ca, cb, states, events, j - 1, isA);
    MemoryMoves(ca, cb, states, events, j - 1, isA);
    CountsMeans(events[j - 1], isA);
    if Counts(events[j - 1], isA) {
      RememberIff(r, s, ev.pkt.sequence.value, ev.now, ev.rto);
    }
    if i < j - 1 {
      RememberedIff(ca, cb, states, events, i, j - 1, isA, s);
      assert (forall u | i < u < j :: !EvictedAt(states, events, u, isA, s)) <==>
             (forall u | i < u < j - 1 :: !EvictedAt(states, events, u, isA, s)) &&
             !EvictedAt(states, events, j - 1, isA, s);
    }
  }

  lemma CountsMeans(ev: (bool, Event), isA: bool)
    ensures Counts(ev, isA) ==> ev.1.Receive? && ev.1.pkt.sequence.Some?
  {}

  /** In every run a copy of a fragment passes as new iff an eviction since the last copy before it has reached
      its Sequence. */
  lemma CopyPassesIff(ca: Config, cb: Config, states: seq<System>, events: seq<(bool, Event)>, i: nat, j: nat,
                      isA: bool, c: Config, copy: LpPacket, now: int, rto: int)
    requires IsRun(ca, cb, states, events) && ClockOk(events) && i < j < |states|
    requires IsFragment(copy) && copy.sequence.Some? && Inv(Side(states[j], isA).peer.tx)
    requires LastCopyAt(events, i, j, isA, copy.sequence.value)
    ensures var r := ProcessIncoming(Side(states[j], isA).peer, c.opt, c.mtu, copy, now, rto);
            r.ok ==> (r.isNew <==> exists u | i < u < j :: EvictedAt(states, events, u, isA, copy.sequence.value))
  {
    hide IsRun, Remember, Inv, ProcessAcks, SendAll, EvictedAt, LastCopyAt;
    RememberedIff(ca, cb, states, events, i, j, isA, copy.sequence.value);
  }

  /** Between states i and j the endpoint receives no numbered fragment later than one RTO after t. */
  ghost predicate WithinRto(events: seq<(bool, Event)>, i: nat, j: nat, isA: bool, t: int)
    requires j <= |events|
  {
    forall u | i < u < j && Counts(events[u], isA) :: events[u].1.now <= t + events[u].1.rto
  }

  lemma {:induction false} StaysRemembered(ca: Config, cb: Config, states: seq<System>, events: seq<(bool, Event)>,
                                           i: nat, j: nat, isA: bool, s: Sequence, t: int)
    requires IsRun(ca, cb, states, events) && ClockOk(events) && i < j < |states| && WithinRto(events, i, j, isA, t)
    requires var r := Side(states[i + 1], isA).peer.recent; s in r.times && r.times[s] == t
    ensures var r := Side(states[j], isA).peer.recent; s in r.times && r.times[s] == t
    decreases j
  {
    hide Moves, Remember, Reached, MemoryOk, Counts;
    if i + 1 < j {
      StaysRemembered(ca, cb, states, events, i, j - 1, isA, s, t);
      MemoryStaysOk(ca, cb, states, events, j - 1, isA);
      MemoryMoves(ca, cb, states, events, j - 1, isA);
      CountsMeans(events[j - 1], isA);
      if Counts(events[j - 1], isA) {
        var r, ev := Side(states[j - 1], isA).peer.recent, events[j - 1].1;
        RememberIff(r, s, ev.pkt.sequence.value, ev.now, ev.rto);
        if Reached(r, s, ev.now, ev.rto) { ReachedIsOld(r, s, ev.now, ev.rto); }
      }
    }
  }

  /** In particular, after a fragment that was new, a copy is reported as a duplicate as long as no numbered
      fragment comes later than one RTO, as it is then, after the one that was new. */
  lemma CopyWithinRtoIsDropped(ca: Config, cb: Config, states: seq<System>, events: seq<(bool, Event)>, i: nat, j: nat,
                               isA: bool, c: Config, copy: LpPacket, now: int, rto: int)
    requires IsRun(ca, cb, states, events) && ClockOk(events) && i < j < |states| && Counts(events[i], isA)
    requires !IsDuplicate(Side(states[i], isA).peer.recent, events[i].1.pkt.sequence.value)
    requires WithinRto(events, i, j, isA, events[i].1.now)
    requires IsFragment(copy) && copy.sequence == events[i].1.pkt.sequence && Inv(Side(states[j], isA).peer.tx)
    ensures var r := ProcessIncoming(Side(states[j], isA).peer, c.opt, c.mtu, copy, now, rto); r.ok ==> !r.isNew
  {
    hide Moves, Remember, Inv, ProcessAcks, SendAll, Reached, MemoryOk;
    var ev := events[i].1;
    var s := ev.pkt.sequence.value;
    MemoryStaysOk(ca, cb, states, events, i, isA);
    MemoryMoves(ca, cb, states, events, i, isA);
    RememberIff(Side(states[i], isA).peer.recent, s, s, ev.now, ev.rto);
    StaysRemembered(ca, cb, states, events, i, j, isA, s, ev.now);
  }

  lemma HeadIsReached(r: Recent, s: Sequence, now: int, rto: int)
    requires r.order != [] && r.order[0] == s && s in r.times
    ensures Reached(r, s, now, rto) <==> now > r.times[s] + rto
  {
    if now > r.times[s] + rto { assert OldUpTo(r, 0, now, rto); }
    if Reached(r, s, now, rto) { ReachedIsOld(r, s, now, rto); }
  }

  /** Two copies and another fragment: a second copy within one RTO of the first does not prolong the memory,
      a later one starts it anew. */
  lemma SecondCopyRenewsIff(s: Sequence, other: Sequence, t0: int, t1: int, t2: int, rto0: int, rto1: int, rto2: int)
    requires s != other && EPOCH <= t0 <= t1 <= t2
    ensures var r := Remember(Remember(Remember(Recent(map[], []), s, t0, rto0), s, t1, rto1), other, t2, rto2);
            IsDuplicate(r, s) <==> t2 <= (if t1 <= t0 + rto1 then t0 else t1) + rto2
  {
    var r1 := Remember(Recent(map[], []), s, t0, rto0);
    assert r1 == Recent(map[s := t0], [s]) by { assert [] + [s] == [s]; }
    var r2 := Remember(r1, s, t1, rto1);
    HeadIsReached(r1, s, t1, rto1);
    RememberIff(r1, s, s, t1, rto1);
    assert r2.order[0] == s by {
      assert [s][1..] == [];
      assert Evict(Recent(r1.times - {s}, []), t1, rto1).order == [];
      assert Evict(r1, t1, rto1).order == if t1 > t0 + rto1 then [] else [s];
    }
    HeadIsReached(r2, s, t2, rto2);
    RememberIff(r2, s, other, t2, rto2);
  }
}
