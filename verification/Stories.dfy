/** Two short runs of the forwarder, with one downstream and two upstreams. In the first a Nack is passed on
    while an upstream still owes its answer; in the second an Interest is sent again too soon. */
module Stories {
  import opened Sequence64
  import opened Pit
  import opened RetxSuppression
  import opened BestRoute
  import opened Forwarding
  import opened OutRecords
  import opened NackAggregation
  import opened Spacing

  const DOWN := Face(0, NonLocal, PointToPoint)
  const A := Face(1, NonLocal, PointToPoint)
  const B := Face(2, NonLocal, PointToPoint)
  const IDS: FaceIds := map[DOWN := 1, A := 2, B := 3]
  const NAME: Name := ["news"]
  const KEY := Key(NAME, false, false)
  const MS := NANOSECONDS_PER_MS

  function Wants(nonce: nat): Interest {
    Interest(NAME, false, false, nonce, 4000, None, Untagged)
  }

  /** The downstream asks, with both upstreams as next hops. */
  function Ask(nonce: nat, now: nat): Event {
    InterestArrives(DOWN, Wants(nonce), None, [A, B], now)
  }

  // ---- extending a run ----

  lemma RunSnoc(start: State, events: seq<Event>, ev: Event)
    requires IsRun(start, events) && Enabled(After(start, events), ev)
    ensures IsRun(start, events + [ev]) && After(start, events + [ev]) == Step(After(start, events), ev)
    ensures Clock(events + [ev]) == NowOr(ev, Clock(events))
    ensures Timely(events) && Clock(events) <= NowOr(ev, Clock(events)) ==> Timely(events + [ev])
  {
    hide Step, Enabled;
    assert (events + [ev])[..|events|] == events;
  }

  /** What matters of the state here: the entry's records and the strategy's memory. */
  ghost predicate At(st: State, ins: set<Face>, out: map<Face, OutRecord>, interval: Option<nat>, forwards: nat,
                     lastSent: Option<Transmission>)
  {
    var e := EntryAt(st, KEY);
    && st.ids == IDS && st.dnl == {}
    && e.inRecords.Keys == ins && e.outRecords == out
    && e.interval == interval && e.forwards == forwards && e.lastSent == lastSent
  }

  lemma NameIsGlobal()
    ensures !(LOCALHOST <= NAME) && !(LOCALHOP <= NAME)
  {
    assert |"localhost"| != |"news"| && |"localhop"| != |"news"|;
    assert LOCALHOST[0] != NAME[0] && LOCALHOP[0] != NAME[0];
  }

  lemma BothEligible()
    ensures EligibleOf(IDS, DOWN, NAME, [A, B]) == [A, B]
  {
    NameIsGlobal();
    assert [A, B][..1] == [A] && [A][..0] == [];
    assert EligibleOf(IDS, DOWN, NAME, [A]) == [A];
  }

  /** The downstream's Interest is sent to `g`. */
  lemma AskStep(st: State, ins: set<Face>, out: map<Face, OutRecord>, interval: Option<nat>, forwards: nat,
                lastSent: Option<Transmission>, nonce: nat, now: nat, e: Entry, g: Face)
    requires At(st, ins, out, interval, forwards, lastSent) && ins <= {DOWN}
    requires KEY in st.pit ==> forall f | f in st.pit[KEY].inRecords :: st.pit[KEY].inRecords[f].nonce != nonce
    requires forall f | f in out :: out[f].nonce != nonce
    requires e == NEW_ENTRY.(outRecords := out, interval := interval, forwards := forwards, lastSent := lastSent)
    requires Decide(SUPPRESSION, e, now).0 != Suppress
    requires Choice(Decide(SUPPRESSION, e, now).0, Decide(SUPPRESSION, e, now).1, [A, B], now) == Some(g)
    ensures var w := WithOutRecord(Decide(SUPPRESSION, e, now).1, g, Wants(nonce), now);
            var st' := Step(st, Ask(nonce, now));
            && KEY in st'.pit && st'.pit[KEY].inRecords.Keys == {DOWN} && st'.pit[KEY].inRecords[DOWN].nonce == nonce
            && At(st', {DOWN}, w.outRecords, w.interval, w.forwards, w.lastSent)
  {
    hide EligibleOf, LifetimeEnd, Choice, IsLoop, Send;
    BothEligible();
    NameIsGlobal();
    var i := Wants(nonce);
    var st1 := st.(received := st.received + multiset{DOWN},
                   counters := st.counters.(nInInterests := st.counters.nInInterests + 1));
    var st2 := InsertEntry(st1, KEY);
    NotLooping(st2.pit[KEY], nonce);
    var full := WithInRecord(st2.pit[KEY], DOWN, i, now);
    assert DOWN in full.inRecords;
    var e' := full.(timer := Some(LifetimeEnd(full, now)));
    SameDecision(e, e', now, [A, B]);
  }

  lemma NotLooping(e: Entry, nonce: nat)
    requires forall f | f in e.inRecords :: e.inRecords[f].nonce != nonce
    requires forall f | f in e.outRecords :: e.outRecords[f].nonce != nonce
    ensures !IsLoop(e, nonce, DOWN)
  {}

  /** Decision and choice depend on the out-records and the strategy's memory only. */
  lemma SameDecision(e: Entry, e': Entry, now: nat, hops: seq<Face>)
    requires e'.outRecords == e.outRecords && e'.interval == e.interval && e'.forwards == e.forwards
    ensures var d, d' := Decide(SUPPRESSION, e, now), Decide(SUPPRESSION, e', now);
            && d'.0 == d.0 && d'.1 == e'.(interval := d.1.interval, forwards := d.1.forwards)
            && Choice(d'.0, d'.1, hops, now) == Choice(d.0, d.1, hops, now)
  {
    var d, d' := Decide(SUPPRESSION, e, now), Decide(SUPPRESSION, e', now);
    assert HasPending(e, now) <==> HasPending(e', now);
    SameSearch(d.1, d'.1, now, hops);
  }

  /** The searches over the two next hops. */
  lemma TwoHops(e: Entry, now: nat)
    ensures FirstUnused(e, [A, B], now) ==
            if IsUnused(e, A, now) then Some(A) else if IsUnused(e, B, now) then Some(B) else None
    ensures A in e.outRecords && B in e.outRecords ==>
            Earliest(e, [A, B]) == if e.outRecords[B].lastRenewed < e.outRecords[A].lastRenewed then Some(B) else Some(A)
  {
    assert [A, B][..1] == [A] && [A][..0] == [];
    assert FirstUnused(e, [A], now) == if IsUnused(e, A, now) then Some(A) else None;
    if A in e.outRecords { assert Earliest(e, [A]) == Some(A); }
  }

  lemma {:induction false} SameSearch(e: Entry, e': Entry, now: nat, hops: seq<Face>)
    requires e'.outRecords == e.outRecords
    ensures FirstUnused(e', hops, now) == FirstUnused(e, hops, now)
    ensures (forall f | f in hops :: f in e.outRecords) ==> Earliest(e', hops) == Earliest(e, hops)
  {
    if hops != [] { SameSearch(e, e', now, hops[..|hops| - 1]); }
  }

  // ---- the opening: the downstream asks twice, 10 ms apart ----

  const FACES: seq<Event> := [FaceAdded(DOWN, 1), FaceAdded(A, 2), FaceAdded(B, 3)]
  const ASKED_A: seq<Event> := FACES + [Ask(1, 0)]
  const ASKED_B: seq<Event> := ASKED_A + [Ask(2, 10 * MS)]

  const A1 := OutRecord(1, 0, 4000 * MS, None, [Asked(1)])
  const B2 := OutRecord(2, 10 * MS, 4010 * MS, None, [Asked(2)])

  lemma FacesAreAdded()
    ensures IsRun(Initial(0), FACES) && Timely(FACES) && Clock(FACES) == 0
    ensures At(After(Initial(0), FACES), {}, map[], None, 0, None)
    ensures After(Initial(0), FACES).pit == map[]
  {
    RunSnoc(Initial(0), [], FACES[0]);
    assert [] + [FACES[0]] == FACES[..1];
    RunSnoc(Initial(0), FACES[..1], FACES[1]);
    assert FACES[..1] + [FACES[1]] == FACES[..2];
    RunSnoc(Initial(0), FACES[..2], FACES[2]);
    assert FACES[..2] + [FACES[2]] == FACES;
  }

  /** The first Interest goes to A. */
  lemma FirstAsk()
    ensures IsRun(Initial(0), ASKED_A) && Timely(ASKED_A) && Clock(ASKED_A) == 0
    ensures var st := After(Initial(0), ASKED_A);
            && At(st, {DOWN}, map[A := A1], None, 0, Some(Transmission(A, 0)))
            && KEY in st.pit && st.pit[KEY].inRecords[DOWN].nonce == 1
  {
    hide IsRun, Step;
    FacesAreAdded();
    var st := After(Initial(0), FACES);
    RunSnoc(Initial(0), FACES, Ask(1, 0));
    AskStep(st, {}, map[], None, 0, None, 1, 0, NEW_ENTRY, A);
    assert [] + [Asked(1)] == [Asked(1)];
  }

  /** 10 ms later it may be forwarded again, and goes to B, which is unused. */
  lemma SecondAsk()
    ensures IsRun(Initial(0), ASKED_B) && Timely(ASKED_B) && Clock(ASKED_B) == 10 * MS
    ensures var st := After(Initial(0), ASKED_B);
            && At(st, {DOWN}, map[A := A1, B := B2], Some(20_000), 1, Some(Transmission(B, 10 * MS)))
            && KEY in st.pit && st.pit[KEY].inRecords[DOWN].nonce == 2
  {
    hide IsRun, Step;
    FirstAsk();
    var st := After(Initial(0), ASKED_A);
    RunSnoc(Initial(0), ASKED_A, Ask(2, 10 * MS));
    var e := NEW_ENTRY.(outRecords := map[A := A1], lastSent := Some(Transmission(A, 0)));
    assert A in e.outRecords && LastRenewal(e.outRecords) == 0;
    GrownDoubles(SUPPRESSION, 10_000);
    TwoHops(Decide(SUPPRESSION, e, 10 * MS).1, 10 * MS);
    AskStep(st, {DOWN}, map[A := A1], None, 0, Some(Transmission(A, 0)), 2, 10 * MS, e, B);
    assert [] + [Asked(2)] == [Asked(2)];
  }

  // ---- a Nack passed on too early ----

  const A_NACKS: seq<Event> := ASKED_B + [NackArrives(A, KEY, 1, Congestion, 15 * MS)]
  const ASKED_A_AGAIN: seq<Event> := A_NACKS + [Ask(3, 30 * MS)]

  const A1_NACKED := A1.(nack := Some(Congestion), history := [Asked(1), Refused(Congestion)])
  const A3 := OutRecord(3, 30 * MS, 4030 * MS, Some(Congestion), [Asked(1), Refused(Congestion), Asked(3)])

  /** A Nacks. B has not, so nothing is passed on. */
  lemma FirstNack()
    ensures IsRun(Initial(0), A_NACKS) && Timely(A_NACKS) && Clock(A_NACKS) == 15 * MS
    ensures var st := After(Initial(0), A_NACKS);
            && At(st, {DOWN}, map[A := A1_NACKED, B := B2], Some(20_000), 1, Some(Transmission(B, 10 * MS)))
            && KEY in st.pit && st.pit[KEY].inRecords[DOWN].nonce == 2
  {
    hide IsRun, After, Timely, Clock, IncomingNack, Told, LeastSevere;
    SecondAsk();
    var st := After(Initial(0), ASKED_B);
    RunSnoc(Initial(0), ASKED_B, NackArrives(A, KEY, 1, Congestion, 15 * MS));
    var e := WithNack(st.pit[KEY], A, Congestion);
    assert [Asked(1)] + [Refused(Congestion)] == [Asked(1), Refused(Congestion)];
    assert e.outRecords == map[A := A1_NACKED, B := B2];
    assert B in st.pit[KEY].outRecords && st.pit[KEY].outRecords[B].nack.None?;
    EarlierNackWaits(st, A, KEY, 1, Congestion, 15 * MS);
    NackKeepsMemory(st, A, KEY, 1, Congestion, 15 * MS);
    assert B in NotNacked(e) && B !in e.inRecords;
    var st' := IncomingNack(st, A, KEY, 1, Congestion, 15 * MS);
    UntoldSame(st, st', KEY);
  }

  lemma UntoldSame(st: State, st': State, k: Key)
    requires k in st.pit && k in st'.pit && forall f :: Untold(st, st', k, f)
    ensures st'.pit[k].inRecords == st.pit[k].inRecords
  {
    hide SentTo;
    var records, records' := st.pit[k].inRecords, st'.pit[k].inRecords;
    forall f ensures (f in records <==> f in records') && (f in records ==> records'[f] == records[f]) {
      assert Untold(st, st', k, f);
    }
  }

  lemma NackKeepsMemory(st: State, ingress: Face, k: Key, nonce: nat, reason: Reason, now: nat)
    requires Accepted(st, ingress, k, nonce)
    ensures var st' := IncomingNack(st, ingress, k, nonce, reason, now);
            && k in st'.pit && st'.pit[k].interval == st.pit[k].interval
            && st'.pit[k].forwards == st.pit[k].forwards && st'.pit[k].lastSent == st.pit[k].lastSent
  {
    hide HasPending, LeastSevere, NotNacked, Send, SendAll;
  }

  /** At 30 ms the Interest is forwarded again, to A, which was used earliest. Its Nack stays. */
  lemma ThirdAsk()
    ensures IsRun(Initial(0), ASKED_A_AGAIN) && Timely(ASKED_A_AGAIN) && Clock(ASKED_A_AGAIN) == 30 * MS
    ensures var st := After(Initial(0), ASKED_A_AGAIN);
            && At(st, {DOWN}, map[A := A3, B := B2], Some(40_000), 2, Some(Transmission(A, 30 * MS)))
            && KEY in st.pit && st.pit[KEY].inRecords[DOWN].nonce == 3
  {
    hide IsRun, Step;
    FirstNack();
    var st := After(Initial(0), A_NACKS);
    RunSnoc(Initial(0), A_NACKS, Ask(3, 30 * MS));
    var out := map[A := A1_NACKED, B := B2];
    var last := Some(Transmission(B, 10 * MS));
    var e := NEW_ENTRY.(outRecords := out, interval := Some(20_000), forwards := 1, lastSent := last);
    assert B in e.outRecords && A in e.outRecords && HasPending(e, 30 * MS);
    assert LastRenewal(e.outRecords) == 10 * MS;
    GrownDoubles(SUPPRESSION, 20_000);
    TwoHops(Decide(SUPPRESSION, e, 30 * MS).1, 30 * MS);
    AskStep(st, {DOWN}, out, Some(20_000), 1, last, 3, 30 * MS, e, A);
    assert A1_NACKED.history + [Asked(3)] == A3.history;
  }

  /** Then B Nacks, and the downstream is told although A has not answered the Interest it was sent last. */
  lemma ToldTooEarly()
    ensures IsRun(Initial(0), ASKED_A_AGAIN) && Timely(ASKED_A_AGAIN) && Clock(ASKED_A_AGAIN) <= 35 * MS
    ensures var st := After(Initial(0), ASKED_A_AGAIN);
            && Accepted(st, B, KEY, 2)
            && var st' := IncomingNack(st, B, KEY, 2, Congestion, 35 * MS);
               && KEY in st'.pit && Told(st, st', KEY, DOWN, Congestion)
               && A in st'.pit[KEY].outRecords && Unanswered(st'.pit[KEY].outRecords[A])
               && st'.pit[KEY].timer == Some(35 * MS)
  {
    hide IsRun, IncomingNack, Told, Untold;
    ThirdAsk();
    var st := After(Initial(0), ASKED_A_AGAIN);
    LastNackAnswersAll(st, B, KEY, 2, Congestion, 35 * MS);
    var e := WithNack(st.pit[KEY], B, Congestion);
    assert e.outRecords[A] == A3;
    assert Recorded(e, Congestion);
    assert DOWN in st.pit[KEY].inRecords && Reachable(st, DOWN);
  }

  // ---- an Interest sent again too soon ----

  const B_REMOVED: seq<Event> := ASKED_B + [FaceRemoved(B)]

  /** When B is removed, its out-record goes with it. Then the Interest may be forwarded 10 ms after it was
      sent to B, although the interval in force is 20 ms. */
  lemma SentAgainTooSoon()
    ensures IsRun(Initial(0), B_REMOVED) && Timely(B_REMOVED)
    ensures var st := After(Initial(0), B_REMOVED);
            && KEY in st.pit && st.pit[KEY].lastSent == Some(Transmission(B, 10 * MS))
            && Wait(st.pit[KEY]) == 20 * MS
            && Forwards(st.pit[KEY], 20 * MS) && !Spaced(st.pit[KEY])
  {
    hide IsRun, After, Forwards, Timely, Clock;
    SecondAsk();
    RunSnoc(Initial(0), ASKED_B, FaceRemoved(B));
    var e := After(Initial(0), B_REMOVED).pit[KEY];
    assert e.outRecords == map[A := A1];
    OnlyALeft(e);
    assert Power2(1) == 2;
  }

  lemma OnlyALeft(e: Entry)
    requires e.outRecords == map[A := A1] && e.interval == Some(20_000) && e.forwards == 1
    ensures Forwards(e, 20 * MS)
  {
    assert A in e.outRecords && LastRenewal(e.outRecords) == 0;
  }
}
