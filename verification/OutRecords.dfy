/** What every run keeps about the out-records of an entry: they tell what was sent and what came back, and what
    they tell agrees with the packets the faces were given. */
module OutRecords {
  import opened Sequence64
  import opened Pit
  import opened RetxSuppression
  import opened BestRoute
  import opened Forwarding
  import opened InterestLog

  // ---- how an event changes the out-records of one entry ----

  /** Some records are gone, the others are as they were. */
  ghost predicate Fewer(e: Entry, e': Entry) {
    && e'.lastSent == e.lastSent
    && forall f | f in e'.outRecords :: f in e.outRecords && e'.outRecords[f] == e.outRecords[f]
  }

  ghost predicate Sends(e: Entry, e': Entry, f: Face, i: Interest, now: nat) {
    var w := WithOutRecord(e, f, i, now);
    e'.outRecords == w.outRecords && e'.lastSent == w.lastSent
  }

  ghost predicate GetsNack(e: Entry, e': Entry, f: Face, reason: Reason) {
    f in e.outRecords && e'.outRecords == WithNack(e, f, reason).outRecords && e'.lastSent == e.lastSent
  }

  /** An event sends the entry's Interest once, or records one Nack, or at most deletes records. */
  ghost predicate Evolves(e: Entry, e': Entry, now: nat) {
    || Fewer(e, e')
    || (exists f, i :: Sends(e, e', f, i, now))
    || (exists f, reason :: GetsNack(e, e', f, reason))
  }

  ghost function EntryAt(st: State, k: Key): Entry {
    if k in st.pit then st.pit[k] else NEW_ENTRY
  }

  /** No Interest is sent, and no entry shows one. */
  ghost predicate AllKeep(st: State, st': State) {
    && NoneSent(st, st')
    && forall k | k in st'.pit ::
         || Fewer(EntryAt(st, k), st'.pit[k])
         || exists f, reason :: GetsNack(EntryAt(st, k), st'.pit[k], f, reason)
  }

  /** One Interest is sent, and its entry shows it. */
  ghost predicate Asks(st: State, st': State, a: Asking, i: Interest, now: nat) {
    && a.key in st'.pit && a.nonce == i.nonce && Sends(EntryAt(st, a.key), st'.pit[a.key], a.face, i, now)
    && (forall j | j in st'.pit && j != a.key :: Fewer(EntryAt(st, j), st'.pit[j]))
    && OneSent(st, st', a)
  }

  ghost predicate AllEvolve(st: State, st': State, now: nat) {
    AllKeep(st, st') || exists a, i :: Asks(st, st', a, i, now)
  }

  lemma EachEvolves(st: State, st': State, k: Key, now: nat)
    requires AllEvolve(st, st', now) && k in st'.pit
    ensures Evolves(EntryAt(st, k), st'.pit[k], now)
  {
    hide NoneSent, OneSent, Fewer, Sends, GetsNack;
  }

  /** Only entry k changes, and not its out-records; no Interest is sent. */
  ghost predicate Untouched(st: State, st': State, k: Key) {
    && k in st'.pit && st'.pit[k].outRecords == EntryAt(st, k).outRecords && st'.pit[k].lastSent == EntryAt(st, k).lastSent
    && (forall j | j in st'.pit && j != k :: j in st.pit && st'.pit[j] == st.pit[j])
    && NoneSent(st, st')
  }

  lemma UntouchedEvolves(st: State, st': State, k: Key, now: nat)
    requires Untouched(st, st', k)
    ensures AllEvolve(st, st', now)
  {
    hide WithOutRecord, NoneSent;
    forall j | j in st'.pit ensures Fewer(EntryAt(st, j), st'.pit[j]) {}
  }

  lemma SendEvolves(st: State, st1: State, k: Key, egress: Face, i: Interest, tagged: bool, now: nat)
    requires Untouched(st, st1, k)
    ensures k in st1.pit
    ensures AllEvolve(st, OutgoingInterest(st1, k, egress, i, tagged, now), now)
  {
    hide InterestsIn, OneSent, Send;
    var st' := OutgoingInterest(st1, k, egress, i, tagged, now);
    if i.hopLimit == Some(0) && egress.scope.NonLocal? {
      UntouchedEvolves(st, st', k, now);
    } else {
      var a := Asking(k, egress, i.nonce, tagged);
      assert OneSent(st, st', a) by {
        SendInterest(st1, st', a);
        NoneThenOne(st, st1, st', a);
      }
      assert Asks(st, st', a, i, now);
    }
  }

  lemma NackKeepsOutRecords(st: State, k: Key, egress: Face, reason: Reason)
    requires k in st.pit
    ensures Untouched(st, OutgoingNack(st, k, egress, reason), k)
  {
    hide InterestsIn;
    if NackPasses(st.ids, st.pit[k], egress) {
      SendOther(st, OutgoingNack(st, k, egress, reason), egress,
                SentNack(k.name, st.pit[k].inRecords[egress].nonce, reason));
    }
  }

  lemma UntouchedTwice(st: State, st1: State, st2: State, k: Key)
    requires Untouched(st, st1, k) && Untouched(st1, st2, k)
    ensures Untouched(st, st2, k)
  {
    hide InterestsIn;
  }

  lemma EntryUntouched(st: State, st1: State, k: Key, e: Entry)
    requires Untouched(st, st1, k)
    requires e.outRecords == st1.pit[k].outRecords && e.lastSent == st1.pit[k].lastSent
    ensures k in st1.pit
    ensures Untouched(st, st1.(pit := st1.pit[k := e]), k)
  {
    hide InterestsIn;
  }

  lemma DecideKeepsOutRecords(e: Entry, now: nat)
    ensures var e' := Decide(SUPPRESSION, e, now).1; e'.outRecords == e.outRecords && e'.lastSent == e.lastSent
  {}

  lemma StrategyEvolves(st: State, st1: State, k: Key, ingress: Face, i: Interest, nexthops: seq<Face>, now: nat)
    requires Untouched(st, st1, k)
    ensures k in st1.pit
    ensures AllEvolve(st, AfterReceiveInterest(st1, k, ingress, i, nexthops, now), now)
  {
    hide Choice, EligibleOf, OutgoingInterest, OutgoingNack, AllEvolve, Decide, NoneSent;
    assert k in st1.pit;
    var d, e := Decide(SUPPRESSION, st1.pit[k], now).0, Decide(SUPPRESSION, st1.pit[k], now).1;
    var decided := st1.(pit := st1.pit[k := e]);
    DecideKeepsOutRecords(st1.pit[k], now);
    EntryUntouched(st, st1, k, e);
    UntouchedEvolves(st, decided, k, now);
    if d != Suppress {
      var r := Choice(d, e, EligibleOf(st1.ids, ingress, i.name, nexthops), now);
      if r.Some? {
        SendEvolves(st, decided, k, r.value, i, false, now);
      } else if d == New {
        NackKeepsOutRecords(decided, k, ingress, NoRoute);
        var told := OutgoingNack(decided, k, ingress, NoRoute);
        UntouchedTwice(st, decided, told, k);
        EntryUntouched(st, told, k, told.pit[k].(timer := Some(now)));
        UntouchedEvolves(st, SetTimer(told, k, now), k, now);
      }
    }
  }

  lemma MissEvolves(st: State, st1: State, k: Key, ingress: Face, i: Interest, nexthops: seq<Face>, now: nat)
    requires Untouched(st, st1, k)
    ensures k in st1.pit
    ensures AllEvolve(st, ContentStoreMiss(st1, k, ingress, i, nexthops, now), now)
  {
    hide AfterReceiveInterest, OutgoingInterest, LifetimeEnd, AllEvolve, InterestsIn;
    var e := WithInRecord(st1.pit[k], ingress, i, now);
    assert ingress in e.inRecords;
    var e' := e.(timer := Some(LifetimeEnd(e, now)));
    EntryUntouched(st, st1, k, e');
    var pending := st1.(pit := st1.pit[k := e'], counters := st1.counters.(nCsMisses := st1.counters.nCsMisses + 1));
    assert Untouched(st, pending, k);
    match i.nextHop
    case NoSuchFace => UntouchedEvolves(st, pending, k, now);
    case Chosen(face) => SendEvolves(st, pending, k, face, i, true, now);
    case Untagged => StrategyEvolves(st, pending, k, ingress, i, nexthops, now);
  }

  lemma SamePitEvolves(st: State, st': State, now: nat)
    requires st'.pit == st.pit && NoneSent(st, st')
    ensures AllEvolve(st, st', now)
  {
    hide WithOutRecord, NoneSent;
    forall k | k in st'.pit ensures Fewer(EntryAt(st, k), st'.pit[k]) {}
  }

  lemma LoopSendsNone(st: State, ingress: Face, i: Interest)
    ensures InterestLoop(st, ingress, i).pit == st.pit && NoneSent(st, InterestLoop(st, ingress, i))
  {
    hide InterestsIn;
    if ingress.linkType.PointToPoint? {
      SendOther(st, InterestLoop(st, ingress, i), ingress, SentNack(i.name, i.nonce, Duplicate));
    }
  }

  lemma HitSendsNone(st: State, k: Key, ingress: Face, data: Data, now: nat)
    requires k in st.pit
    ensures Untouched(st, ContentStoreHit(st, k, ingress, data, now), k)
  {
    hide InterestsIn;
    if DataPasses(st.ids, ingress, data.name) {
      SendOther(st, ContentStoreHit(st, k, ingress, data, now), ingress, SentData(data.name));
    }
  }

  lemma AdmitEvolves(st: State, st1: State, k: Key, ingress: Face, i: Interest, cached: Option<Data>,
                     nexthops: seq<Face>, now: nat)
    requires Untouched(st, st1, k)
    ensures k in st1.pit
    ensures AllEvolve(st, Admit(st1, k, ingress, i, cached, nexthops, now), now)
  {
    hide AllEvolve, ContentStoreMiss, ContentStoreHit, InterestLoop, IsLoop, InterestsIn;
    if IsLoop(st1.pit[k], i.nonce, ingress) {
      LoopSendsNone(st1, ingress, i);
      UntouchedTwice(st, st1, InterestLoop(st1, ingress, i), k);
      UntouchedEvolves(st, InterestLoop(st1, ingress, i), k, now);
    } else if st1.pit[k].inRecords == map[] && cached.Some? {
      HitSendsNone(st1, k, ingress, cached.value, now);
      UntouchedTwice(st, st1, ContentStoreHit(st1, k, ingress, cached.value, now), k);
      UntouchedEvolves(st, ContentStoreHit(st1, k, ingress, cached.value, now), k, now);
    } else {
      MissEvolves(st, st1, k, ingress, i, nexthops, now);
    }
  }

  lemma ScreenEvolves(st: State, st1: State, ingress: Face, i: Interest, cached: Option<Data>, nexthops: seq<Face>,
                      now: nat)
    requires st1.pit == st.pit && st1.interests == st.interests && st1.sent == st.sent
    ensures AllEvolve(st, Screen(st1, ingress, i, cached, nexthops, now), now)
  {
    hide AllEvolve, Admit, InterestLoop, InterestsIn;
    SamePitEvolves(st, st1, now);
    LoopSendsNone(st1, ingress, i);
    SamePitEvolves(st, InterestLoop(st1, ingress, i), now);
    var k := KeyOf(i);
    assert Untouched(st, InsertEntry(st1, k), k);
    AdmitEvolves(st, InsertEntry(st1, k), k, ingress, i, cached, nexthops, now);
  }

  lemma InterestEvolves(st: State, ingress: Face, i0: Interest, cached: Option<Data>, nexthops: seq<Face>, now: nat)
    ensures AllEvolve(st, IncomingInterest(st, ingress, i0, cached, nexthops, now), now)
  {
    hide AllEvolve, Screen, InterestsIn;
    var st1 := st.(received := st.received + multiset{ingress},
                   counters := st.counters.(nInInterests := st.counters.nInInterests + 1));
    if i0.hopLimit == Some(0) {
      SamePitEvolves(st, st1.(nInHopLimitZero := st1.nInHopLimitZero + multiset{ingress}), now);
    } else {
      var i := if i0.hopLimit.Some? then i0.(hopLimit := Some(i0.hopLimit.value - 1)) else i0;
      ScreenEvolves(st, st1, ingress, i, cached, nexthops, now);
    }
  }

  lemma DataEvolves(st: State, ingress: Face, data: Data, matches: set<Key>, now: nat)
    requires matches <= st.pit.Keys
    ensures AllEvolve(st, IncomingData(st, ingress, data, matches, now), now)
  {
    hide SatisfyOne, SatisfyMany, AllEvolve, InterestsIn;
    var st1 := st.(counters := st.counters.(nInData := st.counters.nInData + 1));
    SamePitEvolves(st, st1, now);
    SamePitEvolves(st, st1.(counters := st1.counters.(nUnsolicited := st1.counters.nUnsolicited + 1)), now);
    forall k | k in matches { OneEvolves(st, st1, k, ingress, data, now); }
    ManyEvolve(st, st1, matches, ingress, data, now);
  }

  lemma DataSendsNone(st: State, st': State, faces: set<Face>, name: Name)
    requires st'.interests == st.interests && st'.sent == st.sent
    ensures NoneSent(st, SendDataEach(st', faces, name))
  {
    hide InterestsIn;
    var passing := set f | f in faces && DataPasses(st'.ids, f, name);
    SendAllOther(st, SendDataEach(st', faces, name), map f | f in passing :: SentData(name));
  }

  lemma OneEvolves(st: State, st1: State, k: Key, ingress: Face, data: Data, now: nat)
    requires k in st.pit && st1 == st.(counters := st1.counters)
    ensures AllEvolve(st, SatisfyOne(st1, k, ingress, data, now), now)
  {
    hide WithOutRecord, SendAll, DeadNonces, InterestsIn, NoneSent;
    var st' := SatisfyOne(st1, k, ingress, data, now);
    var e := st1.pit[k];
    var faces := set f | f in e.inRecords && IsPending(e, f, now) && !GoesBack(st1.ids, f, ingress);
    var e' := e.(timer := Some(now), inRecords := e.inRecords - faces, isSatisfied := true, freshness := data.freshness);
    DataSendsNone(st, st1.(pit := st1.pit[k := e'.(outRecords := e'.outRecords - {ingress})],
                           dnl := st1.dnl + DeadNonces(st1, k, e', {ingress})), faces, data.name);
    forall j | j in st'.pit ensures Fewer(EntryAt(st, j), st'.pit[j]) {}
  }

  lemma ManyEvolve(st: State, st1: State, matches: set<Key>, ingress: Face, data: Data, now: nat)
    requires matches <= st.pit.Keys && st1 == st.(counters := st1.counters)
    ensures AllEvolve(st, SatisfyMany(st1, matches, ingress, data, now), now)
  {
    hide WithOutRecord, SendAll, DeadNoncesOf, PendingDownstreams, InterestsIn, NoneSent;
    var st' := SatisfyMany(st1, matches, ingress, data, now);
    var faces := set f | f in PendingDownstreams(st1.pit, matches, now) && !GoesBack(st1.ids, f, ingress);
    DataSendsNone(st, st1.(pit := map k | k in st1.pit :: if k in matches then Satisfied(st1.pit[k], ingress, data, now) else st1.pit[k],
                           dnl := st1.dnl + DeadNoncesOf(st1, matches, ingress, data)), faces, data.name);
    forall j | j in st'.pit ensures Fewer(EntryAt(st, j), st'.pit[j]) {}
  }

  lemma ProcessNackKeepsOutRecords(st: State, k: Key)
    requires k in st.pit
    ensures Untouched(st, ProcessNack(st, k), k)
  {
    hide LeastSevere, OutgoingNack, NotNacked, InterestsIn;
    var e := st.pit[k];
    var reason := LeastSevere(e);
    forall f { NackKeepsOutRecords(st, k, f, reason); }
    var faces := set f | f in e.inRecords && NackPasses(st.ids, e, f);
    SendAllOther(st, SendNackEach(st, k, reason), map f | f in faces :: SentNack(k.name, e.inRecords[f].nonce, reason));
  }

  lemma NackEvolves(st: State, ingress: Face, k: Key, nonce: nat, reason: Reason, now: nat)
    ensures AllEvolve(st, IncomingNack(st, ingress, k, nonce, reason, now), now)
  {
    hide ProcessNack, HasPending, InterestsIn;
    var st' := IncomingNack(st, ingress, k, nonce, reason, now);
    var st1 := st.(counters := st.counters.(nInNacks := st.counters.nInNacks + 1));
    if st' == st1 {
      SamePitEvolves(st, st', now);
    } else {
      var e := WithNack(st.pit[k], ingress, reason);
      var e' := if HasPending(e, now) then e else e.(timer := Some(now));
      var st2 := st1.(pit := st1.pit[k := e']);
      ProcessNackKeepsOutRecords(st2, k);
      assert NoneSent(st, st');
      assert GetsNack(st.pit[k], st'.pit[k], ingress, reason);
      forall j | j in st'.pit && j != k ensures Fewer(EntryAt(st, j), st'.pit[j]) {}
    }
  }

  /** The clock reading an event comes with; timers, faces and forgotten nonces need none. */
  function TimeOf(ev: Event): Option<nat> {
    match ev
    case InterestArrives(_, _, _, _, now) => Some(now)
    case DataArrives(_, _, _, now) => Some(now)
    case NackArrives(_, _, _, _, now) => Some(now)
    case _ => None
  }

  function NowOr(ev: Event, clock: nat): nat {
    if TimeOf(ev).Some? then TimeOf(ev).value else clock
  }

  lemma StepEvolves(st: State, ev: Event, clock: nat)
    requires Enabled(st, ev)
    ensures AllEvolve(st, Step(st, ev), NowOr(ev, clock))
  {
    hide IncomingInterest, IncomingData, IncomingNack, WithOutRecord, DeadNonces, InterestsIn;
    match ev
    case InterestArrives(ingress, i, cached, nexthops, now) => InterestEvolves(st, ingress, i, cached, nexthops, now);
    case DataArrives(ingress, data, matches, now) => DataEvolves(st, ingress, data, matches, now);
    case NackArrives(ingress, k, nonce, reason, now) => NackEvolves(st, ingress, k, nonce, reason, now);
    case TimerExpires(k) => assert forall j | j in Step(st, ev).pit :: Fewer(EntryAt(st, j), Step(st, ev).pit[j]);
    case FaceAdded(f, id) => SamePitEvolves(st, Step(st, ev), clock);
    case FaceRemoved(f) => assert forall j | j in Step(st, ev).pit :: Fewer(EntryAt(st, j), Step(st, ev).pit[j]);
    case NoncesForgotten(entries) => SamePitEvolves(st, Step(st, ev), clock);
  }

  // ---- runs on a clock that does not go back ----

  /** The latest clock reading of a run. */
  function Clock(events: seq<Event>): nat {
    if events == [] then 0 else NowOr(events[|events| - 1], Clock(events[..|events| - 1]))
  }

  predicate Timely(events: seq<Event>) {
    events != [] ==>
      var before := events[..|events| - 1];
      Timely(before) && Clock(before) <= Clock(events)
  }

  // ---- records tell the truth ----

  function LastAsked(h: seq<Exchange>): Option<nat> {
    if h == [] then None
    else if h[|h| - 1].Asked? then Some(h[|h| - 1].nonce) else LastAsked(h[..|h| - 1])
  }

  function LastRefused(h: seq<Exchange>): Option<Reason> {
    if h == [] then None
    else if h[|h| - 1].Refused? then Some(h[|h| - 1].reason) else LastRefused(h[..|h| - 1])
  }

  /** The Nonce is that of the last Interest sent, the Nack the last one accepted, whatever was sent since. */
  predicate RecordTrue(r: OutRecord) {
    LastAsked(r.history) == Some(r.nonce) && LastRefused(r.history) == r.nack
  }

  /** The last transmission is no earlier than any record tells, and what its own record tells if that is
      still there. */
  ghost predicate SentTrue(e: Entry, clock: nat) {
    match e.lastSent
    case None => e.outRecords == map[]
    case Some(s) =>
      && s.time <= clock
      && (forall f | f in e.outRecords :: e.outRecords[f].lastRenewed <= s.time)
      && (s.face in e.outRecords ==> e.outRecords[s.face].lastRenewed == s.time)
  }

  ghost predicate EntryTrue(e: Entry, clock: nat) {
    SentTrue(e, clock) && forall f | f in e.outRecords :: RecordTrue(e.outRecords[f])
  }

  lemma FewerKeepsTrue(e: Entry, e': Entry, clock: nat, now: nat)
    requires EntryTrue(e, clock) && Fewer(e, e') && clock <= now
    ensures EntryTrue(e', now)
  {
    hide RecordTrue;
    if e.lastSent.None? { assert forall f :: f !in e'.outRecords; }
  }

  lemma SendKeepsTrue(e: Entry, e': Entry, f: Face, i: Interest, clock: nat, now: nat)
    requires EntryTrue(e, clock) && Sends(e, e', f, i, now) && clock <= now
    ensures EntryTrue(e', now)
  {
    hide LastAsked, LastRefused;
    HistoryGrows(HistoryOf(e, f), Asked(i.nonce));
    NoHistory();
    assert RecordTrue(e'.outRecords[f]);
    forall g | g in e'.outRecords && g != f ensures g in e.outRecords && e'.outRecords[g] == e.outRecords[g] {}
  }

  lemma NackKeepsTrue(e: Entry, e': Entry, f: Face, reason: Reason, clock: nat, now: nat)
    requires EntryTrue(e, clock) && GetsNack(e, e', f, reason) && clock <= now
    ensures EntryTrue(e', now)
  {
    hide LastAsked, LastRefused;
    HistoryGrows(e.outRecords[f].history, Refused(reason));
    assert RecordTrue(e'.outRecords[f]);
    forall g | g in e'.outRecords && g != f ensures g in e.outRecords && e'.outRecords[g] == e.outRecords[g] {}
  }

  lemma EvolvesKeepsTrue(e: Entry, e': Entry, clock: nat, now: nat)
    requires EntryTrue(e, clock) && Evolves(e, e', now) && clock <= now
    ensures EntryTrue(e', now)
  {
    hide EntryTrue, Fewer, Sends, GetsNack;
    if Fewer(e, e') {
      FewerKeepsTrue(e, e', clock, now);
    } else if f, i :| Sends(e, e', f, i, now) {
      SendKeepsTrue(e, e', f, i, clock, now);
    } else {
      var f, reason :| GetsNack(e, e', f, reason);
      NackKeepsTrue(e, e', f, reason, clock, now);
    }
  }

  lemma NoHistory()
    ensures LastRefused([]) == None
  {}

  lemma HistoryGrows(h: seq<Exchange>, t: Exchange)
    ensures LastAsked(h + [t]) == if t.Asked? then Some(t.nonce) else LastAsked(h)
    ensures LastRefused(h + [t]) == if t.Refused? then Some(t.reason) else LastRefused(h)
  {
    assert (h + [t])[..|h|] == h;
  }

  /** In every run on a clock that does not go back, every out-record has the Nonce last sent and the Nack
      last accepted, and the last transmission of an entry is known from its records unless its own
      record was deleted. */
  lemma {:induction false} RecordsAreTrue(dnlLifetime: nat, events: seq<Event>, k: Key)
    requires IsRun(Initial(dnlLifetime), events) && Timely(events)
    ensures k in After(Initial(dnlLifetime), events).pit ==>
              EntryTrue(After(Initial(dnlLifetime), events).pit[k], Clock(events))
  {
    hide Step, Enabled, EntryTrue, Evolves, NowOr, AllEvolve;
    if events != [] && k in After(Initial(dnlLifetime), events).pit {
      var before, ev := events[..|events| - 1], events[|events| - 1];
      var st := After(Initial(dnlLifetime), before);
      RecordsAreTrue(dnlLifetime, before, k);
      NewIsTrue(Clock(before));
      StepEvolves(st, ev, Clock(before));
      EachEvolves(st, Step(st, ev), k, NowOr(ev, Clock(before)));
      EvolvesKeepsTrue(EntryAt(st, k), Step(st, ev).pit[k], Clock(before), Clock(events));
    }
  }

  lemma NewIsTrue(clock: nat)
    ensures EntryTrue(NEW_ENTRY, clock)
  {}

  // ---- the records and the packets ----

  /** In every run the Interests a face was given are those of the log, in order. */
  lemma {:induction false} FacesShowTheLog(dnlLifetime: nat, events: seq<Event>, f: Face)
    requires IsRun(Initial(dnlLifetime), events)
    ensures var st := After(Initial(dnlLifetime), events);
            InterestsIn(SentTo(st.sent, f)) == PacketsTo(st.interests, f)
  {
    hide Step, Enabled, Sends, Fewer, GetsNack, NowOr;
    if events != [] {
      var before, ev := events[..|events| - 1], events[|events| - 1];
      var st := After(Initial(dnlLifetime), before);
      FacesShowTheLog(dnlLifetime, before, f);
      StepEvolves(st, ev, 0);
      if a, i :| Asks(st, Step(st, ev), a, i, NowOr(ev, 0)) { PacketsSnoc(st.interests, a, f); }
    }
  }

  /** The Nonces an out-record says were sent. */
  function NoncesOf(h: seq<Exchange>): seq<nat> {
    if h == [] then []
    else
      var last := h[|h| - 1];
      NoncesOf(h[..|h| - 1]) + (if last.Asked? then [last.nonce] else [])
  }

  lemma NoncesOfSnoc(h: seq<Exchange>, t: Exchange)
    ensures NoncesOf(h + [t]) == NoncesOf(h) + (if t.Asked? then [t.nonce] else [])
  {
    assert (h + [t])[..|h|] == h;
  }

  ghost predicate HasRecord(st: State, k: Key, f: Face) {
    k in st.pit && f in st.pit[k].outRecords
  }

  /** The log and the record of an entry on a face grow by the same. */
  lemma RecordFollowsLog(st: State, st': State, k: Key, f: Face, now: nat) returns (more: seq<nat>)
    requires AllEvolve(st, st', now) && HasRecord(st', k, f)
    ensures NoncesTo(st'.interests, k, f) == NoncesTo(st.interests, k, f) + more
    ensures NoncesOf(HistoryOf(st'.pit[k], f)) == NoncesOf(HistoryOf(EntryAt(st, k), f)) + more
  {
    hide InterestsIn, NoncesTo, NoncesOf;
    more := [];
    if AllKeep(st, st') {
      if g, reason :| GetsNack(EntryAt(st, k), st'.pit[k], g, reason) {
        NoncesOfSnoc(HistoryOf(EntryAt(st, k), g), Refused(reason));
      }
    } else {
      var a, i :| Asks(st, st', a, i, now);
      NoncesSnoc(st.interests, a, k, f);
      if a.key == k && a.face == f {
        more := [a.nonce];
        NoncesOfSnoc(HistoryOf(EntryAt(st, k), f), Asked(a.nonce));
      }
    }
  }

  /** The record is there after each of the events. */
  ghost predicate RecordLives(st: State, since: seq<Event>, k: Key, f: Face)
    requires IsRun(st, since)
  {
    since != [] ==> RecordLives(st, since[..|since| - 1], k, f) && HasRecord(After(st, since), k, f)
  }

  /** From any state without a record of the face, what its record says was sent is what the log has gained for
      that entry and that face, for as long as the record lives. */
  lemma {:induction false} RecordTellsTheLog(st: State, since: seq<Event>, k: Key, f: Face)
    requires IsRun(st, since) && !HasRecord(st, k, f) && RecordLives(st, since, k, f)
    ensures var st' := After(st, since);
            NoncesTo(st'.interests, k, f) == NoncesTo(st.interests, k, f) + NoncesOf(HistoryOf(EntryAt(st', k), f))
  {
    hide Step, Enabled, NoncesTo, NowOr, AllEvolve;
    if since == [] {
      assert NoncesOf([]) == [];
    } else {
      var before, ev := since[..|since| - 1], since[|since| - 1];
      RecordTellsTheLog(st, before, k, f);
      StepEvolves(After(st, before), ev, 0);
      var _ := RecordFollowsLog(After(st, before), After(st, since), k, f, NowOr(ev, 0));
    }
  }

  ghost predicate EntryLives(st: State, since: seq<Event>, k: Key)
    requires IsRun(st, since)
  {
    since != [] ==> EntryLives(st, since[..|since| - 1], k) && k in After(st, since).pit
  }

  /** From any state without the entry, its last transmission is the last one the log has gained for it, for
      as long as the entry lives; and there is none if the log has gained none. */
  lemma {:induction false} LastSentTellsTheLog(st: State, since: seq<Event>, k: Key) returns (more: seq<Face>)
    requires IsRun(st, since) && k !in st.pit && EntryLives(st, since, k)
    ensures var st' := After(st, since);
            && Transmissions(st'.interests, k) == Transmissions(st.interests, k) + more
            && var last := EntryAt(st', k).lastSent;
               if more == [] then last == None else last.Some? && last.value.face == more[|more| - 1]
  {
    hide Step, Enabled, Transmissions, NowOr, InterestsIn, SentTo;
    if since == [] {
      more := [];
    } else {
      var before, ev := since[..|since| - 1], since[|since| - 1];
      more := LastSentTellsTheLog(st, before, k);
      var st1, st2 := After(st, before), After(st, since);
      StepEvolves(st1, ev, 0);
      if a, i :| Asks(st1, st2, a, i, NowOr(ev, 0)) {
        TransmissionsSnoc(st1.interests, k, a);
        if a.key == k { more := more + [a.face]; }
      }
    }
  }
}
