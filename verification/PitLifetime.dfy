/** What every run of the forwarder keeps about its PIT entries, counters and scope control. */
module PitLifetime {
  import opened Sequence64
  import opened Pit
  import opened RetxSuppression
  import opened BestRoute
  import opened Forwarding

  /** Under /localhost an entry has only local downstreams, and its suppression interval is in step. */
  ghost predicate EntryGood(k: Key, e: Entry) {
    && Paced(SUPPRESSION, e)
    && (LOCALHOST <= k.name ==> forall f | f in e.inRecords :: f.scope.Local?)
  }

  /** Every entry is scheduled to be finalized. */
  ghost predicate EntriesGood(pit: map<Key, Entry>) {
    forall k | k in pit :: pit[k].timer.Some? && EntryGood(k, pit[k])
  }

  /** Nothing under /localhost leaves through a non-local face, unless an application asked for that face. */
  predicate InScope(f: Face, p: Packet) {
    f.scope.NonLocal? && LOCALHOST <= p.name ==> p.SentInterest? && p.tagged
  }

  ghost predicate Scoped(sent: Outbox) {
    forall f, j | f in sent && 0 <= j < |sent[f]| :: InScope(f, sent[f][j])
  }

  /** Every entry ever inserted is still there or was counted once as satisfied or unsatisfied. */
  predicate Accounted(st: State) {
    st.counters.nSatisfied + st.counters.nUnsatisfied + |st.pit| == st.inserted
  }

  ghost predicate Good(st: State) {
    EntriesGood(st.pit) && Scoped(st.sent) && Accounted(st)
  }

  /** Nothing is finalized or inserted. */
  predicate SameBooks(st: State, st': State) {
    && st'.pit.Keys == st.pit.Keys && st'.inserted == st.inserted
    && st'.counters.nSatisfied == st.counters.nSatisfied
    && st'.counters.nUnsatisfied == st.counters.nUnsatisfied
  }

  lemma SameBooksAccounted(st: State, st': State)
    requires SameBooks(st, st') && Accounted(st)
    ensures Accounted(st')
  {
    assert |st.pit| == |st.pit.Keys| && |st'.pit| == |st'.pit.Keys|;
  }

  lemma SendScoped(sent: Outbox, f: Face, p: Packet)
    requires Scoped(sent) && InScope(f, p)
    ensures Scoped(Send(sent, f, p))
  {}

  lemma SendAllScoped(sent: Outbox, packets: map<Face, Packet>)
    requires Scoped(sent) && forall f | f in packets :: InScope(f, packets[f])
    ensures Scoped(SendAll(sent, packets))
  {}

  // ---- one entry at a time ----

  lemma InterestKeepsGood(st: State, k: Key, egress: Face, i: Interest, tagged: bool, now: nat)
    requires k in st.pit && Good(st)
    requires egress.scope.NonLocal? && LOCALHOST <= k.name ==> tagged
    ensures Good(OutgoingInterest(st, k, egress, i, tagged, now))
    ensures SameBooks(st, OutgoingInterest(st, k, egress, i, tagged, now))
  {
    var st' := OutgoingInterest(st, k, egress, i, tagged, now);
    SendScoped(st.sent, egress, SentInterest(k.name, i.nonce, tagged));
    assert st'.pit.Keys == st.pit.Keys;
    SameBooksAccounted(st, st');
  }

  lemma NackKeepsGood(st: State, k: Key, egress: Face, reason: Reason)
    requires k in st.pit && Good(st)
    ensures Good(OutgoingNack(st, k, egress, reason))
    ensures SameBooks(st, OutgoingNack(st, k, egress, reason))
  {
    var st' := OutgoingNack(st, k, egress, reason);
    if NackPasses(st.ids, st.pit[k], egress) {
      SendScoped(st.sent, egress, SentNack(k.name, st.pit[k].inRecords[egress].nonce, reason));
      assert st'.pit.Keys == st.pit.Keys;
      SameBooksAccounted(st, st');
    }
  }

  lemma NackEachKeepsGood(st: State, k: Key, reason: Reason)
    requires k in st.pit && Good(st)
    ensures Good(SendNackEach(st, k, reason))
  {
    hide SendAll, Scoped;
    var e := st.pit[k];
    var faces := set f | f in e.inRecords && NackPasses(st.ids, e, f);
    SendAllScoped(st.sent, map f | f in faces :: SentNack(k.name, e.inRecords[f].nonce, reason));
    var st' := SendNackEach(st, k, reason);
    assert st'.pit.Keys == st.pit.Keys;
    SameBooksAccounted(st, st');
  }

  lemma ReplacedKeepsGood(st: State, k: Key, e: Entry)
    requires k in st.pit && Good(st) && e.timer.Some? && EntryGood(k, e)
    ensures Good(st.(pit := st.pit[k := e]))
  {
    assert st.pit[k := e].Keys == st.pit.Keys;
    SameBooksAccounted(st, st.(pit := st.pit[k := e]));
  }

  lemma IncomingNackKeepsGood(st: State, ingress: Face, k: Key, nonce: nat, reason: Reason, now: nat)
    requires Good(st)
    ensures Good(IncomingNack(st, ingress, k, nonce, reason, now))
  {
    hide Scoped, ProcessNack, HasPending;
    var st1 := st.(counters := st.counters.(nInNacks := st.counters.nInNacks + 1));
    if ingress.linkType.PointToPoint? && k in st.pit && ingress in st.pit[k].outRecords
       && st.pit[k].outRecords[ingress].nonce == nonce
    {
      var e := WithNack(st1.pit[k], ingress, reason);
      var e' := if HasPending(e, now) then e else e.(timer := Some(now));
      ReplacedKeepsGood(st1, k, e');
      ProcessNackKeepsGood(st1.(pit := st1.pit[k := e']), k);
    }
  }

  lemma ProcessNackKeepsGood(st: State, k: Key)
    requires k in st.pit && Good(st)
    ensures Good(ProcessNack(st, k))
  {
    hide Good, OutgoingNack, SendNackEach, LeastSevere;
    var e := st.pit[k];
    if NotNacked(e) == {} {
      NackEachKeepsGood(st, k, LeastSevere(e));
    } else {
      forall f { NackKeepsGood(st, k, f, LeastSevere(e)); }
    }
  }

  // ---- an Interest arrives ----

  lemma LoopKeepsGood(st: State, ingress: Face, i: Interest)
    requires Good(st) && !(ingress.scope.NonLocal? && LOCALHOST <= i.name)
    ensures Good(InterestLoop(st, ingress, i))
  {
    SendScoped(st.sent, ingress, SentNack(i.name, i.nonce, Duplicate));
  }

  lemma DataKeepsGood(st: State, egress: Face, name: Name)
    requires Good(st)
    ensures Good(OutgoingData(st, egress, name))
  {
    if DataPasses(st.ids, egress, name) { SendScoped(st.sent, egress, SentData(name)); }
  }

  /** A state in which the entry of the Interest being processed may still lack its timer. */
  ghost predicate Almost(st: State, k: Key) {
    && k in st.pit && EntryGood(k, st.pit[k])
    && (forall j | j in st.pit && j != k :: st.pit[j].timer.Some? && EntryGood(j, st.pit[j]))
    && Scoped(st.sent) && Accounted(st)
  }

  lemma InsertKeepsGood(st: State, k: Key)
    requires Good(st)
    ensures Almost(InsertEntry(st, k), k)
    ensures k in st.pit ==> InsertEntry(st, k) == st
    ensures k !in st.pit ==> InsertEntry(st, k).pit[k] == NEW_ENTRY
  {
    if k !in st.pit {
      assert st.pit[k := NEW_ENTRY].Keys == st.pit.Keys + {k};
    }
  }

  lemma TimerMakesGood(st: State, k: Key, e: Entry)
    requires Almost(st, k) && e.timer.Some? && EntryGood(k, e)
    ensures Good(st.(pit := st.pit[k := e]))
  {
    assert st.pit[k := e].Keys == st.pit.Keys;
    SameBooksAccounted(st, st.(pit := st.pit[k := e]));
  }

  lemma HitKeepsGood(st: State, k: Key, ingress: Face, data: Data, now: nat)
    requires Almost(st, k)
    ensures Good(ContentStoreHit(st, k, ingress, data, now))
  {
    hide Good, Almost, OutgoingData;
    AlmostEntry(st, k);
    var e := st.pit[k].(isSatisfied := true, freshness := data.freshness, timer := Some(now),
                        inRecords := st.pit[k].inRecords - {ingress});
    TimerMakesGood(st, k, e);
    var st' := st.(pit := st.pit[k := e], counters := st.counters.(nCsHits := st.counters.nCsHits + 1));
    OtherCounters(st.(pit := st.pit[k := e]), st');
    DataKeepsGood(st', ingress, data.name);
  }

  lemma AlmostEntry(st: State, k: Key)
    requires Almost(st, k)
    ensures k in st.pit && EntryGood(k, st.pit[k])
  {}

  lemma OtherCounters(st: State, st': State)
    requires Good(st) && st'.pit == st.pit && st'.sent == st.sent && SameBooks(st, st')
    ensures Good(st')
  {}

  lemma StrategyKeepsGood(st: State, k: Key, ingress: Face, i: Interest, nexthops: seq<Face>, now: nat)
    requires k in st.pit && Good(st) && k.name == i.name
    ensures Good(AfterReceiveInterest(st, k, ingress, i, nexthops, now))
  {
    hide Scoped, Accounted, Choice, EligibleOf, OutgoingInterest, OutgoingNack, IntervalAfter, HasPending;
    var d, e := Decide(SUPPRESSION, st.pit[k], now).0, Decide(SUPPRESSION, st.pit[k], now).1;
    DecideIsPaced(SUPPRESSION, st.pit[k], now);
    ReplacedKeepsGood(st, k, e);
    var decided := st.(pit := st.pit[k := e]);
    if d != Suppress {
      var r := Choice(d, e, EligibleOf(st.ids, ingress, i.name, nexthops), now);
      if r.Some? {
        ChoiceIsEligible(d, st.ids, ingress, i.name, nexthops, e, now);
        InterestKeepsGood(decided, k, r.value, i, false, now);
      } else if d == New {
        NackKeepsGood(decided, k, ingress, NoRoute);
        var st' := OutgoingNack(decided, k, ingress, NoRoute);
        ReplacedKeepsGood(st', k, st'.pit[k].(timer := Some(now)));
      }
    }
  }

  lemma MissKeepsGood(st: State, k: Key, ingress: Face, i: Interest, nexthops: seq<Face>, now: nat)
    requires Almost(st, k) && k == KeyOf(i) && !(ingress.scope.NonLocal? && LOCALHOST <= i.name)
    ensures Good(ContentStoreMiss(st, k, ingress, i, nexthops, now))
  {
    hide Good, Almost, AfterReceiveInterest, OutgoingInterest, LifetimeEnd;
    AlmostEntry(st, k);
    var e := WithInRecord(st.pit[k], ingress, i, now);
    assert ingress in e.inRecords;
    var e' := e.(timer := Some(LifetimeEnd(e, now)));
    TimerMakesGood(st, k, e');
    var pending := st.(pit := st.pit[k := e'],
                       counters := st.counters.(nCsMisses := st.counters.nCsMisses + 1));
    OtherCounters(st.(pit := st.pit[k := e']), pending);
    match i.nextHop
    case NoSuchFace =>
    case Chosen(face) => InterestKeepsGood(pending, k, face, i, true, now);
    case Untagged => StrategyKeepsGood(pending, k, ingress, i, nexthops, now);
  }

  /** An entry inserted by this Interest never leaves by the duplicate-Nonce exit, so it always gets a timer. */
  lemma IncomingInterestKeepsGood(st: State, ingress: Face, i0: Interest, cached: Option<Data>,
                                  nexthops: seq<Face>, now: nat)
    requires Good(st)
    ensures Good(IncomingInterest(st, ingress, i0, cached, nexthops, now))
  {
    hide Good, Almost, InterestLoop, ContentStoreHit, ContentStoreMiss, IsLoop, InsertEntry;
    var st1 := st.(received := st.received + multiset{ingress},
                   counters := st.counters.(nInInterests := st.counters.nInInterests + 1));
    OtherCounters(st, st1);
    OtherCounters(st, st1.(nInHopLimitZero := st1.nInHopLimitZero + multiset{ingress}));
    if i0.hopLimit != Some(0) && !(ingress.scope.NonLocal? && LOCALHOST <= i0.name) {
      var i := if i0.hopLimit.Some? then i0.(hopLimit := Some(i0.hopLimit.value - 1)) else i0;
      var k := KeyOf(i);
      LoopKeepsGood(st1, ingress, i);
      InsertKeepsGood(st1, k);
      NewEntryHasNoLoop(i.nonce, ingress);
      var st2 := InsertEntry(st1, k);
      if cached.Some? { HitKeepsGood(st2, k, ingress, cached.value, now); }
      MissKeepsGood(st2, k, ingress, i, nexthops, now);
    }
  }

  // ---- Data arrives ----

  lemma DataEachKeepsGood(st: State, faces: set<Face>, name: Name)
    requires Good(st)
    ensures Good(SendDataEach(st, faces, name))
  {
    hide SendAll, Scoped, EntriesGood;
    var passing := set f | f in faces && DataPasses(st.ids, f, name);
    SendAllScoped(st.sent, map f | f in passing :: SentData(name));
  }

  lemma SatisfyOneKeepsGood(st: State, k: Key, ingress: Face, data: Data, now: nat)
    requires k in st.pit && Good(st)
    ensures Good(SatisfyOne(st, k, ingress, data, now))
  {
    hide SendDataEach, Scoped, Accounted, DeadNonces, GoesBack, IsPending;
    var e := st.pit[k];
    var faces := set f | f in e.inRecords && IsPending(e, f, now) && !GoesBack(st.ids, f, ingress);
    var e' := e.(timer := Some(now), inRecords := e.inRecords - faces, isSatisfied := true,
                 freshness := data.freshness);
    var e'' := e'.(outRecords := e'.outRecords - {ingress});
    ReplacedKeepsGood(st, k, e'');
    var st' := st.(pit := st.pit[k := e''], dnl := st.dnl + DeadNonces(st, k, e', {ingress}));
    OtherCounters(st.(pit := st.pit[k := e'']), st');
    DataEachKeepsGood(st', faces, data.name);
  }

  lemma SatisfyManyKeepsGood(st: State, matches: set<Key>, ingress: Face, data: Data, now: nat)
    requires matches <= st.pit.Keys && Good(st)
    ensures Good(SatisfyMany(st, matches, ingress, data, now))
  {
    hide SendDataEach, Scoped, DeadNoncesOf, GoesBack, PendingDownstreams;
    var faces := set f | f in PendingDownstreams(st.pit, matches, now) && !GoesBack(st.ids, f, ingress);
    var pit := map k | k in st.pit :: if k in matches then Satisfied(st.pit[k], ingress, data, now) else st.pit[k];
    var st' := st.(pit := pit, dnl := st.dnl + DeadNoncesOf(st, matches, ingress, data));
    assert pit.Keys == st.pit.Keys;
    SameBooksAccounted(st, st');
    DataEachKeepsGood(st', faces, data.name);
  }

  lemma IncomingDataKeepsGood(st: State, ingress: Face, data: Data, matches: set<Key>, now: nat)
    requires matches <= st.pit.Keys && Good(st)
    ensures Good(IncomingData(st, ingress, data, matches, now))
  {
    hide Good, SatisfyOne, SatisfyMany;
    var st1 := st.(counters := st.counters.(nInData := st.counters.nInData + 1));
    OtherCounters(st, st1);
    OtherCounters(st1, st1.(counters := st1.counters.(nUnsolicited := st1.counters.nUnsolicited + 1)));
    forall k | k in matches { SatisfyOneKeepsGood(st1, k, ingress, data, now); }
    SatisfyManyKeepsGood(st1, matches, ingress, data, now);
  }

  // ---- every run ----

  lemma FinalizeKeepsGood(st: State, k: Key)
    requires k in st.pit && Good(st)
    ensures Good(Finalize(st, k))
  {
    hide Scoped, DeadNonces;
    assert (st.pit - {k}).Keys == st.pit.Keys - {k};
  }

  lemma RemoveFaceKeepsGood(st: State, f: Face)
    requires Good(st)
    ensures Good(RemoveFace(st, f))
  {
    assert RemoveFace(st, f).pit.Keys == st.pit.Keys;
    SameBooksAccounted(st, RemoveFace(st, f));
  }

  lemma StepKeepsGood(st: State, ev: Event)
    requires Enabled(st, ev) && Good(st)
    ensures Good(Step(st, ev))
  {
    hide Good, IncomingInterest, IncomingData, IncomingNack, Finalize, RemoveFace;
    match ev
    case InterestArrives(ingress, i, cached, nexthops, now) =>
      IncomingInterestKeepsGood(st, ingress, i, cached, nexthops, now);
    case DataArrives(ingress, data, matches, now) => IncomingDataKeepsGood(st, ingress, data, matches, now);
    case NackArrives(ingress, k, nonce, reason, now) => IncomingNackKeepsGood(st, ingress, k, nonce, reason, now);
    case TimerExpires(k) => FinalizeKeepsGood(st, k);
    case FaceAdded(f, id) => OtherCounters(st, Step(st, ev));
    case FaceRemoved(f) => RemoveFaceKeepsGood(st, f);
    case NoncesForgotten(entries) => OtherCounters(st, Step(st, ev));
  }

  /** In every run every PIT entry has a pending expiry timer between events, the entries ever inserted
      are accounted for, scope is respected, and suppression intervals are in step. */
  lemma {:induction false} RunsAreGood(dnlLifetime: nat, events: seq<Event>)
    requires IsRun(Initial(dnlLifetime), events)
    ensures Good(After(Initial(dnlLifetime), events))
  {
    hide Step, Enabled;
    if events == [] {
      InitiallyGood(dnlLifetime);
    } else {
      RunsAreGood(dnlLifetime, events[..|events| - 1]);
      StepKeepsGood(After(Initial(dnlLifetime), events[..|events| - 1]), events[|events| - 1]);
    }
  }

  lemma InitiallyGood(dnlLifetime: nat)
    ensures Good(Initial(dnlLifetime))
  {}
}
