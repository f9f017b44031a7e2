/** Flow balance: a face is never sent more Data and Nacks than it sent Interests. */
module FlowBalance {
  import opened Sequence64
  import opened Pit
  import opened RetxSuppression
  import opened BestRoute
  import opened Forwarding

  /** How many of the packets answer an Interest. */
  function Answers(packets: seq<Packet>): nat {
    if packets == [] then 0
    else Answers(packets[..|packets| - 1]) + (if packets[|packets| - 1].SentInterest? then 0 else 1)
  }

  ghost function LiveKeys(pit: map<Key, Entry>, f: Face): set<Key> {
    set k | k in pit && f in pit[k].inRecords
  }

  /** The in-records of the face, over the whole PIT. */
  ghost function Live(pit: map<Key, Entry>, f: Face): nat {
    |LiveKeys(pit, f)|
  }

  ghost predicate Balanced(pit: map<Key, Entry>, sent: Outbox, received: multiset<Face>) {
    forall f :: Answers(SentTo(sent, f)) + Live(pit, f) <= received[f]
  }

  ghost predicate StateBalanced(st: State) {
    Balanced(st.pit, st.sent, st.received)
  }

  // ---- counting ----

  lemma AnswersSnoc(packets: seq<Packet>, p: Packet)
    ensures Answers(packets + [p]) == Answers(packets) + (if p.SentInterest? then 0 else 1)
  {
    assert (packets + [p])[..|packets|] == packets;
  }

  function Owes(e: Entry, f: Face): nat {
    if f in e.inRecords then 1 else 0
  }

  lemma LiveAfterUpdate(pit: map<Key, Entry>, k: Key, e: Entry, f: Face)
    ensures Live(pit[k := e], f) == Live(pit, f) - (if k in pit then Owes(pit[k], f) else 0) + Owes(e, f)
  {
    var keys, keys' := LiveKeys(pit, f), LiveKeys(pit[k := e], f);
    assert keys' - {k} == keys - {k};
    assert |keys| == |keys - {k}| + (if k in keys then 1 else 0);
    assert |keys'| == |keys' - {k}| + (if k in keys' then 1 else 0);
  }

  /** Replacing one entry keeps the balance if no face gains more than it newly sent. */
  lemma ReplaceEntry(pit: map<Key, Entry>, k: Key, e: Entry, sent: Outbox, sent': Outbox,
                     received: multiset<Face>, more: multiset<Face>)
    requires k in pit && Balanced(pit, sent, received)
    requires forall f :: Answers(SentTo(sent', f)) + Owes(e, f)
                         <= Answers(SentTo(sent, f)) + Owes(pit[k], f) + more[f]
    ensures Balanced(pit[k := e], sent', received + more)
  {
    hide Answers, Live, SentTo, Owes;
    forall f ensures Answers(SentTo(sent', f)) + Live(pit[k := e], f) <= (received + more)[f] {
      LiveAfterUpdate(pit, k, e, f);
    }
  }

  lemma SendCounts(sent: Outbox, f: Face, p: Packet, g: Face)
    ensures Answers(SentTo(Send(sent, f, p), g))
            == Answers(SentTo(sent, g)) + (if g == f && !p.SentInterest? then 1 else 0)
  {
    AnswersSnoc(SentTo(sent, f), p);
  }

  lemma SendAllCounts(sent: Outbox, packets: map<Face, Packet>, g: Face)
    ensures Answers(SentTo(SendAll(sent, packets), g))
            == Answers(SentTo(sent, g)) + (if g in packets && !packets[g].SentInterest? then 1 else 0)
  {
    if g in packets { AnswersSnoc(SentTo(sent, g), packets[g]); }
    assert SentTo(sent, g) + [] == SentTo(sent, g);
  }

  // ---- one entry at a time ----

  lemma InterestKeepsBalance(st: State, k: Key, egress: Face, i: Interest, tagged: bool, now: nat)
    requires k in st.pit && StateBalanced(st)
    ensures StateBalanced(OutgoingInterest(st, k, egress, i, tagged, now))
  {
    hide Answers, SentTo, Send;
    var p := SentInterest(k.name, i.nonce, tagged);
    var e := WithOutRecord(st.pit[k], egress, i, now);
    var sent' := Send(st.sent, egress, p);
    forall f ensures Answers(SentTo(sent', f)) + Owes(e, f)
                     <= Answers(SentTo(st.sent, f)) + Owes(st.pit[k], f) + multiset{}[f] {
      SendCounts(st.sent, egress, p, f);
    }
    ReplaceEntry(st.pit, k, e, st.sent, sent', st.received, multiset{});
    assert st.received + multiset{} == st.received;
  }

  lemma NackKeepsBalance(st: State, k: Key, egress: Face, reason: Reason)
    requires k in st.pit && StateBalanced(st)
    ensures StateBalanced(OutgoingNack(st, k, egress, reason))
  {
    hide Answers, SentTo, Send;
    if NackPasses(st.ids, st.pit[k], egress) {
      var p := SentNack(k.name, st.pit[k].inRecords[egress].nonce, reason);
      var e := st.pit[k].(inRecords := st.pit[k].inRecords - {egress});
      var sent' := Send(st.sent, egress, p);
      forall f ensures Answers(SentTo(sent', f)) + Owes(e, f)
                       <= Answers(SentTo(st.sent, f)) + Owes(st.pit[k], f) + multiset{}[f] {
        SendCounts(st.sent, egress, p, f);
      }
      ReplaceEntry(st.pit, k, e, st.sent, sent', st.received, multiset{});
      assert st.received + multiset{} == st.received;
    }
  }

  /** An entry that keeps its in-records may change otherwise. */
  lemma SameInRecords(st: State, k: Key, e: Entry)
    requires k in st.pit && StateBalanced(st) && e.inRecords == st.pit[k].inRecords
    ensures Balanced(st.pit[k := e], st.sent, st.received)
  {
    hide Answers, SentTo;
    ReplaceEntry(st.pit, k, e, st.sent, st.sent, st.received, multiset{});
    assert st.received + multiset{} == st.received;
  }

  lemma NackEachKeepsBalance(st: State, k: Key, reason: Reason)
    requires k in st.pit && StateBalanced(st)
    ensures StateBalanced(SendNackEach(st, k, reason))
  {
    hide Answers, SentTo, SendAll;
    var e := st.pit[k];
    var faces := set f | f in e.inRecords && NackPasses(st.ids, e, f);
    var packets := map f | f in faces :: SentNack(k.name, e.inRecords[f].nonce, reason);
    var e' := e.(inRecords := e.inRecords - faces);
    var sent' := SendAll(st.sent, packets);
    forall f ensures Answers(SentTo(sent', f)) + Owes(e', f)
                     <= Answers(SentTo(st.sent, f)) + Owes(e, f) + multiset{}[f] {
      SendAllCounts(st.sent, packets, f);
    }
    ReplaceEntry(st.pit, k, e', st.sent, sent', st.received, multiset{});
    assert st.received + multiset{} == st.received;
  }

  lemma ProcessNackKeepsBalance(st: State, k: Key)
    requires k in st.pit && StateBalanced(st)
    ensures StateBalanced(ProcessNack(st, k))
  {
    hide Balanced, OutgoingNack, SendNackEach, LeastSevere;
    var e := st.pit[k];
    if NotNacked(e) == {} {
      NackEachKeepsBalance(st, k, LeastSevere(e));
    } else {
      forall f { NackKeepsBalance(st, k, f, LeastSevere(e)); }
    }
  }

  lemma IncomingNackKeepsBalance(st: State, ingress: Face, k: Key, nonce: nat, reason: Reason, now: nat)
    requires StateBalanced(st)
    ensures StateBalanced(IncomingNack(st, ingress, k, nonce, reason, now))
  {
    hide Balanced, ProcessNack, HasPending;
    if ingress.linkType.PointToPoint? && k in st.pit && ingress in st.pit[k].outRecords
       && st.pit[k].outRecords[ingress].nonce == nonce
    {
      var st1 := st.(counters := st.counters.(nInNacks := st.counters.nInNacks + 1));
      var e := WithNack(st1.pit[k], ingress, reason);
      var e' := if HasPending(e, now) then e else e.(timer := Some(now));
      SameInRecords(st1, k, e');
      ProcessNackKeepsBalance(st1.(pit := st1.pit[k := e']), k);
    }
  }

  // ---- an Interest arrives ----

  lemma LoopKeepsBalance(st: State, received: multiset<Face>, ingress: Face, i: Interest)
    requires Balanced(st.pit, st.sent, received) && st.received == received + multiset{ingress}
    ensures StateBalanced(InterestLoop(st, ingress, i))
  {
    hide Answers, SentTo, Send, Live;
    forall f ensures Answers(SentTo(InterestLoop(st, ingress, i).sent, f)) + Live(st.pit, f) <= st.received[f] {
      SendCounts(st.sent, ingress, SentNack(i.name, i.nonce, Duplicate), f);
    }
  }

  lemma NewEntryKeepsBalance(st: State, k: Key, received: multiset<Face>)
    requires Balanced(st.pit, st.sent, received)
    ensures Balanced(InsertEntry(st, k).pit, st.sent, received)
  {
    hide Answers, SentTo, Live;
    if k !in st.pit {
      forall f ensures Live(st.pit[k := NEW_ENTRY], f) == Live(st.pit, f) {
        LiveAfterUpdate(st.pit, k, NEW_ENTRY, f);
      }
    }
  }

  lemma HitKeepsBalance(st: State, received: multiset<Face>, k: Key, ingress: Face, data: Data, now: nat)
    requires k in st.pit && Balanced(st.pit, st.sent, received) && st.received == received + multiset{ingress}
    ensures StateBalanced(ContentStoreHit(st, k, ingress, data, now))
  {
    hide Answers, SentTo, Send;
    var st' := ContentStoreHit(st, k, ingress, data, now);
    forall f ensures Answers(SentTo(st'.sent, f)) + Owes(st'.pit[k], f)
                     <= Answers(SentTo(st.sent, f)) + Owes(st.pit[k], f) + multiset{ingress}[f] {
      SendCounts(st.sent, ingress, SentData(data.name), f);
    }
    ReplaceEntry(st.pit, k, st'.pit[k], st.sent, st'.sent, received, multiset{ingress});
  }

  lemma InRecordKeepsBalance(st: State, received: multiset<Face>, k: Key, ingress: Face, e: Entry)
    requires k in st.pit && Balanced(st.pit, st.sent, received) && st.received == received + multiset{ingress}
    requires e.inRecords.Keys == st.pit[k].inRecords.Keys + {ingress}
    ensures Balanced(st.pit[k := e], st.sent, st.received)
  {
    hide Answers, SentTo;
    ReplaceEntry(st.pit, k, e, st.sent, st.sent, received, multiset{ingress});
  }

  lemma StrategyKeepsBalance(st: State, k: Key, ingress: Face, i: Interest, nexthops: seq<Face>, now: nat)
    requires k in st.pit && StateBalanced(st)
    ensures StateBalanced(AfterReceiveInterest(st, k, ingress, i, nexthops, now))
  {
    hide Balanced, Choice, EligibleOf, OutgoingInterest, OutgoingNack;
    var (d, e) := Decide(SUPPRESSION, st.pit[k], now);
    SameInRecords(st, k, e);
    var decided := st.(pit := st.pit[k := e]);
    if d != Suppress {
      var r := Choice(d, e, EligibleOf(st.ids, ingress, i.name, nexthops), now);
      if r.Some? {
        InterestKeepsBalance(decided, k, r.value, i, false, now);
      } else if d == New {
        NackKeepsBalance(decided, k, ingress, NoRoute);
        KeysAfterNack(decided, k, ingress, NoRoute);
        var st' := OutgoingNack(decided, k, ingress, NoRoute);
        SameInRecords(st', k, st'.pit[k].(timer := Some(now)));
      }
    }
  }

  lemma KeysAfterNack(st: State, k: Key, egress: Face, reason: Reason)
    requires k in st.pit
    ensures k in OutgoingNack(st, k, egress, reason).pit
  {}

  lemma MissKeepsBalance(st: State, received: multiset<Face>, k: Key, ingress: Face, i: Interest,
                         nexthops: seq<Face>, now: nat)
    requires k in st.pit && Balanced(st.pit, st.sent, received) && st.received == received + multiset{ingress}
    ensures StateBalanced(ContentStoreMiss(st, k, ingress, i, nexthops, now))
  {
    hide Balanced, AfterReceiveInterest, OutgoingInterest, LifetimeEnd;
    var e := WithInRecord(st.pit[k], ingress, i, now);
    assert ingress in e.inRecords;
    var e' := e.(timer := Some(LifetimeEnd(e, now)));
    var pending := st.(pit := st.pit[k := e'],
                       counters := st.counters.(nCsMisses := st.counters.nCsMisses + 1));
    InRecordKeepsBalance(st, received, k, ingress, e');
    match i.nextHop
    case NoSuchFace =>
    case Chosen(face) => InterestKeepsBalance(pending, k, face, i, true, now);
    case Untagged => StrategyKeepsBalance(pending, k, ingress, i, nexthops, now);
  }

  lemma MoreReceived(st: State, received: multiset<Face>)
    requires Balanced(st.pit, st.sent, received) && received <= st.received
    ensures StateBalanced(st)
  {}

  lemma IncomingInterestKeepsBalance(st: State, ingress: Face, i0: Interest, cached: Option<Data>,
                                     nexthops: seq<Face>, now: nat)
    requires StateBalanced(st)
    ensures StateBalanced(IncomingInterest(st, ingress, i0, cached, nexthops, now))
  {
    hide Balanced, InterestLoop, ContentStoreHit, ContentStoreMiss, IsLoop, InsertEntry;
    var st1 := st.(received := st.received + multiset{ingress},
                   counters := st.counters.(nInInterests := st.counters.nInInterests + 1));
    MoreReceived(st1, st.received);
    if i0.hopLimit != Some(0) {
      var i := if i0.hopLimit.Some? then i0.(hopLimit := Some(i0.hopLimit.value - 1)) else i0;
      var k := KeyOf(i);
      LoopKeepsBalance(st1, st.received, ingress, i);
      NewEntryKeepsBalance(st1, k, st.received);
      SameAfterInsert(st1, k);
      var st2 := InsertEntry(st1, k);
      LoopKeepsBalance(st2, st.received, ingress, i);
      if cached.Some? { HitKeepsBalance(st2, st.received, k, ingress, cached.value, now); }
      MissKeepsBalance(st2, st.received, k, ingress, i, nexthops, now);
    }
  }

  lemma SameAfterInsert(st: State, k: Key)
    ensures var r := InsertEntry(st, k);
            r.sent == st.sent && r.received == st.received && r.dnl == st.dnl
  {}

  // ---- Data arrives ----

  lemma SatisfyOneKeepsBalance(st: State, k: Key, ingress: Face, data: Data, now: nat)
    requires k in st.pit && StateBalanced(st)
    ensures StateBalanced(SatisfyOne(st, k, ingress, data, now))
  {
    hide Answers, SentTo, SendAll, GoesBack, DeadNonces;
    var e := st.pit[k];
    var faces := set f | f in e.inRecords && IsPending(e, f, now) && !GoesBack(st.ids, f, ingress);
    var passing := set f | f in faces && DataPasses(st.ids, f, data.name);
    var packets := map f | f in passing :: SentData(data.name);
    var st' := SatisfyOne(st, k, ingress, data, now);
    assert st'.sent == SendAll(st.sent, packets);
    forall f ensures Answers(SentTo(st'.sent, f)) + Owes(st'.pit[k], f)
                     <= Answers(SentTo(st.sent, f)) + Owes(e, f) + multiset{}[f] {
      SendAllCounts(st.sent, packets, f);
    }
    ReplaceEntry(st.pit, k, st'.pit[k], st.sent, st'.sent, st.received, multiset{});
    assert st.received + multiset{} == st.received;
  }

  lemma SatisfyManyKeepsBalance(st: State, matches: set<Key>, ingress: Face, data: Data, now: nat)
    requires matches <= st.pit.Keys && StateBalanced(st)
    ensures StateBalanced(SatisfyMany(st, matches, ingress, data, now))
  {
    hide Answers, SentTo, SendAll, GoesBack, DeadNoncesOf, DataPasses, Live;
    var faces := set f | f in PendingDownstreams(st.pit, matches, now) && !GoesBack(st.ids, f, ingress);
    var passing := set f | f in faces && DataPasses(st.ids, f, data.name);
    var packets := map f | f in passing :: SentData(data.name);
    var st' := SatisfyMany(st, matches, ingress, data, now);
    assert st'.sent == SendAll(st.sent, packets);
    forall f ensures Answers(SentTo(st'.sent, f)) + Live(st'.pit, f) <= st.received[f] {
      SendAllCounts(st.sent, packets, f);
      FewerLive(st.pit, st'.pit, matches, f);
      if f in passing { assert exists k :: k in matches && f in st.pit[k].inRecords; }
    }
  }

  /** Clearing the matches loses an in-record of every face that had one there. */
  lemma FewerLive(pit: map<Key, Entry>, pit': map<Key, Entry>, matches: set<Key>, f: Face)
    requires matches <= pit.Keys && pit'.Keys == pit.Keys
    requires forall k | k in pit :: pit'[k].inRecords == if k in matches then map[] else pit[k].inRecords
    ensures Live(pit', f) <= Live(pit, f)
    ensures (exists k :: k in matches && f in pit[k].inRecords) ==> Live(pit', f) < Live(pit, f)
  {
    assert LiveKeys(pit', f) == LiveKeys(pit, f) - matches;
    FewerKeys(LiveKeys(pit', f), LiveKeys(pit, f));
    if k :| k in matches && f in pit[k].inRecords {
      FewerWithout(LiveKeys(pit, f), matches, k);
    }
  }

  lemma FewerKeys(a: set<Key>, b: set<Key>)
    requires a <= b
    ensures |a| <= |b|
  {
    assert b == a + (b - a);
  }

  lemma FewerWithout(a: set<Key>, b: set<Key>, k: Key)
    requires k in a && k in b
    ensures |a - b| < |a|
  {
    FewerKeys(a - b, a - {k});
  }

  lemma IncomingDataKeepsBalance(st: State, ingress: Face, data: Data, matches: set<Key>, now: nat)
    requires matches <= st.pit.Keys && StateBalanced(st)
    ensures StateBalanced(IncomingData(st, ingress, data, matches, now))
  {
    hide Balanced, SatisfyOne, SatisfyMany;
    var st1 := st.(counters := st.counters.(nInData := st.counters.nInData + 1));
    forall k | k in matches { SatisfyOneKeepsBalance(st1, k, ingress, data, now); }
    SatisfyManyKeepsBalance(st1, matches, ingress, data, now);
  }

  /** The face has a pending in-record in a matching entry, is not where the Data came from unless ad hoc,
      and may be sent the Data. */
  ghost predicate Gets(st: State, ingress: Face, data: Data, matches: set<Key>, now: nat, f: Face)
    requires matches <= st.pit.Keys
  {
    && (exists k :: k in matches && IsPending(st.pit[k], f, now))
    && !GoesBack(st.ids, f, ingress) && DataPasses(st.ids, f, data.name)
  }

  /** However many entries match, each face that waits in at least one of them is sent the Data exactly
      once, and nobody else is sent anything. */
  lemma DataReachesPending(st: State, ingress: Face, data: Data, matches: set<Key>, now: nat, f: Face)
    requires matches <= st.pit.Keys && !(ingress.scope.NonLocal? && LOCALHOST <= data.name)
    ensures SentTo(IncomingData(st, ingress, data, matches, now).sent, f)
            == SentTo(st.sent, f) + (if Gets(st, ingress, data, matches, now, f) then [SentData(data.name)] else [])
  {
    hide SatisfyOne, SatisfyMany, GoesBack, DataPasses, SentTo;
    var st1 := st.(counters := st.counters.(nInData := st.counters.nInData + 1));
    if |matches| == 0 {
      assert matches == {};
    } else if |matches| == 1 {
      var k :| k in matches && IncomingData(st, ingress, data, matches, now) == SatisfyOne(st1, k, ingress, data, now);
      OnlyOne(matches, k);
      OneReachesPending(st1, k, ingress, data, now, f);
    } else {
      ManyReachPending(st1, matches, ingress, data, now, f);
    }
  }

  lemma OnlyOne(matches: set<Key>, k: Key)
    requires |matches| == 1 && k in matches
    ensures matches == {k}
  {
    assert |matches - {k}| == 0;
    assert matches == {k} + (matches - {k});
  }

  lemma OneReachesPending(st: State, k: Key, ingress: Face, data: Data, now: nat, f: Face)
    requires k in st.pit
    ensures SentTo(SatisfyOne(st, k, ingress, data, now).sent, f)
            == SentTo(st.sent, f) + (if Gets(st, ingress, data, {k}, now, f) then [SentData(data.name)] else [])
  {
    hide GoesBack, DeadNonces, IdOf;
    assert Gets(st, ingress, data, {k}, now, f) <==>
           IsPending(st.pit[k], f, now) && !GoesBack(st.ids, f, ingress) && DataPasses(st.ids, f, data.name) by {
      if IsPending(st.pit[k], f, now) { assert k in {k}; }
    }
  }

  lemma ManyReachPending(st: State, matches: set<Key>, ingress: Face, data: Data, now: nat, f: Face)
    requires matches <= st.pit.Keys
    ensures SentTo(SatisfyMany(st, matches, ingress, data, now).sent, f)
            == SentTo(st.sent, f) + (if Gets(st, ingress, data, matches, now, f) then [SentData(data.name)] else [])
  {
    hide GoesBack, DeadNoncesOf, IdOf;
    assert f in PendingDownstreams(st.pit, matches, now) <==> exists k :: k in matches && IsPending(st.pit[k], f, now);
  }

  // ---- every run ----

  lemma ForgettingKeepsBalance(st: State, pit: map<Key, Entry>)
    requires StateBalanced(st)
    requires forall k, f :: k in pit && f in pit[k].inRecords ==> k in st.pit && f in st.pit[k].inRecords
    ensures Balanced(pit, st.sent, st.received)
  {
    hide Answers, SentTo;
    forall f ensures Live(pit, f) <= Live(st.pit, f) {
      FewerKeys(LiveKeys(pit, f), LiveKeys(st.pit, f));
    }
  }

  lemma StepKeepsBalance(st: State, ev: Event)
    requires Enabled(st, ev) && StateBalanced(st)
    ensures StateBalanced(Step(st, ev))
  {
    hide Balanced, IncomingInterest, IncomingData, IncomingNack, DeadNonces;
    match ev
    case InterestArrives(ingress, i, cached, nexthops, now) =>
      IncomingInterestKeepsBalance(st, ingress, i, cached, nexthops, now);
    case DataArrives(ingress, data, matches, now) => IncomingDataKeepsBalance(st, ingress, data, matches, now);
    case NackArrives(ingress, k, nonce, reason, now) => IncomingNackKeepsBalance(st, ingress, k, nonce, reason, now);
    case TimerExpires(k) => ForgettingKeepsBalance(st, st.pit - {k});
    case FaceAdded(f, id) =>
    case FaceRemoved(f) => ForgettingKeepsBalance(st, RemoveFace(st, f).pit);
    case NoncesForgotten(entries) =>
  }

  /** In every run, for every face, the Data and Nacks sent to it plus its in-records never exceed the
      Interests received from it. */
  lemma {:induction false} RunsAreBalanced(dnlLifetime: nat, events: seq<Event>)
    requires IsRun(Initial(dnlLifetime), events)
    ensures StateBalanced(After(Initial(dnlLifetime), events))
  {
    hide Step, Enabled;
    if events == [] {
      InitiallyBalanced(dnlLifetime);
    } else {
      RunsAreBalanced(dnlLifetime, events[..|events| - 1]);
      StepKeepsBalance(After(Initial(dnlLifetime), events[..|events| - 1]), events[|events| - 1]);
    }
  }

  lemma InitiallyBalanced(dnlLifetime: nat)
    ensures StateBalanced(Initial(dnlLifetime))
  {}
}
