/** Taking turns over runs of the forwarder: while an entry is left to its own Interests, its transmissions go
    round its eligible next hops, whatever happens to other entries. */
module RoundRobinRuns {
  import opened Sequence64
  import opened Pit
  import opened RetxSuppression
  import opened BestRoute
  import opened Forwarding
  import opened RoundRobin
  import opened InterestLog

  // ---- events of other entries ----

  /** Entry k is as it was, and its Interest was not sent. */
  ghost predicate SameAt(st: State, st': State, k: Key) {
    && (k in st'.pit <==> k in st.pit) && (k in st.pit ==> st'.pit[k] == st.pit[k])
    && Transmissions(st'.interests, k) == Transmissions(st.interests, k)
  }

  lemma OtherSend(st: State, j: Key, egress: Face, i: Interest, tagged: bool, now: nat, k: Key)
    requires j in st.pit && j != k
    ensures SameAt(st, OutgoingInterest(st, j, egress, i, tagged, now), k)
  {
    TransmissionsSnoc(st.interests, k, Asking(j, egress, i.nonce, tagged));
  }

  lemma OtherNack(st: State, j: Key, egress: Face, reason: Reason, k: Key)
    requires j in st.pit && j != k
    ensures SameAt(st, OutgoingNack(st, j, egress, reason), k) && j in OutgoingNack(st, j, egress, reason).pit
  {}

  lemma OtherStrategy(st: State, j: Key, ingress: Face, i: Interest, nexthops: seq<Face>, now: nat, k: Key)
    requires j in st.pit && j != k
    ensures SameAt(st, AfterReceiveInterest(st, j, ingress, i, nexthops, now), k)
  {
    hide OutgoingInterest, OutgoingNack, Choice, EligibleOf, Decide, Transmissions;
    var d, e := Decide(SUPPRESSION, st.pit[j], now).0, Decide(SUPPRESSION, st.pit[j], now).1;
    var decided := st.(pit := st.pit[j := e]);
    assert SameAt(st, decided, k);
    if d != Suppress {
      var r := Choice(d, e, EligibleOf(st.ids, ingress, i.name, nexthops), now);
      if r.Some? { OtherSend(decided, j, r.value, i, false, now, k); }
      else if d == New { OtherNack(decided, j, ingress, NoRoute, k); }
    }
  }

  lemma OtherMiss(st: State, j: Key, ingress: Face, i: Interest, nexthops: seq<Face>, now: nat, k: Key)
    requires j in st.pit && j != k
    ensures SameAt(st, ContentStoreMiss(st, j, ingress, i, nexthops, now), k)
  {
    hide OutgoingInterest, AfterReceiveInterest, LifetimeEnd, Transmissions;
    var e := WithInRecord(st.pit[j], ingress, i, now);
    assert ingress in e.inRecords;
    var pending := st.(pit := st.pit[j := e.(timer := Some(LifetimeEnd(e, now)))],
                       counters := st.counters.(nCsMisses := st.counters.nCsMisses + 1));
    match i.nextHop
    case NoSuchFace =>
    case Chosen(face) => OtherSend(pending, j, face, i, true, now, k);
    case Untagged => OtherStrategy(pending, j, ingress, i, nexthops, now, k);
  }

  lemma OtherAdmit(st: State, j: Key, ingress: Face, i: Interest, cached: Option<Data>, nexthops: seq<Face>, now: nat,
                   k: Key)
    requires j in st.pit && j != k
    ensures SameAt(st, Admit(st, j, ingress, i, cached, nexthops, now), k)
  {
    hide ContentStoreMiss, IsLoop, Transmissions, Send;
    OtherMiss(st, j, ingress, i, nexthops, now, k);
  }

  lemma OtherScreen(st: State, ingress: Face, i: Interest, cached: Option<Data>, nexthops: seq<Face>, now: nat, k: Key)
    requires KeyOf(i) != k
    ensures SameAt(st, Screen(st, ingress, i, cached, nexthops, now), k)
  {
    hide Admit, Transmissions, Send;
    OtherAdmit(InsertEntry(st, KeyOf(i)), KeyOf(i), ingress, i, cached, nexthops, now, k);
  }

  lemma OtherInterest(st: State, ingress: Face, i0: Interest, cached: Option<Data>, nexthops: seq<Face>, now: nat, k: Key)
    requires KeyOf(i0) != k
    ensures SameAt(st, IncomingInterest(st, ingress, i0, cached, nexthops, now), k)
  {
    hide Screen, Transmissions;
    var st1 := st.(received := st.received + multiset{ingress},
                   counters := st.counters.(nInInterests := st.counters.nInInterests + 1));
    if i0.hopLimit != Some(0) {
      var i := if i0.hopLimit.Some? then i0.(hopLimit := Some(i0.hopLimit.value - 1)) else i0;
      OtherScreen(st1, ingress, i, cached, nexthops, now, k);
    }
  }

  lemma OtherData(st: State, ingress: Face, data: Data, matches: set<Key>, now: nat, k: Key)
    requires matches <= st.pit.Keys && k !in matches
    ensures SameAt(st, IncomingData(st, ingress, data, matches, now), k)
  {
    hide SendAll, DeadNonces, DeadNoncesOf, PendingDownstreams, Transmissions;
  }

  lemma OtherIncomingNack(st: State, ingress: Face, j: Key, nonce: nat, reason: Reason, now: nat, k: Key)
    requires j != k
    ensures SameAt(st, IncomingNack(st, ingress, j, nonce, reason, now), k)
  {
    hide HasPending, LeastSevere, NotNacked, SendAll, Send, Transmissions, WithNack;
  }

  // ---- what leaves the entry to itself ----

  /** Events on other entries are arbitrary. Interests for the entry come from one face, with one list of
      next hops, without NextHopFaceId and with hops left, while no out-record has expired; nothing else
      happens to it, and the faces involved stay. */
  ghost predicate Quiet(st: State, ev: Event, k: Key, ingress: Face, nexthops: seq<Face>) {
    match ev
    case InterestArrives(g, i, _, hops, now) =>
      KeyOf(i) == k ==>
        && g == ingress && hops == nexthops && i.nextHop.Untagged? && i.hopLimit != Some(1)
        && (k in st.pit ==> Undisturbed(st.pit[k], now))
    case DataArrives(_, _, matches, _) => k !in matches
    case NackArrives(_, j, _, _, _) => j != k
    case TimerExpires(j) => j != k
    case FaceAdded(f, _) => f != ingress && f !in nexthops
    case FaceRemoved(f) => f != ingress && f !in nexthops
    case NoncesForgotten(_) => true
  }

  /** The transmissions of the entry after the first `base` have gone round the next hops. */
  ghost predicate Turned(st: State, k: Key, eligible: seq<Face>, base: nat)
    requires eligible != []
  {
    var sent := Transmissions(st.interests, k);
    && base <= |sent|
    && (forall j | base <= j < |sent| :: sent[j] == eligible[Turn(|eligible|, j - base)])
    && (if k in st.pit then Paced(SUPPRESSION, st.pit[k]) && InTurn(eligible, st.pit[k], |sent| - base)
        else |sent| == base)
  }

  lemma SameTurned(st: State, st': State, k: Key, eligible: seq<Face>, base: nat)
    requires eligible != [] && Turned(st, k, eligible, base) && SameAt(st, st', k)
    ensures Turned(st', k, eligible, base)
  {
    hide InTurn, Paced, Turn, Transmissions;
  }

  /** The entry may change otherwise as long as its out-records and interval stay. */
  lemma SameOutTurned(st: State, st': State, k: Key, eligible: seq<Face>, base: nat)
    requires eligible != [] && Turned(st, k, eligible, base) && k in st.pit && k in st'.pit
    requires st'.interests == st.interests && st'.pit[k].outRecords == st.pit[k].outRecords
    requires st'.pit[k].interval == st.pit[k].interval && st'.pit[k].forwards == st.pit[k].forwards
    ensures Turned(st', k, eligible, base)
  {
    hide InTurn, Turn, Transmissions;
    SameRecords(eligible, st.pit[k], st'.pit[k], |Transmissions(st.interests, k)| - base);
  }

  lemma InsertTurned(st: State, k: Key, eligible: seq<Face>, base: nat)
    requires eligible != [] && Turned(st, k, eligible, base)
    ensures Turned(InsertEntry(st, k), k, eligible, base)
  {
    hide InTurn, Turn, Transmissions;
    StartsInTurn(eligible, NEW_ENTRY);
  }

  lemma MissTurned(st: State, k: Key, ingress: Face, i: Interest, nexthops: seq<Face>, now: nat, eligible: seq<Face>,
                   base: nat)
    requires k in st.pit && i.hopLimit != Some(0) && i.nextHop.Untagged? && Undisturbed(st.pit[k], now)
    requires eligible == EligibleOf(st.ids, ingress, i.name, nexthops) && eligible != [] && Distinct(eligible)
    requires Turned(st, k, eligible, base)
    ensures Turned(ContentStoreMiss(st, k, ingress, i, nexthops, now), k, eligible, base)
  {
    hide InTurn, Turn, Transmissions, ContentStoreMiss, Paced, Undisturbed, EligibleOf, Send;
    var sent := |Transmissions(st.interests, k)| - base;
    PipelineTakesTurn(st, k, ingress, i, nexthops, now, sent);
    TransmissionsSnoc(st.interests, k, Asking(k, eligible[Turn(|eligible|, sent)], i.nonce, false));
  }

  lemma AdmitTurned(st: State, k: Key, ingress: Face, i: Interest, cached: Option<Data>, nexthops: seq<Face>, now: nat,
                    eligible: seq<Face>, base: nat)
    requires k in st.pit && i.hopLimit != Some(0) && i.nextHop.Untagged? && Undisturbed(st.pit[k], now)
    requires eligible == EligibleOf(st.ids, ingress, i.name, nexthops) && eligible != [] && Distinct(eligible)
    requires Turned(st, k, eligible, base)
    ensures Turned(Admit(st, k, ingress, i, cached, nexthops, now), k, eligible, base)
  {
    hide Turned, ContentStoreMiss, IsLoop, Undisturbed, EligibleOf, Send;
    SameOutTurned(st, InterestLoop(st, ingress, i), k, eligible, base);
    if cached.Some? { SameOutTurned(st, ContentStoreHit(st, k, ingress, cached.value, now), k, eligible, base); }
    MissTurned(st, k, ingress, i, nexthops, now, eligible, base);
  }

  lemma OwnInterestTurned(st: State, ingress: Face, i0: Interest, cached: Option<Data>, nexthops: seq<Face>, now: nat,
                          eligible: seq<Face>, base: nat)
    requires i0.nextHop.Untagged? && i0.hopLimit != Some(1)
    requires KeyOf(i0) in st.pit ==> Undisturbed(st.pit[KeyOf(i0)], now)
    requires eligible == EligibleOf(st.ids, ingress, i0.name, nexthops) && eligible != [] && Distinct(eligible)
    requires Turned(st, KeyOf(i0), eligible, base)
    ensures Turned(IncomingInterest(st, ingress, i0, cached, nexthops, now), KeyOf(i0), eligible, base)
  {
    hide Turned, Admit, EligibleOf, Send, Transmissions;
    var k := KeyOf(i0);
    var st1 := st.(received := st.received + multiset{ingress},
                   counters := st.counters.(nInInterests := st.counters.nInInterests + 1));
    SameTurned(st, st1, k, eligible, base);
    if i0.hopLimit == Some(0) {
      SameTurned(st, st1.(nInHopLimitZero := st1.nInHopLimitZero + multiset{ingress}), k, eligible, base);
    } else {
      var i := if i0.hopLimit.Some? then i0.(hopLimit := Some(i0.hopLimit.value - 1)) else i0;
      SameTurned(st, InterestLoop(st1, ingress, i), k, eligible, base);
      InsertTurned(st1, k, eligible, base);
      AdmitTurned(InsertEntry(st1, k), k, ingress, i, cached, nexthops, now, eligible, base);
    }
  }

  lemma RemovalTurned(st: State, f: Face, k: Key, eligible: seq<Face>, base: nat)
    requires eligible != [] && Turned(st, k, eligible, base) && f !in eligible
    ensures Turned(RemoveFace(st, f), k, eligible, base)
  {
    hide Turn, Transmissions, Ordered, LastUses;
    if k in st.pit {
      assert f !in st.pit[k].outRecords;
      assert WithoutFace(st.pit[k], f).outRecords == st.pit[k].outRecords;
      SameOutTurned(st, RemoveFace(st, f), k, eligible, base);
    }
  }

  lemma QuietKeepsTurned(st: State, ev: Event, k: Key, ingress: Face, nexthops: seq<Face>, eligible: seq<Face>, base: nat)
    requires Enabled(st, ev) && Quiet(st, ev, k, ingress, nexthops)
    requires eligible == EligibleOf(st.ids, ingress, k.name, nexthops) && eligible != [] && Distinct(eligible)
    requires Turned(st, k, eligible, base)
    ensures Turned(Step(st, ev), k, eligible, base)
    ensures EligibleOf(Step(st, ev).ids, ingress, k.name, nexthops) == eligible
  {
    hide Turned, IncomingInterest, IncomingData, IncomingNack, EligibleOf, Transmissions, DeadNonces;
    StepIds(st, ev);
    SameEligible(st.ids, Step(st, ev).ids, ingress, k.name, nexthops);
    match ev
    case InterestArrives(g, i, cached, hops, now) =>
      if KeyOf(i) == k {
        OwnInterestTurned(st, ingress, i, cached, nexthops, now, eligible, base);
      } else {
        OtherInterest(st, g, i, cached, hops, now, k);
        SameTurned(st, Step(st, ev), k, eligible, base);
      }
    case DataArrives(g, data, matches, now) =>
      OtherData(st, g, data, matches, now, k);
      SameTurned(st, Step(st, ev), k, eligible, base);
    case NackArrives(g, j, nonce, reason, now) =>
      OtherIncomingNack(st, g, j, nonce, reason, now, k);
      SameTurned(st, Step(st, ev), k, eligible, base);
    case TimerExpires(j) => SameTurned(st, Step(st, ev), k, eligible, base);
    case FaceAdded(f, id) => SameTurned(st, Step(st, ev), k, eligible, base);
    case FaceRemoved(f) =>
      EligibleMembers(st.ids, ingress, k.name, nexthops);
      RemovalTurned(st, f, k, eligible, base);
    case NoncesForgotten(entries) => SameTurned(st, Step(st, ev), k, eligible, base);
  }

  lemma StrategyIds(st: State, k: Key, ingress: Face, i: Interest, nexthops: seq<Face>, now: nat)
    requires k in st.pit
    ensures AfterReceiveInterest(st, k, ingress, i, nexthops, now).ids == st.ids
  {
    hide Decide, Choice, EligibleOf, Send;
  }

  lemma AdmitIds(st: State, k: Key, ingress: Face, i: Interest, cached: Option<Data>, nexthops: seq<Face>, now: nat)
    requires k in st.pit
    ensures Admit(st, k, ingress, i, cached, nexthops, now).ids == st.ids
  {
    hide AfterReceiveInterest, IsLoop, Send, LifetimeEnd;
    var e := WithInRecord(st.pit[k], ingress, i, now);
    assert ingress in e.inRecords;
    StrategyIds(st.(pit := st.pit[k := e.(timer := Some(LifetimeEnd(e, now)))],
                    counters := st.counters.(nCsMisses := st.counters.nCsMisses + 1)), k, ingress, i, nexthops, now);
  }

  lemma InterestIds(st: State, ingress: Face, i0: Interest, cached: Option<Data>, nexthops: seq<Face>, now: nat)
    ensures IncomingInterest(st, ingress, i0, cached, nexthops, now).ids == st.ids
  {
    hide Admit, Send;
    var st1 := st.(received := st.received + multiset{ingress},
                   counters := st.counters.(nInInterests := st.counters.nInInterests + 1));
    if i0.hopLimit != Some(0) {
      var i := if i0.hopLimit.Some? then i0.(hopLimit := Some(i0.hopLimit.value - 1)) else i0;
      AdmitIds(InsertEntry(st1, KeyOf(i)), KeyOf(i), ingress, i, cached, nexthops, now);
    }
  }

  lemma DataIds(st: State, ingress: Face, data: Data, matches: set<Key>, now: nat)
    requires matches <= st.pit.Keys
    ensures IncomingData(st, ingress, data, matches, now).ids == st.ids
  {
    hide SendAll, DeadNonces, DeadNoncesOf, PendingDownstreams;
  }

  lemma NackIds(st: State, ingress: Face, k: Key, nonce: nat, reason: Reason, now: nat)
    ensures IncomingNack(st, ingress, k, nonce, reason, now).ids == st.ids
  {
    hide HasPending, LeastSevere, NotNacked, SendAll, Send, WithNack;
  }

  /** Face IDs change only for the face that is added or removed. */
  lemma StepIds(st: State, ev: Event)
    requires Enabled(st, ev)
    ensures forall f | !(ev.FaceAdded? && ev.face == f) && !(ev.FaceRemoved? && ev.face == f) ::
              IdOf(Step(st, ev).ids, f) == IdOf(st.ids, f)
  {
    hide IncomingInterest, IncomingData, IncomingNack, DeadNonces;
    match ev
    case InterestArrives(g, i, cached, hops, now) => InterestIds(st, g, i, cached, hops, now);
    case DataArrives(g, data, matches, now) => DataIds(st, g, data, matches, now);
    case NackArrives(g, j, nonce, reason, now) => NackIds(st, g, j, nonce, reason, now);
    case _ =>
  }

  lemma {:induction false} SameEligible(ids: FaceIds, ids': FaceIds, inFace: Face, name: Name, nexthops: seq<Face>)
    requires IdOf(ids', inFace) == IdOf(ids, inFace) && forall f | f in nexthops :: IdOf(ids', f) == IdOf(ids, f)
    ensures EligibleOf(ids', inFace, name, nexthops) == EligibleOf(ids, inFace, name, nexthops)
  {
    if nexthops != [] { SameEligible(ids, ids', inFace, name, nexthops[..|nexthops| - 1]); }
  }

  // ---- runs ----

  ghost predicate QuietRun(start: State, events: seq<Event>, k: Key, ingress: Face, nexthops: seq<Face>)
    requires IsRun(start, events)
  {
    events != [] ==>
      var before := events[..|events| - 1];
      && QuietRun(start, before, k, ingress, nexthops)
      && Quiet(After(start, before), events[|events| - 1], k, ingress, nexthops)
  }

  lemma {:induction false} QuietRunTurned(start: State, events: seq<Event>, k: Key, ingress: Face, nexthops: seq<Face>,
                                          eligible: seq<Face>, base: nat)
    requires IsRun(start, events) && QuietRun(start, events, k, ingress, nexthops)
    requires eligible == EligibleOf(start.ids, ingress, k.name, nexthops) && eligible != [] && Distinct(eligible)
    requires Turned(start, k, eligible, base)
    ensures Turned(After(start, events), k, eligible, base)
    ensures EligibleOf(After(start, events).ids, ingress, k.name, nexthops) == eligible
  {
    hide Turned, Step, Quiet, Enabled, EligibleOf;
    if events != [] {
      var before := events[..|events| - 1];
      QuietRunTurned(start, before, k, ingress, nexthops, eligible, base);
      QuietKeepsTurned(After(start, before), events[|events| - 1], k, ingress, nexthops, eligible, base);
    }
  }

  /** What was sent for an entry since a state. */
  function SentSince(start: State, st: State, k: Key): seq<Face> {
    var before, all := Transmissions(start.interests, k), Transmissions(st.interests, k);
    if |before| <= |all| then all[|before|..] else []
  }

  /** From any state in which the entry does not exist yet, through any run that leaves it to itself: its
      Interest is sent to eligible next hop 0, 1, 2, ... modulo their number. */
  lemma TurnsInRuns(start: State, events: seq<Event>, k: Key, ingress: Face, nexthops: seq<Face>)
    requires IsRun(start, events) && QuietRun(start, events, k, ingress, nexthops) && k !in start.pit
    requires Distinct(nexthops) && EligibleOf(start.ids, ingress, k.name, nexthops) != []
    ensures var eligible := EligibleOf(start.ids, ingress, k.name, nexthops);
            var sent := SentSince(start, After(start, events), k);
            && |Transmissions(start.interests, k)| <= |Transmissions(After(start, events).interests, k)|
            && forall j | 0 <= j < |sent| :: sent[j] == eligible[Modulo(j, |eligible|)]
  {
    hide IsRun, QuietRun, EligibleOf, Transmissions, Turn, InTurn, Modulo;
    var eligible := EligibleOf(start.ids, ingress, k.name, nexthops);
    SentInTurn(start, events, k, ingress, nexthops);
    var sent := SentSince(start, After(start, events), k);
    forall j | 0 <= j < |sent| ensures sent[j] == eligible[Modulo(j, |eligible|)] {
      TurnIsModulo(|eligible|, j);
    }
  }

  lemma SentInTurn(start: State, events: seq<Event>, k: Key, ingress: Face, nexthops: seq<Face>)
    requires IsRun(start, events) && QuietRun(start, events, k, ingress, nexthops) && k !in start.pit
    requires Distinct(nexthops) && EligibleOf(start.ids, ingress, k.name, nexthops) != []
    ensures var eligible := EligibleOf(start.ids, ingress, k.name, nexthops);
            var sent := SentSince(start, After(start, events), k);
            && Distinct(eligible)
            && |Transmissions(start.interests, k)| <= |Transmissions(After(start, events).interests, k)|
            && forall j | 0 <= j < |sent| :: sent[j] == eligible[Turn(|eligible|, j)]
  {
    hide IsRun, QuietRun, EligibleOf, Transmissions, Turn, Turned, Distinct, SentSince;
    var eligible := EligibleOf(start.ids, ingress, k.name, nexthops);
    EligibleIsDistinct(start.ids, ingress, k.name, nexthops);
    StartsTurned(start, k, eligible);
    QuietRunTurned(start, events, k, ingress, nexthops, eligible, |Transmissions(start.interests, k)|);
    TurnsSince(start, After(start, events), k, eligible);
  }

  lemma StartsTurned(start: State, k: Key, eligible: seq<Face>)
    requires eligible != [] && k !in start.pit
    ensures Turned(start, k, eligible, |Transmissions(start.interests, k)|)
  {
    hide Turn, InTurn, Transmissions;
  }

  lemma TurnsSince(start: State, st: State, k: Key, eligible: seq<Face>)
    requires eligible != [] && Turned(st, k, eligible, |Transmissions(start.interests, k)|)
    ensures |Transmissions(start.interests, k)| <= |Transmissions(st.interests, k)|
    ensures var sent := SentSince(start, st, k); forall j | 0 <= j < |sent| :: sent[j] == eligible[Turn(|eligible|, j)]
  {
    hide Turn, InTurn, Transmissions;
    var base, all := |Transmissions(start.interests, k)|, Transmissions(st.interests, k);
    forall j | 0 <= j < |all| - base ensures all[base..][j] == eligible[Turn(|eligible|, j)] {
      assert all[base..][j] == all[base + j];
    }
  }

  /** So any n consecutive transmissions of the entry use its n eligible next hops, each once. */
  lemma ConsecutiveInRuns(start: State, events: seq<Event>, k: Key, ingress: Face, nexthops: seq<Face>, i: nat)
    requires IsRun(start, events) && QuietRun(start, events, k, ingress, nexthops) && k !in start.pit
    requires Distinct(nexthops) && EligibleOf(start.ids, ingress, k.name, nexthops) != []
    requires i + |EligibleOf(start.ids, ingress, k.name, nexthops)| <= |SentSince(start, After(start, events), k)|
    ensures var n := |EligibleOf(start.ids, ingress, k.name, nexthops)|;
            Distinct(SentSince(start, After(start, events), k)[i..i + n])
  {
    hide IsRun, QuietRun, EligibleOf, SentSince, Turn, Distinct;
    SentInTurn(start, events, k, ingress, nexthops);
    TurnsAreDistinct(EligibleOf(start.ids, ingress, k.name, nexthops), SentSince(start, After(start, events), k), i);
  }
}
