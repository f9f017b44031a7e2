/** The forwarder object: the pipelines as methods that update the tables in place. */
module Forwarder {
  import opened Sequence64
  import opened Pit
  import opened RetxSuppression
  import opened BestRoute
  import opened Forwarding

  // ---- one more face served ----

  lemma SendAllSnoc(sent: Outbox, packets: map<Face, Packet>, f: Face, p: Packet)
    requires f !in packets
    ensures Send(SendAll(sent, packets), f, p) == SendAll(sent, packets[f := p])
  {
    var a, b := Send(SendAll(sent, packets), f, p), SendAll(sent, packets[f := p]);
    assert a.Keys == b.Keys;
    assert SentTo(sent, f) + [] == SentTo(sent, f);
  }

  lemma SendAllNothing(sent: Outbox)
    ensures SendAll(sent, map[]) == sent
  {
    assert forall f | f in sent :: SentTo(sent, f) + [] == sent[f];
  }

  lemma DataEachSnoc(st: State, faces: set<Face>, f: Face, name: Name)
    requires f !in faces
    ensures OutgoingData(SendDataEach(st, faces, name), f, name) == SendDataEach(st, faces + {f}, name)
  {
    hide SendAll, Send;
    var passing := set g | g in faces && DataPasses(st.ids, g, name);
    var passing' := set g | g in faces + {f} && DataPasses(st.ids, g, name);
    var packets := map g | g in passing :: SentData(name);
    var packets' := map g | g in passing' :: SentData(name);
    if DataPasses(st.ids, f, name) {
      assert passing' == passing + {f};
      assert packets' == packets[f := SentData(name)];
      SendAllSnoc(st.sent, packets, f, SentData(name));
    } else {
      assert passing' == passing;
    }
  }

  lemma DataEachNothing(st: State, name: Name)
    ensures SendDataEach(st, {}, name) == st
  {
    var passing := set g: Face | g in {} && DataPasses(st.ids, g, name);
    assert passing == {};
    var packets := map g | g in passing :: SentData(name);
    assert packets == map[];
    SendAllNothing(st.sent);
  }

  /** Data to some of the downstreams of an entry, which lose their in-records. */
  ghost function Served(st: State, k: Key, faces: set<Face>, name: Name): State
    requires k in st.pit
  {
    SendDataEach(st.(pit := st.pit[k := st.pit[k].(inRecords := st.pit[k].inRecords - faces)]), faces, name)
  }

  lemma ServedSnoc(st: State, k: Key, faces: set<Face>, f: Face, name: Name)
    requires k in st.pit && f !in faces
    ensures var st1 := Served(st, k, faces, name);
            && k in st1.pit
            && Served(st, k, faces + {f}, name) ==
               OutgoingData(st1.(pit := st1.pit[k := st1.pit[k].(inRecords := st1.pit[k].inRecords - {f})]), f, name)
  {
    hide SendAll, Send, OutgoingData;
    var e := st.pit[k];
    var e' := e.(inRecords := e.inRecords - (faces + {f}));
    var st1 := Served(st, k, faces, name);
    assert (e.inRecords - faces) - {f} == e.inRecords - (faces + {f});
    assert st1.pit[k := st1.pit[k].(inRecords := st1.pit[k].inRecords - {f})] == st.pit[k := e'];
    DataEachSnoc(st.(pit := st.pit[k := e']), faces, f, name);
  }

  /** The faces among these that a Nack reaches. */
  ghost function Reached(ids: FaceIds, e: Entry, faces: set<Face>): set<Face> {
    set f | f in faces && NackPasses(ids, e, f)
  }

  ghost function NackPackets(k: Key, e: Entry, faces: set<Face>, reason: Reason): map<Face, Packet>
    requires faces <= e.inRecords.Keys
  {
    map f | f in faces :: SentNack(k.name, e.inRecords[f].nonce, reason)
  }

  /** Nacks to some of the downstreams of an entry. */
  ghost function Nacked(st: State, k: Key, faces: set<Face>, reason: Reason): State
    requires k in st.pit
  {
    NackedTo(st, k, Reached(st.ids, st.pit[k], faces), reason)
  }

  ghost function NackedTo(st: State, k: Key, told: set<Face>, reason: Reason): State
    requires k in st.pit && told <= st.pit[k].inRecords.Keys
  {
    var e := st.pit[k];
    st.(pit := st.pit[k := e.(inRecords := e.inRecords - told)],
        sent := SendAll(st.sent, NackPackets(k, e, told, reason)),
        counters := st.counters.(nOutNacks := st.counters.nOutNacks + |told|))
  }

  lemma NackedToSnoc(st: State, k: Key, told: set<Face>, f: Face, reason: Reason)
    requires k in st.pit && told <= st.pit[k].inRecords.Keys && f !in told
    ensures var st1 := NackedTo(st, k, told, reason);
            && k in st1.pit
            && OutgoingNack(st1, k, f, reason) ==
               if NackPasses(st.ids, st.pit[k], f) then NackedTo(st, k, told + {f}, reason) else st1
  {
    hide SendAll, Send, NackPackets, IdOf;
    var e := st.pit[k];
    if NackPasses(st.ids, e, f) {
      PacketsSnoc(k, e, told, f, reason);
      SendAllSnoc(st.sent, NackPackets(k, e, told, reason), f, SentNack(k.name, e.inRecords[f].nonce, reason));
      assert (e.inRecords - told) - {f} == e.inRecords - (told + {f});
    }
  }

  lemma ReachedOnly(ids: FaceIds, e: Entry, faces: set<Face>)
    ensures Reached(ids, e, faces) <= faces && Reached(ids, e, faces) <= e.inRecords.Keys
  {}

  lemma ReachedSnoc(ids: FaceIds, e: Entry, faces: set<Face>, f: Face)
    requires f !in faces
    ensures Reached(ids, e, faces + {f}) == Reached(ids, e, faces) + (if NackPasses(ids, e, f) then {f} else {})
  {}

  lemma PacketsSnoc(k: Key, e: Entry, faces: set<Face>, f: Face, reason: Reason)
    requires faces <= e.inRecords.Keys && f in e.inRecords && f !in faces
    ensures f !in NackPackets(k, e, faces, reason)
    ensures NackPackets(k, e, faces + {f}, reason) ==
            NackPackets(k, e, faces, reason)[f := SentNack(k.name, e.inRecords[f].nonce, reason)]
  {}

  lemma NackedSnoc(st: State, k: Key, faces: set<Face>, f: Face, reason: Reason)
    requires k in st.pit && f !in faces
    ensures k in Nacked(st, k, faces, reason).pit
    ensures OutgoingNack(Nacked(st, k, faces, reason), k, f, reason) == Nacked(st, k, faces + {f}, reason)
  {
    hide NackedTo, OutgoingNack, NackPasses, Reached;
    var told := Reached(st.ids, st.pit[k], faces);
    ReachedOnly(st.ids, st.pit[k], faces);
    ReachedSnoc(st.ids, st.pit[k], faces, f);
    NackedToSnoc(st, k, told, f, reason);
    assert told + {} == told;
  }

  lemma NackedNothing(st: State, k: Key, reason: Reason)
    requires k in st.pit
    ensures Nacked(st, k, {}, reason) == st
  {
    var e := st.pit[k];
    assert Reached(st.ids, e, {}) == {};
    assert NackPackets(k, e, {}, reason) == map[];
    SendAllNothing(st.sent);
    assert e.inRecords - {} == e.inRecords;
  }

  lemma NackedAll(st: State, k: Key, reason: Reason)
    requires k in st.pit
    ensures Nacked(st, k, st.pit[k].inRecords.Keys, reason) == SendNackEach(st, k, reason)
  {
    var e := st.pit[k];
    var faces := set f | f in e.inRecords && NackPasses(st.ids, e, f);
    assert Reached(st.ids, e, e.inRecords.Keys) == faces;
    assert NackPackets(k, e, faces, reason) == map f | f in faces :: SentNack(k.name, e.inRecords[f].nonce, reason);
  }

  /** The downstreams still waiting, without the face the Data came from. */
  ghost function Waiting(ids: FaceIds, e: Entry, inFace: Face, now: nat): set<Face> {
    set f | f in e.inRecords && IsPending(e, f, now) && !GoesBack(ids, f, inFace)
  }

  method PendingDownstreamsOf(ids: FaceIds, e: Entry, inFace: Face, now: nat) returns (faces: set<Face>)
    ensures faces == Waiting(ids, e, inFace, now)
  {
    faces := {};
    var todo := e.inRecords.Keys;
    while todo != {}
      invariant todo <= e.inRecords.Keys
      invariant faces == set f | f in Waiting(ids, e, inFace, now) && f !in todo
      decreases |todo|
    {
      var f :| f in todo;
      todo := todo - {f};
      if e.inRecords[f].expiry > now && !GoesBack(ids, f, inFace) {
        faces := faces + {f};
      }
    }
  }

  class Forwarder {
    var pit: map<Key, Entry>
    var dnl: set<(Name, nat)>
    const dnlLifetime: nat
    var ids: FaceIds
    var sent: Outbox
    var interests: seq<Asking>
    var received: multiset<Face>
    var nInHopLimitZero: multiset<Face>
    var nOutHopLimitZero: multiset<Face>
    var inserted: nat
    var counters: Counters

    ghost function Abs(): State
      reads this
    {
      State(pit, dnl, dnlLifetime, ids, sent, interests, received, nInHopLimitZero, nOutHopLimitZero, inserted, counters)
    }

    constructor (dnlLifetime: nat)
      ensures Abs() == Initial(dnlLifetime)
    {
      this.dnlLifetime := dnlLifetime;
      pit, dnl, ids, sent, interests, received, inserted := map[], {}, map[], map[], [], multiset{}, 0;
      nInHopLimitZero, nOutHopLimitZero := multiset{}, multiset{};
      counters := Counters(0, 0, 0, 0, 0, 0, 0, 0, 0, 0, 0);
    }

    // ---- outgoing pipelines ----

    method OnOutgoingInterest(k: Key, egress: Face, i: Interest, tagged: bool, now: nat)
      requires k in pit
      modifies this
      ensures Abs() == OutgoingInterest(old(Abs()), k, egress, i, tagged, now)
    {
      if i.hopLimit == Some(0) && egress.scope.NonLocal? {
        nOutHopLimitZero := nOutHopLimitZero + multiset{egress};
        return;
      }
      pit := pit[k := WithOutRecord(pit[k], egress, i, now)];
      sent := Send(sent, egress, SentInterest(k.name, i.nonce, tagged));
      interests := interests + [Asking(k, egress, i.nonce, tagged)];
      counters := counters.(nOutInterests := counters.nOutInterests + 1);
    }

    method OnOutgoingData(name: Name, egress: Face)
      modifies this
      ensures Abs() == OutgoingData(old(Abs()), egress, name)
    {
      if IdOf(ids, egress) == INVALID_FACEID { return; }
      if egress.scope.NonLocal? && LOCALHOST <= name { return; }
      sent := Send(sent, egress, SentData(name));
      counters := counters.(nOutData := counters.nOutData + 1);
    }

    method OnOutgoingNack(k: Key, egress: Face, reason: Reason)
      requires k in pit
      modifies this
      ensures Abs() == OutgoingNack(old(Abs()), k, egress, reason)
    {
      if IdOf(ids, egress) == INVALID_FACEID { return; }
      if egress !in pit[k].inRecords { return; }
      if !egress.linkType.PointToPoint? { return; }
      var nonce := pit[k].inRecords[egress].nonce;
      pit := pit[k := pit[k].(inRecords := pit[k].inRecords - {egress})];
      sent := Send(sent, egress, SentNack(k.name, nonce, reason));
      counters := counters.(nOutNacks := counters.nOutNacks + 1);
    }

    /** Replaces the pending expiry timer; `duration` is in milliseconds. */
    method SetExpiryTimer(k: Key, duration: int, now: nat)
      requires k in pit
      modifies this
      ensures Abs() == SetTimer(old(Abs()), k, if duration <= 0 then now else now + duration * NANOSECONDS_PER_MS)
    {
      var d := if duration <= 0 then 0 else duration;
      pit := pit[k := pit[k].(timer := Some(now + d * NANOSECONDS_PER_MS))];
    }

    /** The out-record of one face, or those of all: insertDeadNonceList. */
    method InsertDeadNonceList(k: Key, upstreams: set<Face>)
      requires k in pit
      modifies this`dnl
      ensures dnl == old(dnl) + DeadNonces(old(Abs()), k, pit[k], upstreams)
    {
      ghost var gained := DeadNonces(Abs(), k, pit[k], upstreams);
      if pit[k].isSatisfied && !(k.mustBeFresh && pit[k].freshness < dnlLifetime) { return; }
      var e := pit[k];
      var todo := e.outRecords.Keys * upstreams;
      assert gained == set f | f in e.outRecords && f in upstreams :: (k.name, e.outRecords[f].nonce);
      while todo != {}
        invariant todo <= e.outRecords.Keys * upstreams
        invariant dnl <= old(dnl) + gained && old(dnl) <= dnl
        invariant forall f | f in e.outRecords.Keys * upstreams && f !in todo :: (k.name, e.outRecords[f].nonce) in dnl
        decreases |todo|
      {
        var f :| f in todo;
        dnl := dnl + {(k.name, e.outRecords[f].nonce)};
        todo := todo - {f};
      }
    }

    // ---- strategy actions ----

    method SendData(k: Key, name: Name, egress: Face)
      requires k in pit
      modifies this
      ensures var st := old(Abs());
              Abs() == OutgoingData(st.(pit := st.pit[k := st.pit[k].(inRecords := st.pit[k].inRecords - {egress})]),
                                    egress, name)
    {
      pit := pit[k := pit[k].(inRecords := pit[k].inRecords - {egress})];
      OnOutgoingData(name, egress);
    }

    /** Every pending downstream but the one the Data came from. */
    method SendDataToAll(k: Key, inFace: Face, name: Name, now: nat)
      requires k in pit
      modifies this
      ensures Abs() == Served(old(Abs()), k, Waiting(old(ids), old(pit)[k], inFace, now), name)
    {
      hide Served, Waiting, OutgoingData;
      ghost var st := Abs();
      var pendingDownstreams := PendingDownstreamsOf(ids, pit[k], inFace, now);
      ghost var faces := pendingDownstreams;
      ServedNothing(st, k, name);
      ghost var done: set<Face> := {};
      while pendingDownstreams != {}
        invariant done !! pendingDownstreams && done + pendingDownstreams == faces
        invariant k in pit && Abs() == Served(st, k, done, name)
        decreases |pendingDownstreams|
      {
        var f :| f in pendingDownstreams;
        ServedSnoc(st, k, done, f, name);
        SendData(k, name, f);
        done := done + {f};
        pendingDownstreams := pendingDownstreams - {f};
        ServedKeys(st, k, done, name);
      }
      assert done == faces;
    }

    /** Every downstream but the excluded faces. */
    method SendNacks(k: Key, reason: Reason, exceptFaces: set<Face>)
      requires k in pit
      modifies this
      ensures Abs() == Nacked(old(Abs()), k, old(pit)[k].inRecords.Keys - exceptFaces, reason)
    {
      hide Nacked, OutgoingNack;
      ghost var st := Abs();
      var downstreams := pit[k].inRecords.Keys - exceptFaces;
      NackedNothing(st, k, reason);
      ghost var done: set<Face> := {};
      while downstreams != {}
        invariant done !! downstreams && done + downstreams == st.pit[k].inRecords.Keys - exceptFaces
        invariant k in pit && Abs() == Nacked(st, k, done, reason)
        decreases |downstreams|
      {
        var f :| f in downstreams;
        NackedSnoc(st, k, done, f, reason);
        OnOutgoingNack(k, f, reason);
        done := done + {f};
        downstreams := downstreams - {f};
        NackedKeys(st, k, done, reason);
      }
      assert done == st.pit[k].inRecords.Keys - exceptFaces;
    }

    // ---- incoming Interest ----

    method OnInterestLoop(ingress: Face, i: Interest)
      modifies this
      ensures Abs() == InterestLoop(old(Abs()), ingress, i)
    {
      if !ingress.linkType.PointToPoint? { return; }
      sent := Send(sent, ingress, SentNack(i.name, i.nonce, Duplicate));
    }

    method OnContentStoreHit(k: Key, ingress: Face, data: Data, now: nat)
      requires k in pit
      modifies this
      ensures Abs() == ContentStoreHit(old(Abs()), k, ingress, data, now)
    {
      counters := counters.(nCsHits := counters.nCsHits + 1);
      pit := pit[k := pit[k].(isSatisfied := true, freshness := data.freshness)];
      SetExpiryTimer(k, 0, now);
      SendData(k, data.name, ingress);
      assert old(pit)[k := pit[k]] == pit;
    }

    /** Best-route afterReceiveInterest. */
    method AfterReceiveInterest(k: Key, ingress: Face, i: Interest, nexthops: seq<Face>, now: nat)
      requires k in pit
      modifies this
      ensures Abs() == Forwarding.AfterReceiveInterest(old(Abs()), k, ingress, i, nexthops, now)
    {
      hide Decide, Choice, EligibleOf, OutgoingInterest, OutgoingNack;
      ghost var st := Abs();
      var d, e := DecidePerPitEntry(SUPPRESSION, pit[k], now);
      pit := pit[k := e];
      ghost var decided := Abs();
      if d == Suppress { return; }
      var r := ChooseNextHop(d, ids, ingress, i.name, nexthops, e, now);
      if r.Some? {
        OnOutgoingInterest(k, r.value, i, false, now);
      } else if d == New {
        OnOutgoingNack(k, ingress, NoRoute);
        KeptByNack(decided, k, ingress, NoRoute);
        SetExpiryTimer(k, 0, now);
      }
    }

    method OnContentStoreMiss(k: Key, ingress: Face, i: Interest, nexthops: seq<Face>, now: nat)
      requires k in pit
      modifies this
      ensures Abs() == ContentStoreMiss(old(Abs()), k, ingress, i, nexthops, now)
    {
      hide Forwarding.AfterReceiveInterest, OutgoingInterest, LastExpiry;
      counters := counters.(nCsMisses := counters.nCsMisses + 1);
      var e := WithInRecord(pit[k], ingress, i, now);
      assert ingress in e.inRecords;
      pit := pit[k := e];
      var last := LastExpiring(e.inRecords);
      SetExpiryTimer(k, WholeMilliseconds(last - now), now);
      assert pit == old(pit)[k := e.(timer := Some(LifetimeEnd(e, now)))];
      match i.nextHop
      case NoSuchFace => return;
      case Chosen(face) => OnOutgoingInterest(k, face, i, true, now);
      case Untagged => AfterReceiveInterest(k, ingress, i, nexthops, now);
    }

    method OnIncomingInterest(ingress: Face, i0: Interest, cached: Option<Data>, nexthops: seq<Face>, now: nat)
      modifies this
      ensures Abs() == IncomingInterest(old(Abs()), ingress, i0, cached, nexthops, now)
    {
      hide Screen;
      received := received + multiset{ingress};
      counters := counters.(nInInterests := counters.nInInterests + 1);
      var i := i0;
      if i.hopLimit.Some? {
        if i.hopLimit.value < 1 {
          nInHopLimitZero := nInHopLimitZero + multiset{ingress};
          return;
        }
        i := i.(hopLimit := Some(i.hopLimit.value - 1));
      }
      ScreenInterest(ingress, i, cached, nexthops, now);
    }

    /** Scope control, dead nonces and the PIT insertion of onIncomingInterest. */
    method ScreenInterest(ingress: Face, i: Interest, cached: Option<Data>, nexthops: seq<Face>, now: nat)
      modifies this
      ensures Abs() == Screen(old(Abs()), ingress, i, cached, nexthops, now)
    {
      hide InterestLoop, Admit;
      if ingress.scope.NonLocal? && LOCALHOST <= i.name { return; }
      if (i.name, i.nonce) in dnl {
        OnInterestLoop(ingress, i);
        return;
      }
      var k := KeyOf(i);
      if k !in pit {
        pit := pit[k := NEW_ENTRY];
        inserted := inserted + 1;
      }
      ProcessInserted(k, ingress, i, cached, nexthops, now);
    }

    /** The part of onIncomingInterest after the PIT insertion. */
    method ProcessInserted(k: Key, ingress: Face, i: Interest, cached: Option<Data>, nexthops: seq<Face>, now: nat)
      requires k in pit
      modifies this
      ensures Abs() == Admit(old(Abs()), k, ingress, i, cached, nexthops, now)
    {
      hide InterestLoop, ContentStoreHit, ContentStoreMiss, IsLoop, NonceIsAt;
      var w := FindDuplicateNonce(pit[k], i.nonce, ingress);
      LoopByWhere(pit[k], i.nonce, ingress, w);
      var isDuplicate := w != Where(false, false, false, false);
      if ingress.linkType.PointToPoint? { isDuplicate := isDuplicate && !w.inSame; }
      if isDuplicate {
        OnInterestLoop(ingress, i);
        return;
      }
      if pit[k].inRecords == map[] && cached.Some? {
        OnContentStoreHit(k, ingress, cached.value, now);
      } else {
        OnContentStoreMiss(k, ingress, i, nexthops, now);
      }
    }

    // ---- incoming Data ----

    method OnIncomingData(ingress: Face, data: Data, matches: set<Key>, now: nat)
      requires matches <= pit.Keys
      modifies this
      ensures Abs() == IncomingData(old(Abs()), ingress, data, matches, now)
    {
      hide SatisfyOne, SatisfyMany;
      counters := counters.(nInData := counters.nInData + 1);
      if ingress.scope.NonLocal? && LOCALHOST <= data.name { return; }
      if |matches| == 0 {
        counters := counters.(nUnsolicited := counters.nUnsolicited + 1);
        return;
      }
      if |matches| == 1 {
        var k :| k in matches;
        OnlyMatch(matches, k);
        SatisfyMatch(k, ingress, data, now);
      } else {
        SatisfyMatches(matches, ingress, data, now);
      }
    }

    /** The only matching entry. */
    method SatisfyMatch(k: Key, ingress: Face, data: Data, now: nat)
      requires k in pit
      modifies this
      ensures Abs() == SatisfyOne(old(Abs()), k, ingress, data, now)
    {
      hide SendAll, Waiting, DeadNonces;
      ghost var st := Abs();
      SetExpiryTimer(k, 0, now);
      ghost var timed := Abs();
      SameWaiting(st.ids, st.pit[k], timed.pit[k], ingress, now);
      SendDataToAll(k, ingress, data.name, now);
      pit := pit[k := pit[k].(isSatisfied := true, freshness := data.freshness)];
      ghost var e' := pit[k];
      SameDeadNonces(st, Abs(), k, e', {ingress});
      InsertDeadNonceList(k, {ingress});
      pit := pit[k := pit[k].(outRecords := pit[k].outRecords - {ingress})];
      SatisfyOneInSteps(st, k, ingress, data, now, e', Abs());
    }

    /** All matching entries, when there are several. */
    method SatisfyMatches(matches: set<Key>, ingress: Face, data: Data, now: nat)
      requires matches <= pit.Keys
      modifies this
      ensures Abs() == SatisfyMany(old(Abs()), matches, ingress, data, now)
    {
      hide PendingDownstreams, DeadNoncesOf, Satisfied, SendDataEach, IsPending, GoesBack;
      var pendingDownstreams := ClearMatches(matches, ingress, data, now);
      SendToEach(pendingDownstreams, ingress, data.name);
    }

    /** The loop over the pending downstreams. */
    method SendToEach(downstreams: set<Face>, ingress: Face, name: Name)
      modifies this
      ensures Abs() == SendDataEach(old(Abs()), NotBack(old(ids), downstreams, ingress), name)
    {
      hide SendDataEach, OutgoingData, GoesBack;
      ghost var st := Abs();
      var todo := downstreams;
      ghost var done: set<Face> := {};
      DataEachNothing(st, name);
      while todo != {}
        invariant todo <= downstreams && ids == st.ids
        invariant done == NotBack(st.ids, downstreams - todo, ingress)
        invariant Abs() == SendDataEach(st, done, name)
        decreases |todo|
      {
        var f :| f in todo;
        todo := todo - {f};
        if GoesBack(ids, f, ingress) { continue; }
        DataEachSnoc(st, done, f, name);
        OnOutgoingData(name, f);
        done := done + {f};
        DataEachKeepsIds(st, done, name);
      }
      assert downstreams - todo == downstreams;
    }

    /** The loop over the matches: collects the pending downstreams and clears the entries. */
    method ClearMatches(matches: set<Key>, ingress: Face, data: Data, now: nat) returns (faces: set<Face>)
      requires matches <= pit.Keys
      modifies this`pit, this`dnl
      ensures faces == PendingDownstreams(old(pit), matches, now)
      ensures pit == map k | k in old(pit) ::
                if k in matches then Satisfied(old(pit)[k], ingress, data, now) else old(pit)[k]
      ensures dnl == old(dnl) + DeadNoncesOf(old(Abs()), matches, ingress, data)
    {
      hide PendingDownstreams, DeadNoncesOf, Satisfied;
      ghost var st := Abs();
      faces := {};
      var todo := matches;
      ghost var done: set<Key> := {};
      ClearedNothing(st, ingress, data, now);
      while todo != {}
        invariant todo !! done && todo + done == matches
        invariant faces == PendingDownstreams(st.pit, done, now)
        invariant pit == Cleared(st, done, ingress, data, now)
        invariant dnl == st.dnl + DeadNoncesOf(st, done, ingress, data)
        decreases |todo|
      {
        var k :| k in todo;
        ClearedSnoc(st, done, k, ingress, data, now);
        SameDeadNoncesOf(st, Abs(), k, ingress, data);
        var pending := ClearMatch(k, ingress, data, now);
        faces := faces + pending;
        todo := todo - {k};
        done := done + {k};
      }
      assert done == matches;
    }

    /** One of several matches. */
    method ClearMatch(k: Key, ingress: Face, data: Data, now: nat) returns (faces: set<Face>)
      requires k in pit
      modifies this`pit, this`dnl
      ensures faces == PendingAt(old(pit)[k], now)
      ensures pit == old(pit)[k := Satisfied(old(pit)[k], ingress, data, now)]
      ensures dnl == old(dnl) + DeadNoncesOf(old(Abs()), {k}, ingress, data)
    {
      hide DeadNoncesOf, DeadNonces, PendingAt;
      ghost var st := Abs();
      faces := PendingOf(pit[k], now);
      pit := pit[k := pit[k].(timer := Some(now), isSatisfied := true, freshness := data.freshness)];
      DeadNonceOfMatch(st, Abs(), k, ingress, data);
      InsertDeadNonceList(k, {ingress});
      pit := pit[k := pit[k].(inRecords := map[], outRecords := pit[k].outRecords - {ingress})];
    }

    // ---- incoming Nack ----

    method OnIncomingNack(ingress: Face, k: Key, nonce: nat, reason: Reason, now: nat)
      modifies this
      ensures Abs() == IncomingNack(old(Abs()), ingress, k, nonce, reason, now)
    {
      hide Forwarding.ProcessNack, HasPending;
      counters := counters.(nInNacks := counters.nInNacks + 1);
      if !ingress.linkType.PointToPoint? { return; }
      if k !in pit { return; }
      if ingress !in pit[k].outRecords { return; }
      if nonce != pit[k].outRecords[ingress].nonce { return; }
      pit := pit[k := WithNack(pit[k], ingress, reason)];
      var pending := HasPendingOutRecords(pit[k], now);
      if !pending { SetExpiryTimer(k, 0, now); }
      assert pit == old(pit)[k := pit[k]];
      ProcessNack(k);
    }

    method ProcessNack(k: Key)
      requires k in pit
      modifies this
      ensures Abs() == Forwarding.ProcessNack(old(Abs()), k)
    {
      hide OutgoingNack, SendNackEach, LeastSevere, Nacked;
      var n, last, reason := Survey(pit[k]);
      if n == 1 {
        if last.value in pit[k].inRecords {
          OnOutgoingNack(k, last.value, reason);
          return;
        }
      }
      if n > 0 { return; }
      NackedAll(Abs(), k, reason);
      assert pit[k].inRecords.Keys - {} == pit[k].inRecords.Keys;
      SendNacks(k, reason, {});
    }

    // ---- the end of an entry, and of a face ----

    method OnInterestFinalize(k: Key)
      requires k in pit
      modifies this
      ensures Abs() == Finalize(old(Abs()), k)
    {
      InsertDeadNonceList(k, pit[k].outRecords.Keys);
      if pit[k].isSatisfied {
        counters := counters.(nSatisfied := counters.nSatisfied + 1);
      } else {
        counters := counters.(nUnsatisfied := counters.nUnsatisfied + 1);
      }
      pit := pit - {k};
    }

    /** Deletes the face's records in every entry, then invalidates its ID. */
    method RemoveFace(f: Face)
      modifies this
      ensures Abs() == Forwarding.RemoveFace(old(Abs()), f)
    {
      var todo := pit.Keys;
      while todo != {}
        invariant todo <= pit.Keys == old(pit).Keys
        invariant Abs() == old(Abs()).(pit := pit)
        invariant forall k | k in pit :: pit[k] == if k in todo then old(pit)[k] else WithoutFace(old(pit)[k], f)
        decreases |todo|
      {
        var k :| k in todo;
        pit := pit[k := WithoutFace(pit[k], f)];
        todo := todo - {k};
      }
      ids := ids - {f};
    }
  }

  // ---- lemmas for the methods ----

  /** Truncation toward zero, as duration_cast does. */
  function WholeMilliseconds(ns: int): int {
    if ns >= 0 then ns / NANOSECONDS_PER_MS else -((-ns) / NANOSECONDS_PER_MS)
  }

  lemma KeptByNack(st: State, k: Key, egress: Face, reason: Reason)
    requires k in st.pit
    ensures k in OutgoingNack(st, k, egress, reason).pit
  {}

  lemma LoopByWhere(e: Entry, nonce: nat, face: Face, w: Where)
    requires NonceIsAt(e, nonce, face, w)
    ensures IsLoop(e, nonce, face) <==>
            w != Where(false, false, false, false) && !(face.linkType.PointToPoint? && w.inSame)
  {
    if w.outSame || w.outOther {
      assert exists f :: f in e.outRecords && e.outRecords[f].nonce == nonce;
    }
  }

  lemma OnlyMatch(matches: set<Key>, k: Key)
    requires |matches| == 1 && k in matches
    ensures forall j | j in matches :: j == k
  {
    assert |matches - {k}| == 0;
    forall j | j in matches ensures j == k {
      assert j !in matches - {k};
    }
  }

  lemma SameWaiting(ids: FaceIds, e: Entry, e': Entry, inFace: Face, now: nat)
    requires e'.inRecords == e.inRecords
    ensures Waiting(ids, e', inFace, now) == Waiting(ids, e, inFace, now)
  {}

  lemma SameDeadNonces(st: State, st': State, k: Key, e: Entry, faces: set<Face>)
    requires st.dnlLifetime == st'.dnlLifetime
    ensures DeadNonces(st, k, e, faces) == DeadNonces(st', k, e, faces)
  {}

  lemma SatisfyOneInSteps(st: State, k: Key, ingress: Face, data: Data, now: nat, e': Entry, st': State)
    requires k in st.pit
    requires e' == st.pit[k].(timer := Some(now), isSatisfied := true, freshness := data.freshness,
                              inRecords := st.pit[k].inRecords - Waiting(st.ids, st.pit[k], ingress, now))
    requires var served := Served(SetTimer(st, k, now), k, Waiting(st.ids, st.pit[k], ingress, now), data.name);
             st' == served.(pit := served.pit[k := e'.(outRecords := e'.outRecords - {ingress})],
                            dnl := st.dnl + DeadNonces(st, k, e', {ingress}))
    ensures st' == SatisfyOne(st, k, ingress, data, now)
  {
    hide SendAll, DeadNonces;
    assert st'.pit == SatisfyOne(st, k, ingress, data, now).pit;
  }

  ghost function NotBack(ids: FaceIds, faces: set<Face>, ingress: Face): set<Face> {
    set f | f in faces && !GoesBack(ids, f, ingress)
  }

  ghost function PendingAt(e: Entry, now: nat): set<Face> {
    set f | f in e.inRecords && IsPending(e, f, now)
  }

  method PendingOf(e: Entry, now: nat) returns (faces: set<Face>)
    ensures faces == PendingAt(e, now)
  {
    faces := {};
    var todo := e.inRecords.Keys;
    while todo != {}
      invariant todo <= e.inRecords.Keys
      invariant faces == set f | f in PendingAt(e, now) && f !in todo
      decreases |todo|
    {
      var f :| f in todo;
      todo := todo - {f};
      if e.inRecords[f].expiry > now { faces := faces + {f}; }
    }
  }

  ghost function Cleared(st: State, matches: set<Key>, ingress: Face, data: Data, now: nat): map<Key, Entry>
    requires matches <= st.pit.Keys
  {
    map k | k in st.pit :: if k in matches then Satisfied(st.pit[k], ingress, data, now) else st.pit[k]
  }

  lemma ClearedNothing(st: State, ingress: Face, data: Data, now: nat)
    ensures Cleared(st, {}, ingress, data, now) == st.pit
    ensures PendingDownstreams(st.pit, {}, now) == {}
    ensures st.dnl + DeadNoncesOf(st, {}, ingress, data) == st.dnl
  {}

  lemma ClearedSnoc(st: State, done: set<Key>, k: Key, ingress: Face, data: Data, now: nat)
    requires done <= st.pit.Keys && k in st.pit && k !in done
    ensures Cleared(st, done, ingress, data, now)[k] == st.pit[k]
    ensures Cleared(st, done + {k}, ingress, data, now) ==
            Cleared(st, done, ingress, data, now)[k := Satisfied(st.pit[k], ingress, data, now)]
    ensures PendingDownstreams(st.pit, done + {k}, now) ==
            PendingDownstreams(st.pit, done, now) + PendingAt(st.pit[k], now)
    ensures DeadNoncesOf(st, done + {k}, ingress, data) ==
            DeadNoncesOf(st, done, ingress, data) + DeadNoncesOf(st, {k}, ingress, data)
  {}

  lemma DeadNonceOfMatch(st: State, st': State, k: Key, ingress: Face, data: Data)
    requires k in st.pit && k in st'.pit && st'.dnlLifetime == st.dnlLifetime
    requires st'.pit[k].isSatisfied && st'.pit[k].freshness == data.freshness
    requires st'.pit[k].outRecords == st.pit[k].outRecords
    ensures DeadNonces(st', k, st'.pit[k], {ingress}) == DeadNoncesOf(st, {k}, ingress, data)
  {}

  lemma SameDeadNoncesOf(st: State, st': State, k: Key, ingress: Face, data: Data)
    requires k in st.pit && k in st'.pit && st'.pit[k] == st.pit[k] && st'.dnlLifetime == st.dnlLifetime
    ensures DeadNoncesOf(st', {k}, ingress, data) == DeadNoncesOf(st, {k}, ingress, data)
  {}

  lemma DataEachKeepsIds(st: State, faces: set<Face>, name: Name)
    ensures SendDataEach(st, faces, name).ids == st.ids
  {}

  /** The loop of processNack: how many upstreams have not Nacked, the last such one seen, and the least
      severe reason. */
  method Survey(e: Entry) returns (n: nat, last: Option<Face>, reason: Reason)
    ensures n == |NotNacked(e)|
    ensures n == 0 ==> NotNacked(e) == {}
    ensures n == 1 ==> last.Some? && NotNacked(e) == {last.value}
    ensures n > 1 ==> forall f :: NotNacked(e) != {f}
    ensures reason == LeastSevere(e)
  {
    hide LeastSevere, IsLessSevere, MildestOf, UnNacked, NotNacked;
    n, last, reason := 0, None, Unspecified;
    var todo := e.outRecords.Keys;
    ghost var seen: set<Face> := {};
    NothingSurveyed(e);
    while todo != {}
      invariant seen !! todo && seen + todo == e.outRecords.Keys
      invariant n == |UnNacked(e, seen)|
      invariant n > 0 ==> last.Some? && last.value in UnNacked(e, seen)
      invariant MildestOf(e, seen, reason)
      decreases |todo|
    {
      var f :| f in todo;
      todo := todo - {f};
      MildestNext(e, seen, f, reason);
      UnNackedNext(e, seen, f);
      seen := seen + {f};
      if e.outRecords[f].nack.None? {
        n := n + 1;
        last := Some(f);
      } else {
        if IsLessSevere(e.outRecords[f].nack.value, reason) { reason := e.outRecords[f].nack.value; }
      }
    }
    assert seen == e.outRecords.Keys;
    UnNackedAll(e);
    if n == 1 { Singleton(NotNacked(e), last.value); }
    NotSingle(NotNacked(e));
    MinimalIsLeastSevere(e, reason);
  }

  /** The faces among these without a Nack. */
  ghost function UnNacked(e: Entry, faces: set<Face>): set<Face>
    requires faces <= e.outRecords.Keys
  {
    set f | f in faces && e.outRecords[f].nack.None?
  }

  lemma UnNackedNext(e: Entry, faces: set<Face>, f: Face)
    requires faces <= e.outRecords.Keys && f in e.outRecords && f !in faces
    ensures |UnNacked(e, faces + {f})| == |UnNacked(e, faces)| + (if e.outRecords[f].nack.None? then 1 else 0)
    ensures e.outRecords[f].nack.None? ==> f in UnNacked(e, faces + {f})
    ensures forall g | g in UnNacked(e, faces) :: g in UnNacked(e, faces + {f})
  {
    assert UnNacked(e, faces + {f}) == UnNacked(e, faces) + (if e.outRecords[f].nack.None? then {f} else {});
  }

  lemma UnNackedAll(e: Entry)
    ensures UnNacked(e, e.outRecords.Keys) == NotNacked(e)
  {}

  /** The reason is recorded, or none so far, and no reason on these faces is less severe. */
  ghost predicate MildestOf(e: Entry, faces: set<Face>, reason: Reason)
    requires faces <= e.outRecords.Keys
  {
    && (reason == Unspecified || Recorded(e, reason))
    && forall f | f in faces && e.outRecords[f].nack.Some? :: !IsLessSevere(e.outRecords[f].nack.value, reason)
  }

  lemma NothingSurveyed(e: Entry)
    ensures MildestOf(e, {}, Unspecified) && UnNacked(e, {}) == {}
  {}

  lemma MildestNext(e: Entry, faces: set<Face>, f: Face, reason: Reason)
    requires faces <= e.outRecords.Keys && f in e.outRecords && MildestOf(e, faces, reason)
    ensures var nack := e.outRecords[f].nack;
            MildestOf(e, faces + {f},
                      if nack.Some? && IsLessSevere(nack.value, reason) then nack.value else reason)
  {
    var nack := e.outRecords[f].nack;
    if nack.Some? && IsLessSevere(nack.value, reason) { assert Recorded(e, nack.value); }
  }

  lemma NotSingle(s: set<Face>)
    ensures |s| > 1 ==> forall f :: s != {f}
  {
    forall f ensures s == {f} ==> |s| == 1 {}
  }

  lemma Singleton(s: set<Face>, f: Face)
    requires |s| == 1 && f in s
    ensures s == {f}
  {
    assert |s - {f}| == 0;
    assert s == (s - {f}) + {f};
  }

  lemma MinimalIsLeastSevere(e: Entry, reason: Reason)
    requires MildestOf(e, e.outRecords.Keys, reason)
    ensures reason == LeastSevere(e)
  {
    var least := LeastSevere(e);
    if least != Unspecified {
      var f :| f in e.outRecords && e.outRecords[f].nack == Some(least);
      assert !IsLessSevere(e.outRecords[f].nack.value, reason);
    }
  }

  lemma ServedNothing(st: State, k: Key, name: Name)
    requires k in st.pit
    ensures Served(st, k, {}, name) == st
  {
    assert st.pit[k].inRecords - {} == st.pit[k].inRecords;
    assert st.pit[k := st.pit[k]] == st.pit;
    DataEachNothing(st, name);
  }

  lemma ServedKeys(st: State, k: Key, faces: set<Face>, name: Name)
    requires k in st.pit
    ensures k in Served(st, k, faces, name).pit
  {}

  lemma NackedKeys(st: State, k: Key, faces: set<Face>, reason: Reason)
    requires k in st.pit
    ensures k in Nacked(st, k, faces, reason).pit
  {}
}
