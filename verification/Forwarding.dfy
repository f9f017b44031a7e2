/** The forwarding pipelines, as steps of a state machine over the PIT. */
module Forwarding {
  import opened Sequence64
  import opened Pit
  import opened RetxSuppression
  import opened BestRoute

  /** What a face is told to send. `tagged` marks an Interest sent by an explicit NextHopFaceId. */
  datatype Packet =
    | SentInterest(name: Name, nonce: nat, tagged: bool)
    | SentData(name: Name)
    | SentNack(name: Name, nonce: nat, reason: Reason)

  datatype Counters = Counters(
    nInInterests: nat, nOutInterests: nat, nInData: nat, nOutData: nat, nInNacks: nat, nOutNacks: nat,
    nCsHits: nat, nCsMisses: nat, nSatisfied: nat, nUnsatisfied: nat, nUnsolicited: nat)

  type Outbox = map<Face, seq<Packet>>

  /** The Interest of an entry was sent to a face. */
  datatype Asking = Asking(key: Key, face: Face, nonce: nat, tagged: bool)

  /** `sent` is what each face was told to send, in order; `interests` lists the Interests among it over
      all faces, each with its entry; `received` counts the Interests each face delivered; the two
      hopLimitZero counters are those of the faces; `inserted` counts the PIT entries ever created. */
  datatype State = State(pit: map<Key, Entry>, dnl: set<(Name, nat)>, dnlLifetime: nat, ids: FaceIds,
                         sent: Outbox, interests: seq<Asking>, received: multiset<Face>,
                         nInHopLimitZero: multiset<Face>, nOutHopLimitZero: multiset<Face>,
                         inserted: nat, counters: Counters)

  function Initial(dnlLifetime: nat): State {
    State(map[], {}, dnlLifetime, map[], map[], [], multiset{}, multiset{}, multiset{}, 0, Counters(0, 0, 0, 0, 0, 0, 0, 0, 0, 0, 0))
  }

  function SentTo(sent: Outbox, f: Face): seq<Packet> {
    if f in sent then sent[f] else []
  }

  function Send(sent: Outbox, f: Face, p: Packet): Outbox {
    sent[f := SentTo(sent, f) + [p]]
  }

  /** One packet to each of several faces. */
  ghost function SendAll(sent: Outbox, packets: map<Face, Packet>): Outbox {
    map f | f in sent.Keys + packets.Keys ::
      SentTo(sent, f) + (if f in packets then [packets[f]] else [])
  }

  // ---- outgoing pipelines ----

  /** onOutgoingInterest, sent by the strategy or by a NextHopFaceId tag. */
  function OutgoingInterest(st: State, k: Key, egress: Face, i: Interest, tagged: bool, now: nat): State
    requires k in st.pit
  {
    if i.hopLimit == Some(0) && egress.scope.NonLocal? then
      st.(nOutHopLimitZero := st.nOutHopLimitZero + multiset{egress})
    else
      st.(pit := st.pit[k := WithOutRecord(st.pit[k], egress, i, now)],
          interests := st.interests + [Asking(k, egress, i.nonce, tagged)],
          sent := Send(st.sent, egress, SentInterest(k.name, i.nonce, tagged)),
          counters := st.counters.(nOutInterests := st.counters.nOutInterests + 1))
  }

  predicate DataPasses(ids: FaceIds, egress: Face, name: Name) {
    IdOf(ids, egress) != INVALID_FACEID && !(egress.scope.NonLocal? && LOCALHOST <= name)
  }

  function OutgoingData(st: State, egress: Face, name: Name): State {
    if !DataPasses(st.ids, egress, name) then st
    else
      st.(sent := Send(st.sent, egress, SentData(name)),
          counters := st.counters.(nOutData := st.counters.nOutData + 1))
  }

  predicate NackPasses(ids: FaceIds, e: Entry, egress: Face) {
    IdOf(ids, egress) != INVALID_FACEID && egress in e.inRecords && egress.linkType.PointToPoint?
  }

  function OutgoingNack(st: State, k: Key, egress: Face, reason: Reason): State
    requires k in st.pit
  {
    var e := st.pit[k];
    if !NackPasses(st.ids, e, egress) then st
    else
      st.(pit := st.pit[k := e.(inRecords := e.inRecords - {egress})],
          sent := Send(st.sent, egress, SentNack(k.name, e.inRecords[egress].nonce, reason)),
          counters := st.counters.(nOutNacks := st.counters.nOutNacks + 1))
  }

  function SetTimer(st: State, k: Key, t: nat): State
    requires k in st.pit
  {
    st.(pit := st.pit[k := st.pit[k].(timer := Some(t))])
  }

  // ---- incoming Interest ----

  /** A Nack straight to the sender of a looping Interest. It is not counted in nOutNacks. */
  function InterestLoop(st: State, ingress: Face, i: Interest): State {
    if !ingress.linkType.PointToPoint? then st
    else st.(sent := Send(st.sent, ingress, SentNack(i.name, i.nonce, Duplicate)))
  }

  /** The PIT, with an entry for the Interest. */
  function InsertEntry(st: State, k: Key): (r: State)
    ensures k in r.pit
  {
    if k in st.pit then st
    else st.(pit := st.pit[k := NEW_ENTRY], inserted := st.inserted + 1)
  }

  function ContentStoreHit(st: State, k: Key, ingress: Face, data: Data, now: nat): State
    requires k in st.pit
  {
    var e := st.pit[k].(isSatisfied := true, freshness := data.freshness, timer := Some(now),
                        inRecords := st.pit[k].inRecords - {ingress});
    OutgoingData(st.(pit := st.pit[k := e], counters := st.counters.(nCsHits := st.counters.nCsHits + 1)),
                 ingress, data.name)
  }

  /** When the last in-record expires, in whole milliseconds from now. */
  ghost function LifetimeEnd(e: Entry, now: nat): nat
    requires e.inRecords != map[]
  {
    var left := LastExpiry(e.inRecords) - now;
    if left <= 0 then now else now + left / NANOSECONDS_PER_MS * NANOSECONDS_PER_MS
  }

  ghost function ContentStoreMiss(st: State, k: Key, ingress: Face, i: Interest, nexthops: seq<Face>, now: nat)
    : State
    requires k in st.pit
  {
    var e := WithInRecord(st.pit[k], ingress, i, now);
    assert ingress in e.inRecords;
    var pending := st.(pit := st.pit[k := e.(timer := Some(LifetimeEnd(e, now)))],
                       counters := st.counters.(nCsMisses := st.counters.nCsMisses + 1));
    match i.nextHop
    case NoSuchFace => pending
    case Chosen(face) => OutgoingInterest(pending, k, face, i, true, now)
    case Untagged => AfterReceiveInterest(pending, k, ingress, i, nexthops, now)
  }

  /** Best-route. */
  ghost function AfterReceiveInterest(st: State, k: Key, ingress: Face, i: Interest, nexthops: seq<Face>,
                                      now: nat): State
    requires k in st.pit
  {
    var (d, e) := Decide(SUPPRESSION, st.pit[k], now);
    var decided := st.(pit := st.pit[k := e]);
    if d == Suppress then decided
    else
      var r := Choice(d, e, EligibleOf(st.ids, ingress, i.name, nexthops), now);
      if r.Some? then OutgoingInterest(decided, k, r.value, i, false, now)
      else if d == New then SetTimer(OutgoingNack(decided, k, ingress, NoRoute), k, now)
      else decided
  }

  /** onIncomingInterest. `cached` is what the Content Store finds; it is asked only if nothing is pending. */
  ghost function IncomingInterest(st: State, ingress: Face, i0: Interest, cached: Option<Data>,
                                  nexthops: seq<Face>, now: nat): State
  {
    var st := st.(received := st.received + multiset{ingress},
                  counters := st.counters.(nInInterests := st.counters.nInInterests + 1));
    if i0.hopLimit == Some(0) then st.(nInHopLimitZero := st.nInHopLimitZero + multiset{ingress})
    else
      var i := if i0.hopLimit.Some? then i0.(hopLimit := Some(i0.hopLimit.value - 1)) else i0;
      Screen(st, ingress, i, cached, nexthops, now)
  }

  /** An Interest whose hop limit is counted: scope, dead nonces, PIT insertion. */
  ghost function Screen(st: State, ingress: Face, i: Interest, cached: Option<Data>, nexthops: seq<Face>, now: nat)
    : State
  {
    if ingress.scope.NonLocal? && LOCALHOST <= i.name then st
    else if (i.name, i.nonce) in st.dnl then InterestLoop(st, ingress, i)
    else
      var k := KeyOf(i);
      Admit(InsertEntry(st, k), k, ingress, i, cached, nexthops, now)
  }

  /** An Interest that has its PIT entry: loop, Content Store hit or miss. */
  ghost function Admit(st: State, k: Key, ingress: Face, i: Interest, cached: Option<Data>, nexthops: seq<Face>,
                       now: nat): State
    requires k in st.pit
  {
    if IsLoop(st.pit[k], i.nonce, ingress) then InterestLoop(st, ingress, i)
    else if st.pit[k].inRecords == map[] && cached.Some? then ContentStoreHit(st, k, ingress, cached.value, now)
    else ContentStoreMiss(st, k, ingress, i, nexthops, now)
  }

  // ---- incoming Data ----

  predicate NeedsDeadNonce(st: State, k: Key, e: Entry) {
    !e.isSatisfied || (k.mustBeFresh && e.freshness < st.dnlLifetime)
  }

  /** What the Dead Nonce List gains from the out-records of an entry on the given faces. */
  ghost function DeadNonces(st: State, k: Key, e: Entry, faces: set<Face>): set<(Name, nat)> {
    if NeedsDeadNonce(st, k, e) then set f | f in e.outRecords && f in faces :: (k.name, e.outRecords[f].nonce)
    else {}
  }

  ghost predicate IsPending(e: Entry, f: Face, now: nat) {
    f in e.inRecords && e.inRecords[f].expiry > now
  }

  /** Data does not go back where it came from, unless that face is ad hoc. */
  predicate GoesBack(ids: FaceIds, f: Face, ingress: Face) {
    IdOf(ids, f) == IdOf(ids, ingress) && !f.linkType.AdHoc?
  }

  ghost function SendDataEach(st: State, faces: set<Face>, name: Name): State {
    var passing := set f | f in faces && DataPasses(st.ids, f, name);
    st.(sent := SendAll(st.sent, map f | f in passing :: SentData(name)),
        counters := st.counters.(nOutData := st.counters.nOutData + |passing|))
  }

  /** One PIT entry matched: its pending downstreams get the Data and lose their in-records. */
  ghost function SatisfyOne(st: State, k: Key, ingress: Face, data: Data, now: nat): State
    requires k in st.pit
  {
    var e := st.pit[k];
    var faces := set f | f in e.inRecords && IsPending(e, f, now) && !GoesBack(st.ids, f, ingress);
    var e' := e.(timer := Some(now), inRecords := e.inRecords - faces, isSatisfied := true,
                 freshness := data.freshness);
    SendDataEach(
      st.(pit := st.pit[k := e'.(outRecords := e'.outRecords - {ingress})],
          dnl := st.dnl + DeadNonces(st, k, e', {ingress})),
      faces, data.name)
  }

  /** What several matches do to each entry. */
  function Satisfied(e: Entry, ingress: Face, data: Data, now: nat): Entry {
    e.(timer := Some(now), inRecords := map[], outRecords := e.outRecords - {ingress},
       isSatisfied := true, freshness := data.freshness)
  }

  /** The faces with a pending in-record in one of the entries. */
  ghost function PendingDownstreams(pit: map<Key, Entry>, matches: set<Key>, now: nat): set<Face>
    requires matches <= pit.Keys
  {
    set k, f | k in matches && f in pit[k].inRecords && IsPending(pit[k], f, now) :: f
  }

  /** Several PIT entries matched: every pending downstream of any of them gets the Data once. */
  ghost function SatisfyMany(st: State, matches: set<Key>, ingress: Face, data: Data, now: nat): State
    requires matches <= st.pit.Keys
  {
    var faces := set f | f in PendingDownstreams(st.pit, matches, now) && !GoesBack(st.ids, f, ingress);
    SendDataEach(
      st.(pit := map k | k in st.pit :: if k in matches then Satisfied(st.pit[k], ingress, data, now) else st.pit[k],
          dnl := st.dnl + DeadNoncesOf(st, matches, ingress, data)),
      faces, data.name)
  }

  ghost function DeadNoncesOf(st: State, matches: set<Key>, ingress: Face, data: Data): set<(Name, nat)>
    requires matches <= st.pit.Keys
  {
    set k | k in matches && k.mustBeFresh && data.freshness < st.dnlLifetime && ingress in st.pit[k].outRecords
      :: (k.name, st.pit[k].outRecords[ingress].nonce)
  }

  ghost function IncomingData(st: State, ingress: Face, data: Data, matches: set<Key>, now: nat): State
    requires matches <= st.pit.Keys
  {
    var st := st.(counters := st.counters.(nInData := st.counters.nInData + 1));
    if ingress.scope.NonLocal? && LOCALHOST <= data.name then st
    else if |matches| == 0 then st.(counters := st.counters.(nUnsolicited := st.counters.nUnsolicited + 1))
    else if |matches| == 1 then
      var k :| k in matches;
      SatisfyOne(st, k, ingress, data, now)
    else SatisfyMany(st, matches, ingress, data, now)
  }

  // ---- incoming Nack ----

  /** isLessSevere: no reason at all is the most severe. */
  predicate IsLessSevere(x: Reason, y: Reason) {
    match x
    case Unspecified => false
    case Congestion => y != Congestion
    case Duplicate => y == NoRoute || y == Unspecified
    case NoRoute => y == Unspecified
  }

  ghost predicate Recorded(e: Entry, r: Reason) {
    exists f :: f in e.outRecords && e.outRecords[f].nack == Some(r)
  }

  ghost function LeastSevere(e: Entry): Reason {
    if Recorded(e, Congestion) then Congestion
    else if Recorded(e, Duplicate) then Duplicate
    else if Recorded(e, NoRoute) then NoRoute
    else Unspecified
  }

  ghost function NotNacked(e: Entry): set<Face> {
    set f | f in e.outRecords && e.outRecords[f].nack.None?
  }

  ghost function SendNackEach(st: State, k: Key, reason: Reason): State
    requires k in st.pit
  {
    var e := st.pit[k];
    var faces := set f | f in e.inRecords && NackPasses(st.ids, e, f);
    st.(pit := st.pit[k := e.(inRecords := e.inRecords - faces)],
        sent := SendAll(st.sent, map f | f in faces :: SentNack(k.name, e.inRecords[f].nonce, reason)),
        counters := st.counters.(nOutNacks := st.counters.nOutNacks + |faces|))
  }

  ghost function ProcessNack(st: State, k: Key): State
    requires k in st.pit
  {
    var e := st.pit[k];
    var waiting := NotNacked(e);
    if waiting == {} then SendNackEach(st, k, LeastSevere(e))
    else if f :| f in e.inRecords && waiting == {f} then OutgoingNack(st, k, f, LeastSevere(e))
    else st
  }

  ghost function IncomingNack(st: State, ingress: Face, k: Key, nonce: nat, reason: Reason, now: nat): State {
    var st := st.(counters := st.counters.(nInNacks := st.counters.nInNacks + 1));
    if !ingress.linkType.PointToPoint? || k !in st.pit || ingress !in st.pit[k].outRecords
       || st.pit[k].outRecords[ingress].nonce != nonce then st
    else
      var e := WithNack(st.pit[k], ingress, reason);
      var e' := if HasPending(e, now) then e else e.(timer := Some(now));
      ProcessNack(st.(pit := st.pit[k := e']), k)
  }

  // ---- the end of an entry, and faces coming and going ----

  /** onInterestFinalize. */
  ghost function Finalize(st: State, k: Key): State
    requires k in st.pit
  {
    var e := st.pit[k];
    st.(pit := st.pit - {k},
        dnl := st.dnl + DeadNonces(st, k, e, e.outRecords.Keys),
        counters := if e.isSatisfied then st.counters.(nSatisfied := st.counters.nSatisfied + 1)
                    else st.counters.(nUnsatisfied := st.counters.nUnsatisfied + 1))
  }

  function WithoutFace(e: Entry, f: Face): Entry {
    e.(inRecords := e.inRecords - {f}, outRecords := e.outRecords - {f})
  }

  function RemoveFace(st: State, f: Face): State {
    st.(pit := map k | k in st.pit :: WithoutFace(st.pit[k], f), ids := st.ids - {f})
  }

  // ---- runs ----

  /** Content Store answers, FIB next hops, PIT matches and clock readings are inputs. */
  datatype Event =
    | InterestArrives(ingress: Face, interest: Interest, cached: Option<Data>, nexthops: seq<Face>, now: nat)
    | DataArrives(ingress: Face, data: Data, matches: set<Key>, now: nat)
    | NackArrives(ingress: Face, key: Key, nonce: nat, reason: Reason, now: nat)
    | TimerExpires(key: Key)
    | FaceAdded(face: Face, id: nat)
    | FaceRemoved(face: Face)
    | NoncesForgotten(entries: set<(Name, nat)>)

  ghost predicate Enabled(st: State, ev: Event) {
    match ev
    case DataArrives(_, _, matches, _) => matches <= st.pit.Keys
    case TimerExpires(k) => k in st.pit && st.pit[k].timer.Some?
    case FaceAdded(f, id) => f !in st.ids && id != INVALID_FACEID
    case _ => true
  }

  ghost function Step(st: State, ev: Event): State
    requires Enabled(st, ev)
  {
    match ev
    case InterestArrives(ingress, i, cached, nexthops, now) => IncomingInterest(st, ingress, i, cached, nexthops, now)
    case DataArrives(ingress, data, matches, now) => IncomingData(st, ingress, data, matches, now)
    case NackArrives(ingress, k, nonce, reason, now) => IncomingNack(st, ingress, k, nonce, reason, now)
    case TimerExpires(k) => Finalize(st, k)
    case FaceAdded(f, id) => st.(ids := st.ids[f := id])
    case FaceRemoved(f) => RemoveFace(st, f)
    case NoncesForgotten(entries) => st.(dnl := st.dnl - entries)
  }

  ghost predicate IsRun(start: State, events: seq<Event>)
    decreases |events|, 0
  {
    events != [] ==>
      var before := events[..|events| - 1];
      IsRun(start, before) && Enabled(After(start, before), events[|events| - 1])
  }

  ghost function After(start: State, events: seq<Event>): State
    requires IsRun(start, events)
    decreases |events|, 1
  {
    if events == [] then start else Step(After(start, events[..|events| - 1]), events[|events| - 1])
  }
}
