/** When Nacks go downstream: once every out-record has one recorded, which need not be for the Interest last
    sent to that upstream. */
module NackAggregation {
  import opened Sequence64
  import opened Pit
  import opened RetxSuppression
  import opened BestRoute
  import opened Forwarding
  import opened OutRecords

  /** The reason sent downstream was recorded, and none recorded is less severe. */
  lemma LeastSevereIsMinimal(e: Entry)
    ensures LeastSevere(e) == Unspecified || Recorded(e, LeastSevere(e))
    ensures forall r | Recorded(e, r) :: !IsLessSevere(r, LeastSevere(e))
    ensures (exists f :: f in e.outRecords && e.outRecords[f].nack.Some? && e.outRecords[f].nack.value != Unspecified)
            <==> LeastSevere(e) != Unspecified
  {
    forall f | f in e.outRecords && e.outRecords[f].nack.Some? ensures Recorded(e, e.outRecords[f].nack.value) {}
  }

  /** The Nack is for an Interest this face was sent and has not been sent since with another Nonce. */
  predicate Accepted(st: State, ingress: Face, k: Key, nonce: nat) {
    && ingress.linkType.PointToPoint?
    && k in st.pit && ingress in st.pit[k].outRecords && st.pit[k].outRecords[ingress].nonce == nonce
  }

  /** Which downstreams a Nack can be sent to. */
  predicate Reachable(st: State, f: Face) {
    IdOf(st.ids, f) != INVALID_FACEID && f.linkType.PointToPoint?
  }

  /** A Nack that is not accepted only counts. */
  lemma OtherNacksAreDropped(st: State, ingress: Face, k: Key, nonce: nat, reason: Reason, now: nat)
    requires !Accepted(st, ingress, k, nonce)
    ensures IncomingNack(st, ingress, k, nonce, reason, now)
            == st.(counters := st.counters.(nInNacks := st.counters.nInNacks + 1))
  {}

  /** What face f receives, and whether it keeps its in-record. */
  ghost predicate Told(st: State, st': State, k: Key, f: Face, reason: Reason)
    requires k in st.pit && k in st'.pit
  {
    var records, records' := st.pit[k].inRecords, st'.pit[k].inRecords;
    f in records && f !in records' &&
    SentTo(st'.sent, f) == SentTo(st.sent, f) + [SentNack(k.name, records[f].nonce, reason)]
  }

  ghost predicate Untold(st: State, st': State, k: Key, f: Face)
    requires k in st.pit && k in st'.pit
  {
    var records, records' := st.pit[k].inRecords, st'.pit[k].inRecords;
    && (f in records <==> f in records') && (f in records ==> records'[f] == records[f])
    && SentTo(st'.sent, f) == SentTo(st.sent, f)
  }

  /** Nothing but one entry, the outbox and the Nack counters changes. */
  ghost predicate OnlyEntry(st: State, st': State, k: Key)
  {
    && k in st'.pit && st'.pit == st.pit[k := st'.pit[k]]
    && st'.dnl == st.dnl && st'.ids == st.ids && st'.received == st.received && st'.inserted == st.inserted
  }

  lemma NackEachTells(st: State, k: Key, reason: Reason)
    requires k in st.pit
    ensures var st' := SendNackEach(st, k, reason);
            && OnlyEntry(st, st', k)
            && st'.pit[k].outRecords == st.pit[k].outRecords && st'.pit[k].timer == st.pit[k].timer
            && forall f :: if f in st.pit[k].inRecords && Reachable(st, f) then Told(st, st', k, f, reason)
                           else Untold(st, st', k, f)
  {
    var e := st.pit[k];
    var faces := set f | f in e.inRecords && NackPasses(st.ids, e, f);
    var st' := SendNackEach(st, k, reason);
    assert st'.pit[k].inRecords == e.inRecords - faces;
    forall f ensures if f in e.inRecords && Reachable(st, f) then Told(st, st', k, f, reason)
                     else Untold(st, st', k, f)
    {
      assert f in faces <==> f in e.inRecords && Reachable(st, f);
      assert SentTo(st.sent, f) + [] == SentTo(st.sent, f);
    }
  }

  /** When the last upstream Nacks, every reachable downstream gets exactly one Nack, with the least severe
      reason and its own Nonce, and loses its in-record; no other face is sent anything. The entry is
      due at once. */
  lemma LastNackAnswersAll(st: State, ingress: Face, k: Key, nonce: nat, reason: Reason, now: nat)
    requires Accepted(st, ingress, k, nonce)
    requires forall f | f in st.pit[k].outRecords && f != ingress :: st.pit[k].outRecords[f].nack.Some?
    ensures var st' := IncomingNack(st, ingress, k, nonce, reason, now);
            var e := WithNack(st.pit[k], ingress, reason);
            && OnlyEntry(st, st', k)
            && st'.pit[k].outRecords == e.outRecords && st'.pit[k].timer == Some(now)
            && forall f :: if f in st.pit[k].inRecords && Reachable(st, f) then Told(st, st', k, f, LeastSevere(e))
                           else Untold(st, st', k, f)
  {
    hide SendNackEach, LeastSevere, SentTo;
    var e := WithNack(st.pit[k], ingress, reason);
    var st1 := st.(counters := st.counters.(nInNacks := st.counters.nInNacks + 1),
                   pit := st.pit[k := e.(timer := Some(now))]);
    assert NotNacked(e) == {} && !HasPending(e, now);
    SameRecords(e, e.(timer := Some(now)));
    NackEachTells(st1, k, LeastSevere(e));
    assert IncomingNack(st, ingress, k, nonce, reason, now) == SendNackEach(st1, k, LeastSevere(e));
  }

  lemma SameRecords(e: Entry, e': Entry)
    requires e.outRecords == e'.outRecords
    ensures LeastSevere(e) == LeastSevere(e') && NotNacked(e) == NotNacked(e')
  {}

  /** While an upstream has not Nacked, a Nack goes out only if there is a single such upstream and it
      is a downstream as well, and only to it. */
  lemma EarlierNackWaits(st: State, ingress: Face, k: Key, nonce: nat, reason: Reason, now: nat)
    requires Accepted(st, ingress, k, nonce)
    requires exists f :: f in st.pit[k].outRecords && f != ingress && st.pit[k].outRecords[f].nack.None?
    ensures var st' := IncomingNack(st, ingress, k, nonce, reason, now);
            var e := WithNack(st.pit[k], ingress, reason);
            && OnlyEntry(st, st', k) && st'.pit[k].outRecords == e.outRecords
            && forall f :: if f in e.inRecords && Reachable(st, f) && NotNacked(e) == {f}
                           then Told(st, st', k, f, LeastSevere(e))
                           else Untold(st, st', k, f)
  {
    hide LeastSevere, HasPending, ProcessNack, Told, Untold;
    var e := WithNack(st.pit[k], ingress, reason);
    var e' := if HasPending(e, now) then e else e.(timer := Some(now));
    SameRecords(e, e');
    var st1 := st.(counters := st.counters.(nInNacks := st.counters.nInNacks + 1), pit := st.pit[k := e']);
    var f :| f in st.pit[k].outRecords && f != ingress && st.pit[k].outRecords[f].nack.None?;
    assert f in NotNacked(e);
    assert IncomingNack(st, ingress, k, nonce, reason, now) == ProcessNack(st1, k);
    WaitingTells(st1, k);
    var st' := ProcessNack(st1, k);
    forall g { SameStart(st, st1, st', k, g, LeastSevere(e)); }
  }

  /** Recording the Nack touches neither the outbox nor the in-records. */
  lemma SameStart(st: State, st1: State, st': State, k: Key, f: Face, reason: Reason)
    requires k in st.pit && k in st1.pit && k in st'.pit
    requires st1.sent == st.sent && st1.pit[k].inRecords == st.pit[k].inRecords
    ensures Told(st, st', k, f, reason) <==> Told(st1, st', k, f, reason)
    ensures Untold(st, st', k, f) <==> Untold(st1, st', k, f)
  {}

  lemma WaitingTells(st: State, k: Key)
    requires k in st.pit && NotNacked(st.pit[k]) != {}
    ensures var st' := ProcessNack(st, k); var e := st.pit[k];
            && OnlyEntry(st, st', k) && st'.pit[k].outRecords == e.outRecords
            && forall f :: if f in e.inRecords && Reachable(st, f) && NotNacked(e) == {f}
                           then Told(st, st', k, f, LeastSevere(e))
                           else Untold(st, st', k, f)
  {
    hide LeastSevere;
    var e := st.pit[k];
    var st' := ProcessNack(st, k);
    if g :| g in e.inRecords && NotNacked(e) == {g} {
      assert st' == OutgoingNack(st, k, g, LeastSevere(e));
      assert st.pit[k := st.pit[k]] == st.pit;
    } else {
      assert st' == st;
      assert st.pit[k := st.pit[k]] == st.pit;
    }
  }

  // ---- a Nack outlives the Interest it answered ----

  /** The Interest last sent to the upstream has not been Nacked. */
  predicate Unanswered(r: OutRecord) {
    r.history != [] && r.history[|r.history| - 1].Asked?
  }

  /** Position i is the last Nack. */
  ghost predicate LastNackAt(h: seq<Exchange>, i: nat) {
    i < |h| && h[i].Refused? && forall j | i < j < |h| :: h[j].Asked?
  }

  /** An Interest was sent to the upstream after its last Nack. */
  ghost predicate RenewedAfterNack(r: OutRecord) {
    exists i: nat :: LastNackAt(r.history, i) && i < |r.history| - 1
  }

  lemma {:induction false} SomeNackAt(h: seq<Exchange>)
    ensures LastRefused(h).Some? <==> exists i: nat :: LastNackAt(h, i)
  {
    if h != [] {
      var n := |h| - 1;
      SomeNackAt(h[..n]);
      if h[n].Refused? {
        assert LastNackAt(h, n);
      } else {
        forall i: nat ensures LastNackAt(h, i) <==> LastNackAt(h[..n], i) {}
      }
    }
  }

  lemma StaleIff(r: OutRecord)
    requires RecordTrue(r)
    ensures r.nack.Some? && Unanswered(r) <==> RenewedAfterNack(r)
  {
    SomeNackAt(r.history);
  }

  /** The documentation of the out-record promises that sending an Interest clears the Nack recorded on it,
      so that a recorded Nack answers the last Interest sent. In every run an out-record breaks this
      exactly if its Interest was sent again after its last Nack. */
  lemma StaleNackIff(dnlLifetime: nat, events: seq<Event>, k: Key, f: Face)
    requires IsRun(Initial(dnlLifetime), events) && Timely(events)
    requires var st := After(Initial(dnlLifetime), events); k in st.pit && f in st.pit[k].outRecords
    ensures var r := After(Initial(dnlLifetime), events).pit[k].outRecords[f];
            r.nack.Some? && Unanswered(r) <==> RenewedAfterNack(r)
  {
    hide IsRun, Unanswered, RenewedAfterNack, RecordTrue;
    RecordsAreTrue(dnlLifetime, events, k);
    StaleIff(After(Initial(dnlLifetime), events).pit[k].outRecords[f]);
  }

  /** If a face is told, every other upstream has a Nack recorded. */
  lemma ToldMeansNacked(st: State, ingress: Face, k: Key, nonce: nat, reason: Reason, now: nat, f: Face, told: Reason)
    requires Accepted(st, ingress, k, nonce)
    ensures k in IncomingNack(st, ingress, k, nonce, reason, now).pit
    ensures var st' := IncomingNack(st, ingress, k, nonce, reason, now);
            Told(st, st', k, f, told) ==>
              forall u | u in st'.pit[k].outRecords && u != f :: st'.pit[k].outRecords[u].nack.Some?
  {
    hide IncomingNack, LeastSevere;
    var e := WithNack(st.pit[k], ingress, reason);
    if u :| u in st.pit[k].outRecords && u != ingress && st.pit[k].outRecords[u].nack.None? {
      EarlierNackWaits(st, ingress, k, nonce, reason, now);
      var st' := IncomingNack(st, ingress, k, nonce, reason, now);
      if Told(st, st', k, f, told) {
        assert !Untold(st, st', k, f);
        forall u | u in e.outRecords && u != f ensures e.outRecords[u].nack.Some? {
          assert u !in NotNacked(e);
        }
      }
    } else {
      LastNackAnswersAll(st, ingress, k, nonce, reason, now);
    }
  }

  /** In every run, when a Nack is passed on to a downstream, some other upstream has not answered the
      Interest last sent to it exactly if some other upstream was sent one after its Nack. */
  lemma ToldEarlyIff(dnlLifetime: nat, events: seq<Event>, ingress: Face, k: Key, nonce: nat, reason: Reason,
                     now: nat, f: Face, told: Reason)
    requires IsRun(Initial(dnlLifetime), events) && Timely(events) && Clock(events) <= now
    requires var st := After(Initial(dnlLifetime), events);
             Accepted(st, ingress, k, nonce) && var st' := IncomingNack(st, ingress, k, nonce, reason, now);
             k in st'.pit && Told(st, st', k, f, told)
    ensures var out := IncomingNack(After(Initial(dnlLifetime), events), ingress, k, nonce, reason, now).pit[k].outRecords;
            (exists u :: u in out && u != f && Unanswered(out[u])) <==>
            (exists u :: u in out && u != f && RenewedAfterNack(out[u]))
  {
    hide IsRun, IncomingNack, Evolves, AllEvolve, Unanswered, RenewedAfterNack, RecordTrue, SentTrue, Told, Accepted;
    var st := After(Initial(dnlLifetime), events);
    var st' := IncomingNack(st, ingress, k, nonce, reason, now);
    RecordsAreTrue(dnlLifetime, events, k);
    NewIsTrue(Clock(events));
    NackEvolves(st, ingress, k, nonce, reason, now);
    EachEvolves(st, st', k, now);
    EvolvesKeepsTrue(EntryAt(st, k), st'.pit[k], Clock(events), now);
    ToldMeansNacked(st, ingress, k, nonce, reason, now, f, told);
    var out := st'.pit[k].outRecords;
    forall u | u in out && u != f ensures Unanswered(out[u]) <==> RenewedAfterNack(out[u]) {
      StaleIff(out[u]);
    }
  }

  /** So an entry whose upstreams have all Nacked stays without pending out-records however often its
      Interest is sent again to one of them, and its retransmissions are never suppressed. */
  lemma NackedUpstreamStaysNacked(e: Entry, egress: Face, i: Interest, now: nat, later: nat)
    requires egress in e.outRecords && NotNacked(e) == {}
    ensures NotNacked(WithOutRecord(e, egress, i, now)) == {}
    ensures Decide(SUPPRESSION, WithOutRecord(e, egress, i, now), later).0 == New
  {
    var e' := WithOutRecord(e, egress, i, now);
    forall f | f in e.outRecords ensures e.outRecords[f].nack.Some? {
      assert f !in NotNacked(e);
    }
    assert forall f | f in e'.outRecords :: e'.outRecords[f].nack.Some?;
  }
}
