/** Best-route spreads the retransmissions of one Interest over its eligible next hops in turn. */
module RoundRobin {
  import opened Sequence64
  import opened Pit
  import opened RetxSuppression
  import opened BestRoute
  import opened Forwarding

  /** One arrival of the Interest, at a time. */
  datatype Arrival = Arrival(interest: Interest, now: nat)

  /** The entry, and the next hops its Interest has been sent to so far. */
  datatype Life = Life(entry: Entry, log: seq<Face>)

  /** afterReceiveInterest on the entry, without a hop-limit drop. */
  ghost function Arrive(p: Params, eligible: seq<Face>, l: Life, a: Arrival): Life
    requires ValidParams(p)
  {
    var (d, e) := Decide(p, l.entry, a.now);
    if d == Suppress then l.(entry := e)
    else
      var r := Choice(d, e, eligible, a.now);
      if r.None? then l.(entry := e)
      else Life(WithOutRecord(e, r.value, a.interest, a.now), l.log + [r.value])
  }

  /** No out-record has been Nacked or has expired. */
  ghost predicate Undisturbed(e: Entry, now: nat) {
    forall f | f in e.outRecords :: e.outRecords[f].expiry > now && e.outRecords[f].nack.None?
  }

  ghost predicate IsLife(p: Params, eligible: seq<Face>, start: Entry, arrivals: seq<Arrival>)
    requires ValidParams(p)
  {
    arrivals != [] ==>
      var before := arrivals[..|arrivals| - 1];
      && IsLife(p, eligible, start, before)
      && Undisturbed(Lived(p, eligible, start, before).entry, arrivals[|arrivals| - 1].now)
  }

  ghost function Lived(p: Params, eligible: seq<Face>, start: Entry, arrivals: seq<Arrival>): Life
    requires ValidParams(p)
  {
    if arrivals == [] then Life(start, [])
    else Arrive(p, eligible, Lived(p, eligible, start, arrivals[..|arrivals| - 1]), arrivals[|arrivals| - 1])
  }

  ghost predicate Distinct(s: seq<Face>) {
    forall i, j | 0 <= i < j < |s| :: s[i] != s[j]
  }

  // ---- whose turn it is ----

  /** k modulo n, by counting. */
  ghost function Turn(n: nat, k: nat): (r: nat)
    requires n > 0
    ensures r < n
  {
    if k == 0 then 0 else var t := Turn(n, k - 1) + 1; if t == n then 0 else t
  }

  /** The remainder. */
  function Modulo(k: nat, n: nat): (r: nat)
    requires n > 0
    ensures r < n
  {
    k % n
  }

  lemma {:induction false} TurnIsModulo(n: nat, k: nat)
    requires n > 0
    ensures Turn(n, k) == Modulo(k, n)
  {
    hide Modulo;
    if k == 0 {
      ZeroModulo(n);
    } else {
      TurnIsModulo(n, k - 1);
      ModuloStep(n, k - 1);
    }
  }

  lemma ZeroModulo(n: nat)
    requires n > 0
    ensures Modulo(0, n) == 0
  {}

  lemma ModuloStep(n: nat, k: nat)
    requires n > 0
    ensures Modulo(k + 1, n) == if Modulo(k, n) + 1 == n then 0 else Modulo(k, n) + 1
  {
    var q, r := k / n, k % n;
    assert k + 1 == n * q + (r + 1);
    if r + 1 == n {
      assert k + 1 == n * (q + 1);
      UniqueModulo(n, q + 1, 0, k + 1);
    } else {
      UniqueModulo(n, q, r + 1, k + 1);
    }
  }

  lemma UniqueModulo(n: nat, q: nat, r: nat, x: nat)
    requires r < n && x == n * q + r
    ensures x % n == r
  {
    var d := x / n - q;
    assert n * d == n * (x / n) - n * q;
    SmallMultiple(n, d);
  }

  lemma SmallMultiple(n: int, d: int)
    requires -n < n * d < n
    ensures d == 0
  {
    Multiple(n, d);
    Multiple(n, -d);
  }

  lemma Multiple(n: int, d: int)
    requires n > 0
    ensures d > 0 ==> n * d >= n
  {
    assert n * d == n + n * (d - 1);
    if d > 0 { assert n * (d - 1) >= 0; }
  }

  /** Fewer than n steps on, it is someone else's turn. */
  lemma {:induction false} TurnsDiffer(n: nat, k: nat, d: nat)
    requires 0 < d < n
    ensures Turn(n, k + d) == (if Turn(n, k) + d < n then Turn(n, k) + d else Turn(n, k) + d - n)
    ensures Turn(n, k + d) != Turn(n, k)
  {
    if d > 1 { TurnsDiffer(n, k, d - 1); }
  }

  // ---- the invariant ----

  /** When each next hop was last used, if it was. */
  ghost function LastUses(eligible: seq<Face>, e: Entry): (r: seq<Option<nat>>)
    ensures |r| == |eligible|
  {
    seq(|eligible|, j requires 0 <= j < |eligible| =>
      if eligible[j] in e.outRecords then Some(e.outRecords[eligible[j]].lastRenewed) else None)
  }

  /** Next hops before `turn` were used in this round, oldest first; the others in the round before,
      earlier than all of those, or not at all in the first round. */
  ghost predicate Ordered(uses: seq<Option<nat>>, again: bool, turn: nat)
    requires turn < |uses|
  {
    && (forall j | 0 <= j < |uses| :: uses[j].Some? <==> again || j < turn)
    && (forall a, b | 0 <= a < b < turn :: uses[a].value < uses[b].value)
    && (again ==> forall a, b | turn <= a < b < |uses| :: uses[a].value < uses[b].value)
    && (again ==> forall a, b | turn <= a < |uses| && 0 <= b < turn :: uses[a].value < uses[b].value)
  }

  ghost predicate InTurn(eligible: seq<Face>, e: Entry, sent: nat)
    requires eligible != []
  {
    var n, turn := |eligible|, Turn(|eligible|, sent);
    && Ordered(LastUses(eligible, e), sent >= n, turn)
    && (sent < n ==> turn == sent)
    && (forall f | f in e.outRecords :: f in eligible)
  }

  lemma {:induction false} EarliestIsOldest(e: Entry, s: seq<Face>, i: nat)
    requires forall f | f in s :: f in e.outRecords
    requires i < |s|
    requires forall j | 0 <= j < |s| && j != i ::
               e.outRecords[s[i]].lastRenewed < e.outRecords[s[j]].lastRenewed
    ensures Earliest(e, s) == Some(s[i])
  {
    var n := |s| - 1;
    if i < n {
      EarliestIsOldest(e, s[..n], i);
    } else if n > 0 {
      var r := Earliest(e, s[..n]);
      var j :| 0 <= j < n && s[j] == r.value;
      assert e.outRecords[s[n]].lastRenewed < e.outRecords[s[j]].lastRenewed;
    }
  }

  lemma {:induction false} FirstUnusedAt(e: Entry, s: seq<Face>, now: nat, i: nat)
    requires i < |s| && IsUnused(e, s[i], now)
    requires forall j | 0 <= j < i :: !IsUnused(e, s[j], now)
    ensures FirstUnused(e, s, now) == Some(s[i])
  {
    var n := |s| - 1;
    if i < n {
      FirstUnusedAt(e, s[..n], now, i);
    } else {
      NoneUnused(e, s[..n], now);
    }
  }

  lemma {:induction false} NoneUnused(e: Entry, s: seq<Face>, now: nat)
    requires forall f | f in s :: !IsUnused(e, f, now)
    ensures FirstUnused(e, s, now).None?
  {
    if s != [] { NoneUnused(e, s[..|s| - 1], now); }
  }

  /** Whatever is decided other than SUPPRESS, the choice is the next hop whose turn it is. */
  lemma ChoiceTakesTurn(d: Decision, eligible: seq<Face>, e: Entry, sent: nat, now: nat)
    requires eligible != [] && InTurn(eligible, e, sent) && Undisturbed(e, now)
    requires d == New <==> sent == 0
    ensures Choice(d, e, eligible, now) == Some(eligible[Turn(|eligible|, sent)])
  {
    var n, turn := |eligible|, Turn(|eligible|, sent);
    var uses := LastUses(eligible, e);
    assert forall j | 0 <= j < n :: eligible[j] in e.outRecords <==> uses[j].Some?;
    if sent == 0 {
    } else if sent < n {
      FirstUnusedAt(e, eligible, now, turn);
    } else {
      NoneUnused(e, eligible, now);
      EarliestIsOldest(e, eligible, turn);
    }
  }

  lemma PendingWhenUsed(eligible: seq<Face>, e: Entry, sent: nat, now: nat)
    requires eligible != [] && InTurn(eligible, e, sent) && Undisturbed(e, now)
    ensures HasPending(e, now) <==> sent > 0
  {
    if sent == 0 {
      NothingUsed(eligible, e);
    } else {
      assert LastUses(eligible, e)[0].Some?;
    }
  }

  lemma TakingATurn(eligible: seq<Face>, e: Entry, sent: nat, i: Interest, now: nat)
    requires eligible != [] && Distinct(eligible) && InTurn(eligible, e, sent)
    requires forall f | f in e.outRecords :: e.outRecords[f].lastRenewed < now
    ensures InTurn(eligible, WithOutRecord(e, eligible[Turn(|eligible|, sent)], i, now), sent + 1)
  {
    hide Ordered, LastUses;
    var turn := Turn(|eligible|, sent);
    UsesBefore(eligible, e, now);
    OrderedAfter(LastUses(eligible, e), sent >= |eligible|, turn, now);
    UsesAfter(eligible, e, turn, i, now);
  }

  lemma UsesBefore(eligible: seq<Face>, e: Entry, now: nat)
    requires forall f | f in e.outRecords :: e.outRecords[f].lastRenewed < now
    ensures var uses := LastUses(eligible, e); forall j | 0 <= j < |uses| && uses[j].Some? :: uses[j].value < now
  {}

  lemma UsesAfter(eligible: seq<Face>, e: Entry, turn: nat, i: Interest, now: nat)
    requires turn < |eligible| && Distinct(eligible)
    ensures LastUses(eligible, WithOutRecord(e, eligible[turn], i, now)) == LastUses(eligible, e)[turn := Some(now)]
  {}

  lemma OrderedAfter(uses: seq<Option<nat>>, again: bool, turn: nat, now: nat)
    requires turn < |uses| && Ordered(uses, again, turn)
    requires forall j | 0 <= j < |uses| && uses[j].Some? :: uses[j].value < now
    ensures var after := uses[turn := Some(now)];
            if turn + 1 == |uses| then Ordered(after, true, 0) else Ordered(after, again, turn + 1)
  {}

  /** With a fixed set of n eligible next hops and no Nack, Data or expiry, the k-th transmission of an
      entry goes to next hop k modulo n. */
  lemma {:induction false} TakesTurns(p: Params, eligible: seq<Face>, start: Entry, arrivals: seq<Arrival>)
    requires ValidParams(p) && eligible != [] && Distinct(eligible)
    requires Paced(p, start) && start.outRecords == map[]
    requires IsLife(p, eligible, start, arrivals)
    ensures var l := Lived(p, eligible, start, arrivals);
            && Paced(p, l.entry)
            && InTurn(eligible, l.entry, |l.log|)
            && forall k | 0 <= k < |l.log| :: l.log[k] == eligible[Turn(|eligible|, k)]
  {
    hide Arrive, InTurn, Paced, Turn;
    if arrivals == [] {
      StartsInTurn(eligible, start);
    } else {
      var before, a := arrivals[..|arrivals| - 1], arrivals[|arrivals| - 1];
      TakesTurns(p, eligible, start, before);
      ArriveTakesTurn(p, eligible, Lived(p, eligible, start, before), a);
    }
  }

  lemma StartsInTurn(eligible: seq<Face>, start: Entry)
    requires eligible != [] && start.outRecords == map[]
    ensures InTurn(eligible, start, 0)
  {}

  lemma ArriveTakesTurn(p: Params, eligible: seq<Face>, l: Life, a: Arrival)
    requires ValidParams(p) && eligible != [] && Distinct(eligible)
    requires Paced(p, l.entry) && InTurn(eligible, l.entry, |l.log|) && Undisturbed(l.entry, a.now)
    ensures var l' := Arrive(p, eligible, l, a);
            && Paced(p, l'.entry)
            && InTurn(eligible, l'.entry, |l'.log|)
            && (l'.log == l.log || l'.log == l.log + [eligible[Turn(|eligible|, |l.log|)]])
  {
    hide Choice, InTurn, Turn;
    var sent := |l.log|;
    var d, e := Decide(p, l.entry, a.now).0, Decide(p, l.entry, a.now).1;
    DecideIsPaced(p, l.entry, a.now);
    PendingWhenUsed(eligible, l.entry, sent, a.now);
    SameRecords(eligible, l.entry, e, sent);
    if d != Suppress {
      ChoiceTakesTurn(d, eligible, e, sent, a.now);
      assert d == New ==> e.outRecords == map[] by {
        if sent == 0 { NothingUsed(eligible, e); }
      }
      TakingATurn(eligible, e, sent, a.interest, a.now);
    }
  }

  lemma NothingUsed(eligible: seq<Face>, e: Entry)
    requires eligible != [] && InTurn(eligible, e, 0)
    ensures e.outRecords == map[]
  {
    forall j | 0 <= j < |eligible| ensures eligible[j] !in e.outRecords {
      assert LastUses(eligible, e)[j].None?;
    }
    assert forall f | f in eligible :: f !in e.outRecords;
  }

  lemma SameRecords(eligible: seq<Face>, e: Entry, e': Entry, sent: nat)
    requires eligible != [] && InTurn(eligible, e, sent) && e'.outRecords == e.outRecords
    ensures InTurn(eligible, e', sent)
  {
    assert LastUses(eligible, e') == LastUses(eligible, e);
  }

  /** Best-route in the pipeline does to the entry what Arrive does, and sends what Arrive logs. */
  lemma StrategyArrives(st: State, k: Key, ingress: Face, i: Interest, nexthops: seq<Face>, now: nat, log: seq<Face>)
    requires k in st.pit && i.hopLimit != Some(0) && EligibleOf(st.ids, ingress, i.name, nexthops) != []
    ensures var l := Arrive(SUPPRESSION, EligibleOf(st.ids, ingress, i.name, nexthops), Life(st.pit[k], log), Arrival(i, now));
            var st' := AfterReceiveInterest(st, k, ingress, i, nexthops, now);
            && k in st'.pit && st'.pit[k] == l.entry
            && (if l.log == log then st'.sent == st.sent && st'.interests == st.interests
                else && l.log == log + [l.log[|log|]]
                     && st'.interests == st.interests + [Asking(k, l.log[|log|], i.nonce, false)]
                     && st'.sent == Send(st.sent, l.log[|log|], SentInterest(k.name, i.nonce, false)))
  {
    hide Decide, EligibleOf, Send;
    var eligible := EligibleOf(st.ids, ingress, i.name, nexthops);
    var d, e := Decide(SUPPRESSION, st.pit[k], now).0, Decide(SUPPRESSION, st.pit[k], now).1;
    ChoiceIsEligible(d, st.ids, ingress, i.name, nexthops, e, now);
    SomeEligible(st.ids, ingress, i.name, nexthops);
    if d != Suppress {
      var r := Choice(d, e, eligible, now);
      assert log + [r.value] != log;
    }
  }

  /** A FIB entry lists a face once, so the eligible next hops are distinct. */
  lemma {:induction false} EligibleIsDistinct(ids: FaceIds, inFace: Face, name: Name, nexthops: seq<Face>)
    requires Distinct(nexthops)
    ensures Distinct(EligibleOf(ids, inFace, name, nexthops))
  {
    if nexthops != [] {
      var n := |nexthops| - 1;
      EligibleIsDistinct(ids, inFace, name, nexthops[..n]);
      EligibleMembers(ids, inFace, name, nexthops[..n]);
    }
  }

  lemma SomeEligible(ids: FaceIds, inFace: Face, name: Name, nexthops: seq<Face>)
    requires EligibleOf(ids, inFace, name, nexthops) != []
    ensures exists f :: f in nexthops && IsEligible(ids, inFace, name, f)
  {
    EligibleMembers(ids, inFace, name, nexthops);
    var f := EligibleOf(ids, inFace, name, nexthops)[0];
    assert f in EligibleOf(ids, inFace, name, nexthops);
  }

  /** An Interest that misses the Content Store either is suppressed or goes to the next hop whose turn it
      is, and nowhere else. */
  lemma PipelineTakesTurn(st: State, k: Key, ingress: Face, i: Interest, nexthops: seq<Face>, now: nat, sent: nat)
    requires k in st.pit && i.hopLimit != Some(0) && i.nextHop.Untagged?
    requires var eligible := EligibleOf(st.ids, ingress, i.name, nexthops);
             && eligible != [] && Distinct(eligible)
             && Paced(SUPPRESSION, st.pit[k]) && InTurn(eligible, st.pit[k], sent) && Undisturbed(st.pit[k], now)
    ensures var eligible := EligibleOf(st.ids, ingress, i.name, nexthops);
            var st' := ContentStoreMiss(st, k, ingress, i, nexthops, now);
            && k in st'.pit && Paced(SUPPRESSION, st'.pit[k])
            && ((InTurn(eligible, st'.pit[k], sent) && st'.sent == st.sent && st'.interests == st.interests) ||
                (InTurn(eligible, st'.pit[k], sent + 1) &&
                 st'.interests == st.interests + [Asking(k, eligible[Turn(|eligible|, sent)], i.nonce, false)] &&
                 st'.sent == Send(st.sent, eligible[Turn(|eligible|, sent)], SentInterest(k.name, i.nonce, false))))
  {
    hide InTurn, Turn, EligibleOf, LifetimeEnd, Send, AfterReceiveInterest, Arrive;
    var eligible := EligibleOf(st.ids, ingress, i.name, nexthops);
    var e := WithInRecord(st.pit[k], ingress, i, now);
    assert ingress in e.inRecords;
    var e' := e.(timer := Some(LifetimeEnd(e, now)));
    var pending := st.(pit := st.pit[k := e'],
                       counters := st.counters.(nCsMisses := st.counters.nCsMisses + 1));
    SameRecords(eligible, st.pit[k], e', sent);
    var log := seq(sent, _ => ingress);
    StrategyArrives(pending, k, ingress, i, nexthops, now, log);
    ArriveTakesTurn(SUPPRESSION, eligible, Life(e', log), Arrival(i, now));
  }

  /** Any n consecutive transmissions of the entry use n different next hops. */
  lemma ConsecutiveAreDistinct(p: Params, eligible: seq<Face>, start: Entry, arrivals: seq<Arrival>, i: nat)
    requires ValidParams(p) && eligible != [] && Distinct(eligible)
    requires Paced(p, start) && start.outRecords == map[]
    requires IsLife(p, eligible, start, arrivals)
    requires i + |eligible| <= |Lived(p, eligible, start, arrivals).log|
    ensures Distinct(Lived(p, eligible, start, arrivals).log[i..i + |eligible|])
  {
    TakesTurns(p, eligible, start, arrivals);
    TurnsAreDistinct(eligible, Lived(p, eligible, start, arrivals).log, i);
  }

  lemma TurnsAreDistinct(eligible: seq<Face>, log: seq<Face>, i: nat)
    requires eligible != [] && Distinct(eligible) && i + |eligible| <= |log|
    requires forall k | 0 <= k < |log| :: log[k] == eligible[Turn(|eligible|, k)]
    ensures Distinct(log[i..i + |eligible|])
  {
    hide Turn;
    var s := log[i..i + |eligible|];
    forall a, b | 0 <= a < b < |s| ensures s[a] != s[b] {
      ApartDiffer(eligible, log, i + a, i + b);
    }
  }

  lemma ApartDiffer(eligible: seq<Face>, log: seq<Face>, x: nat, y: nat)
    requires eligible != [] && Distinct(eligible) && x < y < x + |eligible| && y < |log|
    requires forall k | 0 <= k < |log| :: log[k] == eligible[Turn(|eligible|, k)]
    ensures log[x] != log[y]
  {
    hide Turn;
    TurnsDiffer(|eligible|, x, y - x);
  }
}
