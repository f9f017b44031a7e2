/** How far apart the transmissions of an Interest are. */
module Spacing {
  import opened Sequence64
  import opened Pit
  import opened RetxSuppression
  import opened BestRoute
  import opened Forwarding
  import opened PitLifetime
  import opened OutRecords

  ghost predicate Forwards(e: Entry, now: nat) {
    Decide(SUPPRESSION, e, now).0 == Forward
  }

  /** The interval in force, in nanoseconds: min(10 ms * 2^k, 250 ms) after k FORWARD decisions. */
  function Wait(e: Entry): nat {
    Min(10_000 * Power2(e.forwards), 250_000) * NANOSECONDS_PER_US
  }

  /** Whenever the entry is forwarded next, it is that long after its last transmission. */
  ghost predicate Spaced(e: Entry)
    requires e.lastSent.Some?
  {
    forall now: nat | Forwards(e, now) :: now - e.lastSent.value.time >= Wait(e)
  }

  lemma ForwardsIff(e: Entry, now: nat)
    requires Paced(SUPPRESSION, e)
    ensures Forwards(e, now) <==> HasPending(e, now) && now - LastRenewal(e.outRecords) >= Wait(e)
  {
    DecideIsPaced(SUPPRESSION, e, now);
    IntervalDoubles(SUPPRESSION, e.forwards);
  }

  lemma PendingEnds(e: Entry, now: nat, later: nat)
    requires now <= later && HasPending(e, later)
    ensures HasPending(e, now)
  {}

  /** The strategy measures from the latest out-record that is left. That is the last transmission if its
      out-record is left; and the spacing holds exactly if it is, or if nothing will be pending any more
      when the interval has passed since the latest record. */
  lemma SpacedIff(e: Entry, clock: nat)
    requires EntryTrue(e, clock) && Paced(SUPPRESSION, e) && e.outRecords != map[]
    ensures e.lastSent.Some?
    ensures e.lastSent.value.face in e.outRecords ==> LastRenewal(e.outRecords) == e.lastSent.value.time
    ensures Spaced(e) <==>
            || LastRenewal(e.outRecords) == e.lastSent.value.time
            || !HasPending(e, LastRenewal(e.outRecords) + Wait(e))
  {
    hide RecordTrue, Paced, Decide, HasPending, Forwards;
    var last, due := LastRenewal(e.outRecords), LastRenewal(e.outRecords) + Wait(e);
    ForwardsIff(e, due);
    if last < e.lastSent.value.time && HasPending(e, due) {
      assert Forwards(e, due);
    } else {
      forall now: nat | Forwards(e, now) ensures now - e.lastSent.value.time >= Wait(e) {
        ForwardsIff(e, now);
        if !HasPending(e, due) && now >= due { PendingEnds(e, due, now); }
      }
    }
  }

  /** In every run, the k-th FORWARD of an entry is decided iff something is pending and min(10 ms * 2^(k-1),
      250 ms) have passed since the latest renewal among the out-records left. As long as the out-record
      of the last transmission has not been deleted, that is since the last transmission. */
  lemma RetransmissionsAreSpaced(dnlLifetime: nat, events: seq<Event>, k: Key, now: nat)
    requires IsRun(Initial(dnlLifetime), events) && Timely(events) && k in After(Initial(dnlLifetime), events).pit
    ensures var e := After(Initial(dnlLifetime), events).pit[k];
            && (Forwards(e, now) <==> HasPending(e, now) && now - LastRenewal(e.outRecords) >= Wait(e))
            && (e.outRecords != map[] ==>
                  && e.lastSent.Some?
                  && (Spaced(e) <==>
                      || LastRenewal(e.outRecords) == e.lastSent.value.time
                      || !HasPending(e, LastRenewal(e.outRecords) + Wait(e)))
                  && (e.lastSent.value.face in e.outRecords ==>
                        && Spaced(e)
                        && (Forwards(e, now) <==> HasPending(e, now) && now - e.lastSent.value.time >= Wait(e))))
  {
    hide IsRun, Forwards, HasPending, Paced, EntryTrue, Spaced;
    RunsAreGood(dnlLifetime, events);
    RecordsAreTrue(dnlLifetime, events, k);
    var e := After(Initial(dnlLifetime), events).pit[k];
    ForwardsIff(e, now);
    if e.outRecords != map[] { SpacedIff(e, Clock(events)); }
  }
}
