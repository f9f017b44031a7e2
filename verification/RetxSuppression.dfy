/** RetxSuppressionExponential: when a retransmitted Interest may be forwarded again. */
module RetxSuppression {
  import opened Sequence64
  import opened Pit

  /** Intervals are in microseconds. */
  datatype Params = Params(initial: nat, multiplier: real, max: nat)

  datatype Decision = New | Forward | Suppress

  predicate ValidParams(p: Params) {
    p.initial > 0 && p.multiplier >= 1.0 && p.max >= p.initial
  }

  ghost predicate HasPending(e: Entry, now: nat) {
    exists f :: f in e.outRecords && e.outRecords[f].expiry >= now && e.outRecords[f].nack.None?
  }

  method HasPendingOutRecords(e: Entry, now: nat) returns (pending: bool)
    ensures pending <==> HasPending(e, now)
  {
    var todo := e.outRecords.Keys;
    while todo != {}
      invariant todo <= e.outRecords.Keys
      invariant forall f | f in e.outRecords.Keys - todo ::
                  !(e.outRecords[f].expiry >= now && e.outRecords[f].nack.None?)
      decreases |todo|
    {
      var g :| g in todo;
      if e.outRecords[g].expiry >= now && e.outRecords[g].nack.None? { return true; }
      todo := todo - {g};
    }
    return false;
  }

  /** The interval after a FORWARD decision: multiplied, truncated, and capped. */
  function Grown(p: Params, interval: nat): (r: nat)
    requires ValidParams(p)
    ensures r <= p.max
    ensures interval <= p.max ==> interval <= r
  {
    GrowthIsUpward(p.multiplier, interval);
    Min(p.max, (interval as real * p.multiplier).Floor)
  }

  lemma GrowthIsUpward(m: real, interval: nat)
    requires m >= 1.0
    ensures (interval as real * m).Floor >= interval
  {
    assert interval as real * m == interval as real + interval as real * (m - 1.0);
    assert interval as real * (m - 1.0) >= 0.0;
  }

  ghost function Decide(p: Params, e: Entry, now: nat): (Decision, Entry)
    requires ValidParams(p)
  {
    if !HasPending(e, now) then (New, e)
    else
      var interval := if e.interval.Some? then e.interval.value else p.initial;
      if now - LastRenewal(e.outRecords) < interval * NANOSECONDS_PER_US
      then (Suppress, e.(interval := Some(interval)))
      else (Forward, e.(interval := Some(Grown(p, interval)), forwards := e.forwards + 1))
  }

  /** decidePerPitEntry, with the entry it leaves behind. */
  method DecidePerPitEntry(p: Params, e: Entry, now: nat) returns (d: Decision, after: Entry)
    requires ValidParams(p)
    ensures (d, after) == Decide(p, e, now)
  {
    var pending := HasPendingOutRecords(e, now);
    if !pending { return New, e; }
    var last := LastOutgoing(e.outRecords);
    var interval := if e.interval.Some? then e.interval.value else p.initial;
    if now - last < interval * NANOSECONDS_PER_US {
      return Suppress, e.(interval := Some(interval));
    }
    return Forward, e.(interval := Some(Grown(p, interval)), forwards := e.forwards + 1);
  }

  // ---- the interval over an entry's life ----

  /** The interval in force after k FORWARD decisions. */
  function IntervalAfter(p: Params, k: nat): (r: nat)
    requires ValidParams(p)
    ensures p.initial <= r <= p.max
  {
    if k == 0 then p.initial else Grown(p, IntervalAfter(p, k - 1))
  }

  function Power2(k: nat): nat {
    if k == 0 then 1 else 2 * Power2(k - 1)
  }

  lemma {:induction false} IntervalNeverDecreases(p: Params, j: nat, k: nat)
    requires ValidParams(p) && j <= k
    ensures IntervalAfter(p, j) <= IntervalAfter(p, k)
  {
    if j < k { IntervalNeverDecreases(p, j, k - 1); }
  }

  /** With the default multiplier the interval doubles until it reaches the maximum. */
  lemma {:induction false} IntervalDoubles(p: Params, k: nat)
    requires ValidParams(p) && p.multiplier == 2.0
    ensures IntervalAfter(p, k) == Min(p.initial * Power2(k), p.max)
  {
    hide Grown, Power2;
    if k == 0 {
      PowerStep(p.initial, 0);
    } else {
      IntervalDoubles(p, k - 1);
      GrownDoubles(p, IntervalAfter(p, k - 1));
      PowerStep(p.initial, k);
    }
  }

  lemma GrownDoubles(p: Params, interval: nat)
    requires ValidParams(p) && p.multiplier == 2.0
    ensures Grown(p, interval) == Min(p.max, 2 * interval)
  {
    assert interval as real * 2.0 == (2 * interval) as real;
  }

  lemma PowerStep(a: nat, k: nat)
    ensures a * Power2(k) == if k == 0 then a else 2 * (a * Power2(k - 1))
  {}

  /** The stored interval is the one its decisions call for. */
  ghost predicate Paced(p: Params, e: Entry)
    requires ValidParams(p)
  {
    match e.interval
    case None => e.forwards == 0
    case Some(i) => i == IntervalAfter(p, e.forwards)
  }

  /** The (forwards + 1)-th FORWARD decision waits for the interval in force since the latest renewal among
      the out-records the entry has; with the default multiplier that is min(initial * 2^forwards, max).
      Whether the entry is forwarded, suppressed or new, the stored interval stays in step. */
  lemma DecideIsPaced(p: Params, e: Entry, now: nat)
    requires ValidParams(p) && Paced(p, e)
    ensures Paced(p, Decide(p, e, now).1)
    ensures Decide(p, e, now).0 == New <==> !HasPending(e, now)
    ensures Decide(p, e, now).0 == Forward <==>
            && HasPending(e, now)
            && now - LastRenewal(e.outRecords) >= IntervalAfter(p, e.forwards) * NANOSECONDS_PER_US
    ensures Decide(p, e, now).0 == Forward && p.multiplier == 2.0 ==>
            now - LastRenewal(e.outRecords)
              >= Min(p.initial * Power2(e.forwards), p.max) * NANOSECONDS_PER_US
    ensures Decide(p, e, now).0 == Forward ==> now > LastRenewal(e.outRecords)
    ensures Decide(p, e, now).1.forwards == e.forwards + (if Decide(p, e, now).0 == Forward then 1 else 0)
  {
    if p.multiplier == 2.0 { IntervalDoubles(p, e.forwards); }
  }
}
