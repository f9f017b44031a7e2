/** Best-route strategy: which next hop an Interest is sent to. */
module BestRoute {
  import opened Sequence64
  import opened Pit
  import opened RetxSuppression

  /** The suppression the strategy is configured with: 10 ms, doubling, up to 250 ms. */
  const SUPPRESSION := Params(10_000, 2.0, 250_000)

  predicate WouldViolateScope(inFace: Face, name: Name, outFace: Face) {
    && outFace.scope.NonLocal?
    && (LOCALHOST <= name || (LOCALHOP <= name && inFace.scope.NonLocal?))
  }

  /** Not back to the same face unless it is ad hoc, and within scope. */
  predicate IsEligible(ids: FaceIds, inFace: Face, name: Name, outFace: Face) {
    && !(IdOf(ids, outFace) == IdOf(ids, inFace) && !outFace.linkType.AdHoc?)
    && !WouldViolateScope(inFace, name, outFace)
  }

  predicate IsUnused(e: Entry, outFace: Face, now: nat) {
    !(outFace in e.outRecords && e.outRecords[outFace].expiry > now)
  }

  // ---- what is chosen ----

  ghost function EligibleOf(ids: FaceIds, inFace: Face, name: Name, nexthops: seq<Face>): seq<Face> {
    if nexthops == [] then []
    else
      var rest := EligibleOf(ids, inFace, name, nexthops[..|nexthops| - 1]);
      var last := nexthops[|nexthops| - 1];
      if IsEligible(ids, inFace, name, last) then rest + [last] else rest
  }

  ghost function First(s: seq<Face>): Option<Face> {
    if s == [] then None else Some(s[0])
  }

  ghost function FirstUnused(e: Entry, s: seq<Face>, now: nat): (r: Option<Face>)
    ensures r.None? ==> forall f | f in s :: !IsUnused(e, f, now)
  {
    if s == [] then None
    else
      var r := FirstUnused(e, s[..|s| - 1], now);
      var last := s[|s| - 1];
      if r.Some? then r else if IsUnused(e, last, now) then Some(last) else None
  }

  /** The first of the faces whose out-record is the oldest. */
  ghost function Earliest(e: Entry, s: seq<Face>): (r: Option<Face>)
    requires forall f | f in s :: f in e.outRecords
    ensures r.None? <==> s == []
    ensures r.Some? ==> r.value in s
  {
    if s == [] then None
    else
      var r := Earliest(e, s[..|s| - 1]);
      var last := s[|s| - 1];
      if r.None? || e.outRecords[last].lastRenewed < e.outRecords[r.value].lastRenewed then Some(last) else r
  }

  /** The next hop for a decision other than SUPPRESS. That every eligible next hop has an out-record
      when none is unused is what makes the search for the oldest one legal. */
  ghost function Choice(d: Decision, e: Entry, eligible: seq<Face>, now: nat): Option<Face> {
    if d == New then First(eligible)
    else
      var unused := FirstUnused(e, eligible, now);
      if unused.Some? then unused else Earliest(e, eligible)
  }

  // ---- the searches ----

  lemma EligibleSnoc(ids: FaceIds, inFace: Face, name: Name, nexthops: seq<Face>, i: nat)
    requires i < |nexthops|
    ensures var rest := EligibleOf(ids, inFace, name, nexthops[..i]);
            EligibleOf(ids, inFace, name, nexthops[..i + 1]) ==
            if IsEligible(ids, inFace, name, nexthops[i]) then rest + [nexthops[i]] else rest
  {
    assert nexthops[..i + 1][..i] == nexthops[..i];
  }

  lemma {:induction false} EligibleMonotone(ids: FaceIds, inFace: Face, name: Name, nexthops: seq<Face>, i: nat)
    requires i <= |nexthops|
    ensures EligibleOf(ids, inFace, name, nexthops[..i]) <= EligibleOf(ids, inFace, name, nexthops)
    decreases |nexthops| - i
  {
    if i < |nexthops| {
      EligibleSnoc(ids, inFace, name, nexthops, i);
      EligibleMonotone(ids, inFace, name, nexthops, i + 1);
    } else {
      assert nexthops[..i] == nexthops;
    }
  }

  lemma {:induction false} FirstUnusedExtends(e: Entry, s: seq<Face>, t: seq<Face>, now: nat)
    requires s <= t && FirstUnused(e, s, now).Some?
    ensures FirstUnused(e, t, now) == FirstUnused(e, s, now)
  {
    if s != t {
      FirstUnusedExtends(e, s, t[..|t| - 1], now);
    } else {
      assert s == t;
    }
  }

  /** The lowest-cost eligible next hop. */
  method FindEligible(ids: FaceIds, inFace: Face, name: Name, nexthops: seq<Face>) returns (r: Option<Face>)
    ensures r == First(EligibleOf(ids, inFace, name, nexthops))
  {
    for i := 0 to |nexthops|
      invariant EligibleOf(ids, inFace, name, nexthops[..i]) == []
    {
      EligibleSnoc(ids, inFace, name, nexthops, i);
      if IsEligible(ids, inFace, name, nexthops[i]) {
        EligibleMonotone(ids, inFace, name, nexthops, i + 1);
        return Some(nexthops[i]);
      }
    }
    assert nexthops[..|nexthops|] == nexthops;
    return None;
  }

  /** The lowest-cost eligible next hop without an unexpired out-record. */
  method FindUnused(ids: FaceIds, inFace: Face, name: Name, nexthops: seq<Face>, e: Entry, now: nat)
    returns (r: Option<Face>)
    ensures r == FirstUnused(e, EligibleOf(ids, inFace, name, nexthops), now)
  {
    for i := 0 to |nexthops|
      invariant FirstUnused(e, EligibleOf(ids, inFace, name, nexthops[..i]), now).None?
    {
      EligibleSnoc(ids, inFace, name, nexthops, i);
      if IsEligible(ids, inFace, name, nexthops[i]) {
        ghost var rest := EligibleOf(ids, inFace, name, nexthops[..i]);
        assert (rest + [nexthops[i]])[..|rest|] == rest;
        if IsUnused(e, nexthops[i], now) {
          EligibleMonotone(ids, inFace, name, nexthops, i + 1);
          FirstUnusedExtends(e, rest + [nexthops[i]], EligibleOf(ids, inFace, name, nexthops), now);
          return Some(nexthops[i]);
        }
      }
    }
    assert nexthops[..|nexthops|] == nexthops;
    return None;
  }

  /** findEligibleNextHopWithEarliestOutRecord. */
  method FindEarliest(ids: FaceIds, inFace: Face, name: Name, nexthops: seq<Face>, e: Entry)
    returns (r: Option<Face>)
    requires forall f | f in EligibleOf(ids, inFace, name, nexthops) :: f in e.outRecords
    ensures r == Earliest(e, EligibleOf(ids, inFace, name, nexthops))
  {
    hide IsEligible, EligibleOf, Earliest;
    r := None;
    ghost var all := EligibleOf(ids, inFace, name, nexthops);
    NoneEligibleYet(ids, inFace, name, e);
    assert nexthops[..0] == [];
    for i := 0 to |nexthops|
      invariant EligibleOf(ids, inFace, name, nexthops[..i]) <= all
      invariant r == Earliest(e, EligibleOf(ids, inFace, name, nexthops[..i]))
    {
      EligibleSnoc(ids, inFace, name, nexthops, i);
      EligibleMonotone(ids, inFace, name, nexthops, i + 1);
      if IsEligible(ids, inFace, name, nexthops[i]) {
        ghost var rest := EligibleOf(ids, inFace, name, nexthops[..i]);
        assert nexthops[i] in rest + [nexthops[i]] && rest + [nexthops[i]] <= all;
        EarliestSnoc(e, rest, nexthops[i]);
        if r.None? || e.outRecords[nexthops[i]].lastRenewed < e.outRecords[r.value].lastRenewed {
          r := Some(nexthops[i]);
        }
      }
    }
    assert nexthops[..|nexthops|] == nexthops;
  }

  lemma NoneEligibleYet(ids: FaceIds, inFace: Face, name: Name, e: Entry)
    ensures EligibleOf(ids, inFace, name, []) == [] && Earliest(e, []) == None
  {}

  lemma EarliestSnoc(e: Entry, s: seq<Face>, f: Face)
    requires forall g | g in s + [f] :: g in e.outRecords
    ensures f in e.outRecords && forall g | g in s :: g in e.outRecords
    ensures var r := Earliest(e, s);
            Earliest(e, s + [f]) ==
            if r.None? || e.outRecords[f].lastRenewed < e.outRecords[r.value].lastRenewed then Some(f) else r
  {
    assert f in s + [f] && forall g | g in s :: g in s + [f];
    assert (s + [f])[..|s|] == s;
  }

  /** The next hop chosen for an Interest that is not suppressed. */
  method ChooseNextHop(d: Decision, ids: FaceIds, inFace: Face, name: Name, nexthops: seq<Face>,
                       e: Entry, now: nat)
    returns (r: Option<Face>)
    ensures r == Choice(d, e, EligibleOf(ids, inFace, name, nexthops), now)
  {
    if d == New {
      r := FindEligible(ids, inFace, name, nexthops);
      return;
    }
    r := FindUnused(ids, inFace, name, nexthops, e, now);
    if r.None? {
      r := FindEarliest(ids, inFace, name, nexthops, e);
    }
  }

  /** The choice is an eligible next hop; and there is one unless no next hop is eligible. */
  lemma ChoiceIsEligible(d: Decision, ids: FaceIds, inFace: Face, name: Name, nexthops: seq<Face>,
                         e: Entry, now: nat)
    ensures var r := Choice(d, e, EligibleOf(ids, inFace, name, nexthops), now);
            && (r.None? <==> forall f | f in nexthops :: !IsEligible(ids, inFace, name, f))
            && (r.Some? ==> r.value in nexthops && IsEligible(ids, inFace, name, r.value))
  {
    EligibleMembers(ids, inFace, name, nexthops);
    var s := EligibleOf(ids, inFace, name, nexthops);
    if d != New && FirstUnused(e, s, now).Some? { FirstUnusedIsMember(e, s, now); }
    if s != [] { assert s[0] in s; }
  }

  lemma {:induction false} EligibleMembers(ids: FaceIds, inFace: Face, name: Name, nexthops: seq<Face>)
    ensures forall f :: f in EligibleOf(ids, inFace, name, nexthops) <==>
                        f in nexthops && IsEligible(ids, inFace, name, f)
  {
    if nexthops != [] {
      var n := |nexthops| - 1;
      EligibleMembers(ids, inFace, name, nexthops[..n]);
      assert nexthops == nexthops[..n] + [nexthops[n]];
    }
  }

  lemma {:induction false} FirstUnusedIsMember(e: Entry, s: seq<Face>, now: nat)
    requires FirstUnused(e, s, now).Some?
    ensures FirstUnused(e, s, now).value in s
  {
    if FirstUnused(e, s[..|s| - 1], now).Some? { FirstUnusedIsMember(e, s[..|s| - 1], now); }
  }
}
