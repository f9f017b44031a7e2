/** Faces, packets and the Pending Interest Table entry. */
module Pit {
  import opened Sequence64

  type Name = seq<string>

  const LOCALHOST: Name := ["localhost"]
  const LOCALHOP: Name := ["localhop"]

  datatype Scope = Local | NonLocal
  datatype LinkType = PointToPoint | MultiAccess | AdHoc

  /** A face object. Records refer to the object; its ID is in the face table and may become invalid. */
  datatype Face = Face(handle: nat, scope: Scope, linkType: LinkType)

  type FaceIds = map<Face, nat>

  const INVALID_FACEID := 0

  function IdOf(ids: FaceIds, face: Face): nat {
    if face in ids then ids[face] else INVALID_FACEID
  }

  /** The NextHopFaceId tag of an Interest, and what the face table has for it. */
  datatype NextHop = Untagged | NoSuchFace | Chosen(face: Face)

  /** Lifetimes and freshness periods are in milliseconds. */
  datatype Interest = Interest(name: Name, canBePrefix: bool, mustBeFresh: bool, nonce: nat,
                               lifetime: nat, hopLimit: Option<nat>, nextHop: NextHop)
  datatype Data = Data(name: Name, freshness: nat)
  datatype Reason = Unspecified | Congestion | Duplicate | NoRoute

  /** Times are readings of the steady clock, in nanoseconds. */
  const NANOSECONDS_PER_MS := 1_000_000
  const NANOSECONDS_PER_US := 1_000
  const MAX_LIFETIME := 864_000_000

  datatype InRecord = InRecord(nonce: nat, lastRenewed: nat, expiry: nat)

  /** What has happened to an out-record: an Interest was sent, or a Nack was accepted. */
  datatype Exchange = Asked(nonce: nat) | Refused(reason: Reason)

  /** `history` is not kept by the program; it records what the other fields are about. */
  datatype OutRecord = OutRecord(nonce: nat, lastRenewed: nat, expiry: nat, nack: Option<Reason>, history: seq<Exchange>)

  /** What two Interests must agree on to share an entry. */
  datatype Key = Key(name: Name, canBePrefix: bool, mustBeFresh: bool)

  /** An Interest was sent to a face at a time. */
  datatype Transmission = Transmission(face: Face, time: nat)

  /** `interval` is the suppression interval in microseconds, once the strategy has stored one. Not kept
      by the program: `forwards` counts the FORWARD decisions taken for the entry, and `lastSent` is the
      last transmission of its Interest, whether or not an out-record still tells. */
  datatype Entry = Entry(inRecords: map<Face, InRecord>, outRecords: map<Face, OutRecord>,
                         timer: Option<nat>, isSatisfied: bool, freshness: nat,
                         interval: Option<nat>, forwards: nat, lastSent: Option<Transmission>)

  const NEW_ENTRY := Entry(map[], map[], None, false, 0, None, 0, None)

  function KeyOf(i: Interest): Key {
    Key(i.name, i.canBePrefix, i.mustBeFresh)
  }

  function Min(a: nat, b: nat): nat {
    if a <= b then a else b
  }

  function ExpiryOf(i: Interest, now: nat): nat {
    now + Min(i.lifetime, MAX_LIFETIME) * NANOSECONDS_PER_MS
  }

  function WithInRecord(e: Entry, face: Face, i: Interest, now: nat): Entry {
    e.(inRecords := e.inRecords[face := InRecord(i.nonce, now, ExpiryOf(i, now))])
  }

  function HistoryOf(e: Entry, face: Face): seq<Exchange> {
    if face in e.outRecords then e.outRecords[face].history else []
  }

  /** Renewing an out-record keeps the Nack recorded on it. */
  function WithOutRecord(e: Entry, face: Face, i: Interest, now: nat): Entry {
    var nack := if face in e.outRecords then e.outRecords[face].nack else None;
    var r := OutRecord(i.nonce, now, ExpiryOf(i, now), nack, HistoryOf(e, face) + [Asked(i.nonce)]);
    e.(outRecords := e.outRecords[face := r], lastSent := Some(Transmission(face, now)))
  }

  /** setIncomingNack. */
  function WithNack(e: Entry, face: Face, reason: Reason): Entry
    requires face in e.outRecords
  {
    var r := e.outRecords[face];
    e.(outRecords := e.outRecords[face := r.(nack := Some(reason), history := r.history + [Refused(reason)])])
  }

  // ---- maxima over the records ----

  ghost predicate IsMax(s: set<nat>, m: nat) {
    m in s && forall x | x in s :: x <= m
  }

  lemma {:induction false} MaxExists(s: set<nat>) returns (m: nat)
    requires s != {}
    ensures IsMax(s, m)
    decreases |s|
  {
    m :| m in s;
    if s != {m} {
      var n := MaxExists(s - {m});
      assert s == {m} + (s - {m});
      m := if m <= n then n else m;
    }
  }

  ghost function Max(s: set<nat>): (m: nat)
    requires s != {}
    ensures IsMax(s, m)
  {
    assert exists m :: IsMax(s, m) by {
      var m := MaxExists(s);
    }
    var m :| IsMax(s, m);
    m
  }

  ghost function LastExpiry(records: map<Face, InRecord>): (t: nat)
    requires records != map[]
    ensures exists f :: f in records && records[f].expiry == t
    ensures forall f | f in records :: records[f].expiry <= t
  {
    var f :| f in records;
    var times := set f | f in records :: records[f].expiry;
    assert forall g | g in records :: records[g].expiry in times;
    Max(times)
  }

  ghost function LastRenewal(records: map<Face, OutRecord>): (t: nat)
    requires records != map[]
    ensures exists f :: f in records && records[f].lastRenewed == t
    ensures forall f | f in records :: records[f].lastRenewed <= t
  {
    var f :| f in records;
    var times := set f | f in records :: records[f].lastRenewed;
    assert forall g | g in records :: records[g].lastRenewed in times;
    Max(times)
  }

  /** The in-record that expires last. */
  method LastExpiring(records: map<Face, InRecord>) returns (t: nat)
    requires records != map[]
    ensures t == LastExpiry(records)
  {
    var todo := records.Keys;
    var f :| f in todo;
    t := records[f].expiry;
    todo := todo - {f};
    while todo != {}
      invariant todo <= records.Keys
      invariant exists g :: g in records && records[g].expiry == t
      invariant forall g | g in records.Keys - todo :: records[g].expiry <= t
      decreases |todo|
    {
      var g :| g in todo;
      if t < records[g].expiry { t := records[g].expiry; }
      todo := todo - {g};
    }
  }

  /** getLastOutgoing: when the entry was last transmitted, by the out-records it still has. */
  method LastOutgoing(records: map<Face, OutRecord>) returns (t: nat)
    requires records != map[]
    ensures t == LastRenewal(records)
  {
    var todo := records.Keys;
    var f :| f in todo;
    t := records[f].lastRenewed;
    todo := todo - {f};
    while todo != {}
      invariant todo <= records.Keys
      invariant exists g :: g in records && records[g].lastRenewed == t
      invariant forall g | g in records.Keys - todo :: records[g].lastRenewed <= t
      decreases |todo|
    {
      var g :| g in todo;
      if t < records[g].lastRenewed { t := records[g].lastRenewed; }
      todo := todo - {g};
    }
  }

  // ---- duplicate Nonces ----

  /** Where an entry already has a Nonce, relative to a face: the bits of DuplicateNonceWhere. */
  datatype Where = Where(inSame: bool, inOther: bool, outSame: bool, outOther: bool)

  ghost predicate NonceIsAt(e: Entry, nonce: nat, face: Face, w: Where) {
    && (w.inSame <==> face in e.inRecords && e.inRecords[face].nonce == nonce)
    && (w.inOther <==> exists f :: f in e.inRecords && f != face && e.inRecords[f].nonce == nonce)
    && (w.outSame <==> face in e.outRecords && e.outRecords[face].nonce == nonce)
    && (w.outOther <==> exists f :: f in e.outRecords && f != face && e.outRecords[f].nonce == nonce)
  }

  method FindDuplicateNonce(e: Entry, nonce: nat, face: Face) returns (w: Where)
    ensures NonceIsAt(e, nonce, face, w)
  {
    w := Where(false, false, false, false);
    var todo := e.inRecords.Keys;
    while todo != {}
      invariant todo <= e.inRecords.Keys && !w.outSame && !w.outOther
      invariant w.inSame <==> face in e.inRecords.Keys - todo && e.inRecords[face].nonce == nonce
      invariant w.inOther <==>
                exists f :: f in e.inRecords.Keys - todo && f != face && e.inRecords[f].nonce == nonce
      decreases |todo|
    {
      var g :| g in todo;
      if e.inRecords[g].nonce == nonce {
        if g == face { w := w.(inSame := true); } else { w := w.(inOther := true); }
      }
      todo := todo - {g};
    }
    todo := e.outRecords.Keys;
    while todo != {}
      invariant todo <= e.outRecords.Keys
      invariant w.inSame <==> face in e.inRecords && e.inRecords[face].nonce == nonce
      invariant w.inOther <==> exists f :: f in e.inRecords && f != face && e.inRecords[f].nonce == nonce
      invariant w.outSame <==> face in e.outRecords.Keys - todo && e.outRecords[face].nonce == nonce
      invariant w.outOther <==>
                exists f :: f in e.outRecords.Keys - todo && f != face && e.outRecords[f].nonce == nonce
      decreases |todo|
    {
      var g :| g in todo;
      if e.outRecords[g].nonce == nonce {
        if g == face { w := w.(outSame := true); } else { w := w.(outOther := true); }
      }
      todo := todo - {g};
    }
  }

  /** Whether an Interest arriving on the face is a looping one: on a point-to-point face, a Nonce
      already received from that face is a retransmission rather than a loop. */
  ghost predicate IsLoop(e: Entry, nonce: nat, face: Face) {
    var inSame := face in e.inRecords && e.inRecords[face].nonce == nonce;
    var elsewhere :=
      || (exists f :: f in e.inRecords && f != face && e.inRecords[f].nonce == nonce)
      || (exists f :: f in e.outRecords && e.outRecords[f].nonce == nonce);
    if face.linkType.PointToPoint? then elsewhere && !inSame else elsewhere || inSame
  }

  /** An entry just inserted never takes the duplicate-Nonce exit. */
  lemma NewEntryHasNoLoop(nonce: nat, face: Face)
    ensures !IsLoop(NEW_ENTRY, nonce, face)
  {}
}
