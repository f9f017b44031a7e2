/** The Interests sent, seen from one face, from one entry, and from one entry on one face. */
module InterestLog {
  import opened Sequence64
  import opened Pit
  import opened Forwarding

  /** The Interests among the packets of a face. */
  function InterestsIn(packets: seq<Packet>): seq<Packet> {
    if packets == [] then []
    else
      var last := packets[|packets| - 1];
      InterestsIn(packets[..|packets| - 1]) + (if last.SentInterest? then [last] else [])
  }

  /** The Interests sent to a face, as the packets they are. */
  function PacketsTo(interests: seq<Asking>, f: Face): seq<Packet> {
    if interests == [] then []
    else
      var last := interests[|interests| - 1];
      PacketsTo(interests[..|interests| - 1], f) +
      (if last.face == f then [SentInterest(last.key.name, last.nonce, last.tagged)] else [])
  }

  /** The faces the Interest of entry k was sent to, in order. */
  function Transmissions(interests: seq<Asking>, k: Key): seq<Face> {
    if interests == [] then []
    else
      var last := interests[|interests| - 1];
      Transmissions(interests[..|interests| - 1], k) + (if last.key == k then [last.face] else [])
  }

  /** The Nonces of the Interests of entry k sent to face f, in order. */
  function NoncesTo(interests: seq<Asking>, k: Key, f: Face): seq<nat> {
    if interests == [] then []
    else
      var last := interests[|interests| - 1];
      NoncesTo(interests[..|interests| - 1], k, f) + (if last.key == k && last.face == f then [last.nonce] else [])
  }

  lemma InterestsSnoc(packets: seq<Packet>, p: Packet)
    ensures InterestsIn(packets + [p]) == InterestsIn(packets) + (if p.SentInterest? then [p] else [])
  {
    assert (packets + [p])[..|packets|] == packets;
  }

  lemma PacketsSnoc(interests: seq<Asking>, a: Asking, f: Face)
    ensures PacketsTo(interests + [a], f) ==
            PacketsTo(interests, f) + (if a.face == f then [SentInterest(a.key.name, a.nonce, a.tagged)] else [])
  {
    assert (interests + [a])[..|interests|] == interests;
  }

  lemma TransmissionsSnoc(interests: seq<Asking>, k: Key, a: Asking)
    ensures Transmissions(interests + [a], k) == Transmissions(interests, k) + (if a.key == k then [a.face] else [])
  {
    assert (interests + [a])[..|interests|] == interests;
  }

  lemma NoncesSnoc(interests: seq<Asking>, a: Asking, k: Key, f: Face)
    ensures NoncesTo(interests + [a], k, f) ==
            NoncesTo(interests, k, f) + (if a.key == k && a.face == f then [a.nonce] else [])
  {
    assert (interests + [a])[..|interests|] == interests;
  }

  /** No Interest is sent: neither the log nor any face shows one more. */
  ghost predicate NoneSent(st: State, st': State) {
    st'.interests == st.interests && forall f :: InterestsIn(SentTo(st'.sent, f)) == InterestsIn(SentTo(st.sent, f))
  }

  /** One Interest is sent, and the log and its face show it. */
  ghost predicate OneSent(st: State, st': State, a: Asking) {
    && st'.interests == st.interests + [a]
    && forall f :: InterestsIn(SentTo(st'.sent, f)) ==
                   InterestsIn(SentTo(st.sent, f)) +
                   (if f == a.face then [SentInterest(a.key.name, a.nonce, a.tagged)] else [])
  }

  lemma SendOther(st: State, st': State, f: Face, p: Packet)
    requires st'.interests == st.interests && st'.sent == Send(st.sent, f, p) && !p.SentInterest?
    ensures NoneSent(st, st')
  {
    hide InterestsIn;
    InterestsSnoc(SentTo(st.sent, f), p);
    assert InterestsIn(SentTo(st.sent, f)) + [] == InterestsIn(SentTo(st.sent, f));
  }

  lemma SendAllOther(st: State, st': State, packets: map<Face, Packet>)
    requires st'.interests == st.interests && st'.sent == SendAll(st.sent, packets)
    requires forall f | f in packets :: !packets[f].SentInterest?
    ensures NoneSent(st, st')
  {
    hide InterestsIn;
    forall f ensures InterestsIn(SentTo(st'.sent, f)) == InterestsIn(SentTo(st.sent, f)) {
      if f in packets {
        InterestsSnoc(SentTo(st.sent, f), packets[f]);
        assert InterestsIn(SentTo(st.sent, f)) + [] == InterestsIn(SentTo(st.sent, f));
      } else {
        assert SentTo(st.sent, f) + [] == SentTo(st.sent, f);
      }
    }
  }

  lemma SendInterest(st: State, st': State, a: Asking)
    requires st'.interests == st.interests + [a]
    requires st'.sent == Send(st.sent, a.face, SentInterest(a.key.name, a.nonce, a.tagged))
    ensures OneSent(st, st', a)
  {
    hide InterestsIn;
    InterestsSnoc(SentTo(st.sent, a.face), SentInterest(a.key.name, a.nonce, a.tagged));
    forall f | f != a.face ensures InterestsIn(SentTo(st'.sent, f)) == InterestsIn(SentTo(st.sent, f)) + [] {}
  }

  lemma NoneThenOne(st: State, st1: State, st2: State, a: Asking)
    requires NoneSent(st, st1) && OneSent(st1, st2, a)
    ensures OneSent(st, st2, a)
  {
    hide InterestsIn;
  }
}
