/** StreamTransport: cutting a byte stream, received in arbitrary chunks, into TLV elements. */
module StreamTransport {
  import opened Sequence64
  import opened LpPackets

  /** The size of the element at the start of the bytes, or None: Block::fromBuffer. */
  type Parser = seq<Byte> -> Option<nat>

  /** An element that parses from a prefix parses the same from any extension, and is not empty. */
  ghost predicate Stable(parse: Parser) {
    && (forall s :: parse(s).Some? ==> 0 < parse(s).value <= |s|)
    && (forall s, t {:trigger parse(s + t)} :: parse(s).Some? ==> parse(s + t) == parse(s))
  }

  lemma SizeIsWithin(parse: Parser, s: seq<Byte>)
    requires Stable(parse) && parse(s).Some?
    ensures 0 < parse(s).value <= |s|
  {}

  lemma ExtensionParsesTheSame(parse: Parser, s: seq<Byte>, t: seq<Byte>)
    requires Stable(parse) && parse(s).Some?
    ensures parse(s + t) == parse(s)
  {}

  lemma EmptyDoesNotParse(parse: Parser)
    requires Stable(parse)
    ensures parse([]).None?
  {
    if parse([]).Some? { SizeIsWithin(parse, []); }
  }

  // ---- the TLV format is such a parser ----

  /** A number of 1, 3, 5 or 9 octets: its value and how many octets it takes. */
  function ReadVarNumber(s: seq<Byte>): (r: Option<(nat, nat)>)
    ensures r.Some? ==> 0 < r.value.1 <= |s|
  {
    if s == [] then None
    else if s[0] < 253 then Some((s[0], 1))
    else
      var width := if s[0] == 253 then 2 else if s[0] == 254 then 4 else 8;
      if |s| < 1 + width then None else Some((BigEndian(s[1..1 + width]), 1 + width))
  }

  function BigEndian(s: seq<Byte>): nat {
    if s == [] then 0 else BigEndian(s[..|s| - 1]) * 256 + s[|s| - 1]
  }

  /** The range of TLV-TYPE in the NDN Packet Format Specification. */
  const MAX_TLV_TYPE := 0xFFFF_FFFF

  /** TLV-TYPE, TLV-LENGTH, and as many octets of TLV-VALUE as the length says. */
  function ElementSize(s: seq<Byte>): Option<nat> {
    var t := ReadVarNumber(s);
    if t.None? || t.value.0 == 0 || t.value.0 > MAX_TLV_TYPE then None
    else
      var l := ReadVarNumber(s[t.value.1..]);
      if l.None? then None
      else
        var total := t.value.1 + l.value.1 + l.value.0;
        if total > |s| then None else Some(total)
  }

  lemma ReadVarNumberStable(s: seq<Byte>, t: seq<Byte>)
    requires ReadVarNumber(s).Some?
    ensures ReadVarNumber(s + t) == ReadVarNumber(s)
  {
    if s[0] >= 253 {
      var width := if s[0] == 253 then 2 else if s[0] == 254 then 4 else 8;
      assert (s + t)[1..1 + width] == s[1..1 + width];
    }
  }

  lemma TlvIsStable()
    ensures Stable(ElementSize)
  {
    forall s, t | ElementSize(s).Some? ensures ElementSize(s + t) == ElementSize(s) {
      ReadVarNumberStable(s, t);
      var n := ReadVarNumber(s).value.1;
      assert (s + t)[n..] == s[n..] + t;
      ReadVarNumberStable(s[n..], t);
    }
  }

  // ---- the greedy parse of a stream ----

  datatype Parsed = Parsed(elements: seq<seq<Byte>>, rest: seq<Byte>)

  ghost function Greedy(parse: Parser, s: seq<Byte>): (r: Parsed)
    requires Stable(parse)
    decreases |s|
  {
    if parse(s).None? then Parsed([], s)
    else
      var n := parse(s).value;
      var r := Greedy(parse, s[n..]);
      Parsed([s[..n]] + r.elements, r.rest)
  }

  ghost function Flatten(elements: seq<seq<Byte>>): seq<Byte> {
    if elements == [] then [] else elements[0] + Flatten(elements[1..])
  }

  /** The elements followed by the rest are the stream, and the rest does not start with an element. */
  lemma {:induction false} GreedyPartitions(parse: Parser, s: seq<Byte>)
    requires Stable(parse)
    ensures Flatten(Greedy(parse, s).elements) + Greedy(parse, s).rest == s
    ensures parse(Greedy(parse, s).rest).None?
    decreases |s|
  {
    hide Stable, Flatten, Greedy;
    GreedyUnfold(parse, s);
    if parse(s).None? {
      FlattenCons([], []);
      assert [] + s == s;
    } else {
      var n := parse(s).value;
      GreedyPartitions(parse, s[n..]);
      var r := Greedy(parse, s[n..]);
      FlattenCons(s[..n], r.elements);
      Reassociate(s[..n], Flatten(r.elements), r.rest, s);
    }
  }

  lemma GreedyUnfold(parse: Parser, s: seq<Byte>)
    requires Stable(parse)
    ensures parse(s).None? ==> Greedy(parse, s) == Parsed([], s)
    ensures parse(s).Some? ==>
              && 0 < parse(s).value <= |s|
              && var r := Greedy(parse, s[parse(s).value..]);
                 Greedy(parse, s) == Parsed([s[..parse(s).value]] + r.elements, r.rest)
  {
    hide Stable;
    if parse(s).Some? { SizeIsWithin(parse, s); }
  }

  lemma Reassociate(a: seq<Byte>, b: seq<Byte>, c: seq<Byte>, s: seq<Byte>)
    requires |a| <= |s| && a == s[..|a|] && b + c == s[|a|..]
    ensures (a + b) + c == s
  {
    assert (a + b) + c == a + (b + c);
  }

  lemma FlattenCons(e: seq<Byte>, es: seq<seq<Byte>>)
    ensures Flatten([e] + es) == e + Flatten(es) && Flatten([]) == []
  {
    assert ([e] + es)[1..] == es;
  }

  /** Parsing may be interrupted anywhere and resumed from the unparsed rest. */
  lemma {:induction false} GreedyResumes(parse: Parser, s: seq<Byte>, t: seq<Byte>)
    requires Stable(parse)
    ensures var g := Greedy(parse, s); var h := Greedy(parse, g.rest + t);
            Greedy(parse, s + t) == Parsed(g.elements + h.elements, h.rest)
    decreases |s|
  {
    hide Stable;
    if parse(s).Some? {
      SizeIsWithin(parse, s);
      ExtensionParsesTheSame(parse, s, t);
      var n := parse(s).value;
      assert (s + t)[n..] == s[n..] + t && (s + t)[..n] == s[..n];
      GreedyResumes(parse, s[n..], t);
      var g := Greedy(parse, s[n..]);
      var h := Greedy(parse, g.rest + t);
      assert [s[..n]] + (g.elements + h.elements) == ([s[..n]] + g.elements) + h.elements;
    } else {
      var h := Greedy(parse, s + t);
      assert [] + h.elements == h.elements;
    }
  }

  /** Moving one element from the unparsed bytes to the delivered elements. */
  lemma GreedyStep(parse: Parser, rest: seq<Byte>, elements: seq<seq<Byte>>, g: Parsed)
    requires Stable(parse) && parse(rest).Some?
    requires g == Parsed(elements + Greedy(parse, rest).elements, Greedy(parse, rest).rest)
    ensures 0 < parse(rest).value <= |rest|
    ensures var h := Greedy(parse, rest[parse(rest).value..]);
            g == Parsed((elements + [rest[..parse(rest).value]]) + h.elements, h.rest)
  {
    hide Stable;
    SizeIsWithin(parse, rest);
    var n := parse(rest).value;
    var h := Greedy(parse, rest[n..]);
    assert elements + ([rest[..n]] + h.elements) == (elements + [rest[..n]]) + h.elements;
  }

  // ---- the transport ----

  datatype Stream = Stream(buffer: seq<Byte>, delivered: seq<seq<Byte>>, failed: bool)

  const IDLE_STREAM := Stream([], [], false)

  /** handleReceive for a chunk placed after the buffered bytes. */
  ghost function Receive(parse: Parser, st: Stream, chunk: seq<Byte>): Stream
    requires Stable(parse)
  {
    var bytes := st.buffer + chunk;
    var g := Greedy(parse, bytes);
    if g.elements == [] && |bytes| == MAX_NDN_PACKET_SIZE then st.(buffer := bytes, failed := true)
    else Stream(g.rest, st.delivered + g.elements, false)
  }

  /** Reads the socket may complete: at most the free part of the buffer, and none after a failure. */
  ghost predicate ValidReads(parse: Parser, chunks: seq<seq<Byte>>)
    requires Stable(parse)
  {
    chunks != [] ==>
      var before := chunks[..|chunks| - 1];
      && ValidReads(parse, before)
      && !ReceiveAll(parse, before).failed
      && |ReceiveAll(parse, before).buffer| + |chunks[|chunks| - 1]| <= MAX_NDN_PACKET_SIZE
  }

  ghost function ReceiveAll(parse: Parser, chunks: seq<seq<Byte>>): Stream
    requires Stable(parse)
  {
    if chunks == [] then IDLE_STREAM
    else Receive(parse, ReceiveAll(parse, chunks[..|chunks| - 1]), chunks[|chunks| - 1])
  }

  lemma {:induction false} FlattenSnoc(chunks: seq<seq<Byte>>, c: seq<Byte>)
    ensures Flatten(chunks + [c]) == Flatten(chunks) + c
  {
    if chunks == [] {
      assert chunks + [c] == [c];
    } else {
      assert (chunks + [c])[1..] == chunks[1..] + [c];
      FlattenSnoc(chunks[1..], c);
    }
  }

  /** Framing does not depend on chunking: whatever the reads were, the elements delivered are the
      greedy parse of all bytes received, the buffer is its rest, and the transport has failed exactly
      if that rest fills the buffer. Otherwise the next read has room. */
  lemma {:induction false} FramingIgnoresChunking(parse: Parser, chunks: seq<seq<Byte>>)
    requires Stable(parse) && ValidReads(parse, chunks)
    ensures var st := ReceiveAll(parse, chunks); var g := Greedy(parse, Flatten(chunks));
            && st.delivered == g.elements && st.buffer == g.rest
            && (st.failed <==> |g.rest| == MAX_NDN_PACKET_SIZE)
            && |st.buffer| <= MAX_NDN_PACKET_SIZE
            && Flatten(st.delivered) + st.buffer == Flatten(chunks)
  {
    hide Stable;
    EmptyDoesNotParse(parse);
    GreedyPartitions(parse, Flatten(chunks));
    if chunks != [] {
      var before, chunk := chunks[..|chunks| - 1], chunks[|chunks| - 1];
      FramingIgnoresChunking(parse, before);
      assert chunks == before + [chunk];
      FlattenSnoc(before, chunk);
      GreedyResumes(parse, Flatten(before), chunk);
      var st := ReceiveAll(parse, before);
      var g := Greedy(parse, st.buffer + chunk);
      GreedyPartitions(parse, st.buffer + chunk);
      if g.elements == [] {
        assert Flatten(g.elements) + g.rest == g.rest;
        assert st.delivered + [] == st.delivered;
      } else {
        RestIsShorter(parse, st.buffer + chunk);
      }
    }
  }

  lemma RestIsShorter(parse: Parser, s: seq<Byte>)
    requires Stable(parse)
    ensures |Greedy(parse, s).rest| <= |s|
    ensures Greedy(parse, s).elements != [] ==> |Greedy(parse, s).rest| < |s|
    decreases |s|
  {
    if parse(s).Some? { RestIsShorter(parse, s[parse(s).value..]); }
  }

  /** Elements the peer may send: each parses as itself and fits the receive buffer. */
  ghost predicate Sendable(parse: Parser, elements: seq<seq<Byte>>) {
    forall e | e in elements :: parse(e) == Some(|e|) && |e| <= MAX_NDN_PACKET_SIZE
  }

  lemma SendableParts(parse: Parser, es: seq<seq<Byte>>)
    requires es != [] && Sendable(parse, es)
    ensures parse(es[0]) == Some(|es[0]|) && Sendable(parse, es[1..])
  {}

  /** What has arrived of a stream of elements parses to those that are complete, and to nothing else. */
  lemma {:induction false} GreedyOfElements(parse: Parser, es: seq<seq<Byte>>, arrived: seq<Byte>)
    requires Stable(parse) && Sendable(parse, es) && arrived <= Flatten(es)
    ensures var g := Greedy(parse, arrived);
            && g.elements <= es
            && (if g.elements == es then g.rest == [] else |g.rest| < |es[|g.elements|]|)
  {
    hide Stable, Sendable, Flatten;
    EmptyDoesNotParse(parse);
    if es == [] {
      FlattenCons([], []);
    } else {
      var e, rest := es[0], es[1..];
      SendableParts(parse, es);
      assert es == [e] + rest;
      FlattenCons(e, rest);
      if |arrived| < |e| {
        assert arrived == e[..|arrived|];
        IncompleteDoesNotParse(parse, e, |arrived|);
      } else {
        var later := arrived[|e|..];
        assert arrived == e + later && later <= Flatten(rest) by { LaterBytes(e, Flatten(rest), arrived); }
        GreedyOfElements(parse, rest, later);
        GreedyFirst(parse, e, later);
      }
    }
  }

  lemma LaterBytes(e: seq<Byte>, rest: seq<Byte>, arrived: seq<Byte>)
    requires arrived <= e + rest && |e| <= |arrived|
    ensures arrived == e + arrived[|e|..] && arrived[|e|..] <= rest
  {
    assert (e + rest)[|e|..] == rest;
  }

  lemma IncompleteDoesNotParse(parse: Parser, e: seq<Byte>, n: nat)
    requires Stable(parse) && parse(e) == Some(|e|) && n < |e|
    ensures parse(e[..n]).None?
  {
    hide Stable;
    assert e[..n] + e[n..] == e;
    if parse(e[..n]).Some? {
      ExtensionParsesTheSame(parse, e[..n], e[n..]);
      SizeIsWithin(parse, e[..n]);
    }
  }

  lemma GreedyFirst(parse: Parser, e: seq<Byte>, later: seq<Byte>)
    requires Stable(parse) && parse(e) == Some(|e|)
    ensures var g := Greedy(parse, later); Greedy(parse, e + later) == Parsed([e] + g.elements, g.rest)
  {
    hide Stable;
    ExtensionParsesTheSame(parse, e, later);
    SizeIsWithin(parse, e);
    assert (e + later)[|e|..] == later && (e + later)[..|e|] == e;
  }

  /** Whatever the reads, a peer that writes elements of acceptable size is never cut off, what is
      delivered is a prefix of what it wrote, and once all its bytes are in, all of it. */
  lemma ElementsArriveIntact(parse: Parser, es: seq<seq<Byte>>, chunks: seq<seq<Byte>>)
    requires Stable(parse) && Sendable(parse, es) && ValidReads(parse, chunks)
    requires Flatten(chunks) <= Flatten(es)
    ensures var st := ReceiveAll(parse, chunks);
            && !st.failed && st.delivered <= es
            && (Flatten(chunks) == Flatten(es) ==> st.delivered == es && st.buffer == [])
  {
    hide Stable;
    FramingIgnoresChunking(parse, chunks);
    GreedyOfElements(parse, es, Flatten(chunks));
    var st := ReceiveAll(parse, chunks);
    if st.delivered != es {
      PrefixIsShorter(st.delivered, es);
    }
  }

  /** The elements missing from a prefix hold at least the bytes of the first one missing. */
  lemma {:induction false} PrefixIsShorter(es: seq<seq<Byte>>, all: seq<seq<Byte>>)
    requires es <= all && es != all
    ensures |Flatten(es)| + |all[|es|]| <= |Flatten(all)|
  {
    if es != [] {
      PrefixIsShorter(es[1..], all[1..]);
    }
  }

  /** Two ways of receiving the same bytes end in the same state. */
  lemma SameBytesSameState(parse: Parser, a: seq<seq<Byte>>, b: seq<seq<Byte>>)
    requires Stable(parse) && ValidReads(parse, a) && ValidReads(parse, b)
    requires Flatten(a) == Flatten(b)
    ensures ReceiveAll(parse, a) == ReceiveAll(parse, b)
  {
    FramingIgnoresChunking(parse, a);
    FramingIgnoresChunking(parse, b);
  }

  class StreamTransport {
    const parse: Parser
    const receiveBuffer: array<Byte>
    var receiveBufferSize: nat
    var delivered: seq<seq<Byte>>
    var failed: bool

    ghost predicate Valid()
      reads this, receiveBuffer
    {
      && Stable(parse)
      && receiveBuffer.Length == MAX_NDN_PACKET_SIZE
      && receiveBufferSize <= MAX_NDN_PACKET_SIZE
      && (!failed ==> receiveBufferSize < MAX_NDN_PACKET_SIZE)
    }

    ghost function State(): Stream
      requires Valid()
      reads this, receiveBuffer
    {
      Stream(receiveBuffer[..receiveBufferSize], delivered, failed)
    }

    constructor (parse: Parser)
      requires Stable(parse)
      ensures Valid() && State() == IDLE_STREAM && this.parse == parse && fresh(receiveBuffer)
    {
      this.parse := parse;
      receiveBuffer := new Byte[MAX_NDN_PACKET_SIZE];
      receiveBufferSize := 0;
      delivered := [];
      failed := false;
    }

    /** The socket has placed `nBytesReceived` bytes behind the buffered ones. */
    method HandleReceive(nBytesReceived: nat)
      requires Valid() && !failed && receiveBufferSize + nBytesReceived <= MAX_NDN_PACKET_SIZE
      modifies this`receiveBufferSize, this`delivered, this`failed, receiveBuffer
      ensures Valid()
      ensures State() == Receive(parse, old(State()),
                                 old(receiveBuffer[receiveBufferSize..receiveBufferSize + nBytesReceived]))
    {
      hide Stable, Greedy;
      ghost var st := State();
      ghost var chunk := receiveBuffer[receiveBufferSize..receiveBufferSize + nBytesReceived];
      receiveBufferSize := receiveBufferSize + nBytesReceived;
      ghost var bytes := receiveBuffer[..receiveBufferSize];
      assert bytes == st.buffer + chunk;
      RestIsShorter(parse, bytes);
      var offset, isOk := DeliverElements();
      if !isOk && receiveBufferSize == MAX_NDN_PACKET_SIZE && offset == 0 {
        failed := true;
        return;
      }
      if offset > 0 {
        if offset != receiveBufferSize {
          MoveDown(offset);
          receiveBufferSize := receiveBufferSize - offset;
        } else {
          receiveBufferSize := 0;
        }
      }
      assert receiveBuffer[..receiveBufferSize] == bytes[offset..];
    }

    /** The parsing loop: hands the complete elements to the link service. */
    method DeliverElements() returns (offset: nat, isOk: bool)
      requires Stable(parse) && receiveBufferSize <= receiveBuffer.Length
      modifies this`delivered
      ensures offset <= receiveBufferSize
      ensures var g := Greedy(parse, receiveBuffer[..receiveBufferSize]);
              && delivered == old(delivered) + g.elements
              && receiveBuffer[..receiveBufferSize][offset..] == g.rest
              && (offset == 0 <==> g.elements == [])
      ensures isOk <==> offset == receiveBufferSize
    {
      hide Stable;
      ghost var bytes := receiveBuffer[..receiveBufferSize];
      ghost var elements: seq<seq<Byte>> := [];
      offset, isOk := 0, true;
      assert bytes[0..] == bytes;
      while receiveBufferSize - offset > 0
        invariant offset <= receiveBufferSize && isOk
        invariant delivered == old(delivered) + elements
        invariant offset == 0 <==> elements == []
        invariant var h := Greedy(parse, bytes[offset..]);
                  Greedy(parse, bytes) == Parsed(elements + h.elements, h.rest)
        decreases receiveBufferSize - offset
      {
        assert receiveBuffer[offset..receiveBufferSize] == bytes[offset..];
        var element := parse(receiveBuffer[offset..receiveBufferSize]);
        isOk := element.Some?;
        if !isOk { break; }
        GreedyStep(parse, bytes[offset..], elements, Greedy(parse, bytes));
        ghost var next := offset + element.value;
        assert bytes[offset..][element.value..] == bytes[next..];
        assert bytes[offset..][..element.value] == bytes[offset..next];
        assert receiveBuffer[offset..next] == bytes[offset..next];
        delivered := delivered + [receiveBuffer[offset..offset + element.value]];
        elements := elements + [bytes[offset..next]];
        offset := offset + element.value;
      }
      if isOk {
        EmptyDoesNotParse(parse);
        assert bytes[offset..] == [];
      }
      assert elements + [] == elements;
    }

    /** std::copy of the unparsed bytes to the front of the buffer. */
    method MoveDown(offset: nat)
      requires 0 < offset <= receiveBufferSize <= receiveBuffer.Length
      modifies receiveBuffer
      ensures receiveBuffer[..receiveBufferSize - offset] == old(receiveBuffer[offset..receiveBufferSize])
    {
      var i := 0;
      while i < receiveBufferSize - offset
        invariant 0 <= i <= receiveBufferSize - offset
        invariant forall j | 0 <= j < i :: receiveBuffer[j] == old(receiveBuffer[offset + j])
        invariant forall j | i <= j < receiveBuffer.Length :: receiveBuffer[j] == old(receiveBuffer[j])
      {
        receiveBuffer[i] := receiveBuffer[offset + i];
        i := i + 1;
      }
    }
  }
}
