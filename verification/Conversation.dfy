// One TCP connection: both directions reassembled, then read as TLS, HTTP/2 or HTTP/1.
module Conversation {
  import opened Wrappers
  import opened Bytes
  import opened Packets
  import opened Reassembly
  import opened ReassemblyIdeal
  import ReassemblyFlush
  import ReassemblyLedger
  import ReassemblyTheorems
  import FlowTracker
  import TlsStream
  import Http2Stream
  import Framing
  import Lists

  // ------------------------------------------------------------ stream analysis

  datatype Item =
    | Tls(record: TlsStream.TlsInfo)
    | Http2(frame: Http2Stream.FrameInfo)
    | Http1(summary: string)

  datatype Direction = Client | Server

  datatype Analysis = Analysis(direction: Direction, item: Item)

  const CRLF: bytes := [13, 10]
  const HTTP_SLASH: bytes := [72, 84, 84, 80, 47]

  /** GET, POST, PUT, DELETE, HEAD, OPTIONS, PATCH, TRACE, CONNECT. */
  const METHODS: set<bytes> := {
    [71, 69, 84], [80, 79, 83, 84], [80, 85, 84], [68, 69, 76, 69, 84, 69], [72, 69, 65, 68],
    [79, 80, 84, 73, 79, 78, 83], [80, 65, 84, 67, 72], [84, 82, 65, 67, 69], [67, 79, 78, 78, 69, 67, 84]}

  /** `data.find(mark)`: the first position of `mark`, if it occurs. */
  function Find(data: bytes, mark: bytes): Option<nat> {
    if |data| < |mark| then None
    else if mark <= data then Some(0)
    else if data == [] then None
    else
      var r := Find(data[1..], mark);
      if r.None? then None else Some(r.value + 1)
  }

  /** `data.split(mark, 1)[0]`. */
  function Before(data: bytes, mark: bytes): bytes {
    var at := Find(data, mark);
    if at.Some? && at.value <= |data| then data[..at.value] else data
  }

  /** Whether the HTTP/1 parser takes the first head of the buffer for a message at all. */
  predicate Http1Recognises(data: bytes) {
    var end := Find(data, CRLF + CRLF);
    end.Some? &&
    var start := Before(data, CRLF);
    HTTP_SLASH <= start || Before(start, [32]) in METHODS
  }

  function TlsItems(infos: seq<TlsStream.TlsInfo>): seq<Item> {
    seq(|infos|, i requires 0 <= i < |infos| => Tls(infos[i]))
  }

  function Http2Items(frames: seq<Http2Stream.FrameInfo>): seq<Item> {
    seq(|frames|, i requires 0 <= i < |frames| => Http2(frames[i]))
  }

  function Http1Items(messages: seq<string>): seq<Item> {
    seq(|messages|, i requires 0 <= i < |messages| => Http1(messages[i]))
  }

  function TlsPart(data: bytes): seq<Item> {
    if data != [] && data[0] == TlsStream.HANDSHAKE
    then TlsItems(TlsStream.DecodeAll(TlsStream.Records(data).items)) else []
  }

  function Http2Part(data: bytes): seq<Item> {
    if Http2Stream.PREFACE <= data
    then Http2Items(Http2Stream.Infos(Http2Stream.FeedStep(Http2Stream.SessionState(false, []), data).1)) else []
  }

  function Http1Part(data: bytes, http1: bytes -> seq<string>): seq<Item> {
    if Http1Recognises(data) then Http1Items(http1(data)) else []
  }

  /** All analyzers over one direction; `http1` stands for the messages of a recognised HTTP/1 stream. */
  function AnalyzeDirection(data: bytes, http1: bytes -> seq<string>): seq<Item> {
    TlsPart(data) + Http2Part(data) + Http1Part(data, http1)
  }

  function Labelled(d: Direction, items: seq<Item>): seq<Analysis> {
    seq(|items|, i requires 0 <= i < |items| => Analysis(d, items[i]))
  }

  // ------------------------------------------------------------ the conversation

  /** The flow's initiator and responder. */
  datatype Endpoints = Endpoints(destination: string, dstPort: Option<nat>)

  datatype ConversationState = ConversationState(
    client: StreamState, server: StreamState, clientBytes: bytes, serverBytes: bytes)

  predicate IsResponder(flow: Endpoints, p: ParsedPacket) {
    p.source == flow.destination && PortOrZero(p.srcPort) == PortOrZero(flow.dstPort)
  }

  /**
    * In a flow named after its first packet, replies are the responder's, and packets from the initiator are
    * not, unless both endpoints are the same.
    */
  lemma RepliesAreTheResponders(first: ParsedPacket, p: ParsedPacket)
    requires p.source == first.source && p.srcPort == first.srcPort
    ensures var flow := Endpoints(first.destination, first.dstPort);
            && IsResponder(flow, FlowTracker.Reversed(first))
            && (IsResponder(flow, p)
                <==> first.source == first.destination && PortOrZero(first.srcPort) == PortOrZero(first.dstPort))
  {
  }

  /** One packet: an empty payload changes nothing; otherwise the direction's stream takes it. */
  function FeedPacket(flow: Endpoints, s: ConversationState, p: ParsedPacket): (ConversationState, StreamOutput) {
    if p.payload == [] then (s, NO_OUTPUT)
    else if IsResponder(flow, p) then
      var (t, o) := FeedStep(s.server, p.tcpSeq, p.payload, p.ts);
      (s.(server := t, serverBytes := s.serverBytes + o.data), o)
    else
      var (t, o) := FeedStep(s.client, p.tcpSeq, p.payload, p.ts);
      (s.(client := t, clientBytes := s.clientBytes + o.data), o)
  }

  function FeedPackets(flow: Endpoints, s: ConversationState, ps: seq<ParsedPacket>): ConversationState
    decreases |ps|
  {
    if ps == [] then s else FeedPackets(flow, FeedPacket(flow, s, ps[0]).0, ps[1..])
  }

  function Analyses(s: ConversationState, http1: bytes -> seq<string>): seq<Analysis> {
    Labelled(Client, AnalyzeDirection(s.clientBytes, http1)) + Labelled(Server, AnalyzeDirection(s.serverBytes, http1))
  }

  const START := ConversationState(Fresh(None), Fresh(None), [], [])

  class Conversation {
    const flow: Endpoints
    const client: TcpStream
    const server: TcpStream
    var clientBytes: bytes
    var serverBytes: bytes

    ghost predicate Valid() { client != server }

    ghost function State(): ConversationState
      reads this, client, server
    {
      ConversationState(client.State(), server.State(), clientBytes, serverBytes)
    }

    constructor (flow: Endpoints)
      ensures Valid() && fresh(client) && fresh(server) && this.flow == flow && State() == START
    {
      this.flow := flow;
      client := new TcpStream(None);
      server := new TcpStream(None);
      clientBytes, serverBytes := [], [];
    }

    method Feed(p: ParsedPacket) returns (o: StreamOutput)
      requires Valid()
      modifies this, client, server
      ensures Valid() && State() == FeedPacket(flow, old(State()), p).0
      ensures o == FeedPacket(flow, old(State()), p).1
    {
      hide FeedStep;
      if p.payload == [] {
        return NO_OUTPUT;
      }
      if IsResponder(flow, p) {
        o := server.Feed(p.tcpSeq, p.payload, p.ts);
        serverBytes := serverBytes + o.data;
        return;
      }
      o := client.Feed(p.tcpSeq, p.payload, p.ts);
      clientBytes := clientBytes + o.data;
    }

    /** Both streams are flushed; what they emit is returned but not added to the bytes analyzed later. */
    method Flush() returns (c: StreamOutput, s: StreamOutput)
      requires Valid()
      modifies client, server
      ensures Valid()
      ensures State() == old(State()).(client := FlushStep(old(client.State())).0,
                         server := FlushStep(old(server.State())).0)
      ensures c == FlushStep(old(client.State())).1 && s == FlushStep(old(server.State())).1
    {
      hide FlushStep;
      c := client.Flush();
      s := server.Flush();
    }

    method AnalyzeStreams(http1: bytes -> seq<string>) returns (analyses: seq<Analysis>)
      requires Valid()
      ensures analyses == Analyses(State(), http1)
    {
      var c := RunAnalyzers(clientBytes, http1);
      var s := RunAnalyzers(serverBytes, http1);
      analyses := Labelled(Client, c) + Labelled(Server, s);
    }
  }

  method RunAnalyzers(data: bytes, http1: bytes -> seq<string>) returns (results: seq<Item>)
    ensures results == AnalyzeDirection(data, http1)
  {
    hide TlsStream.Records, TlsStream.DecodeAll, Http2Stream.FeedStep, Http2Stream.Infos, Http1Recognises,
      Http2Stream.PREFACE;
    results := [];
    if data != [] && data[0] == TlsStream.HANDSHAKE {
      var tls := new TlsStream.TlsStreamParser();
      var infos := tls.Feed(data);
      assert [] + data == data;
      results := results + TlsItems(infos);
    }
    assert results == TlsPart(data);
    if Http2Stream.PREFACE <= data {
      var h2 := new Http2Stream.Http2Parser();
      var frames := h2.Feed(data);
      results := results + Http2Items(frames);
    }
    assert results == TlsPart(data) + Http2Part(data);
    if Http1Recognises(data) {
      results := results + Http1Items(http1(data));
    }
  }

  // ------------------------------------------------------------ end to end

  /** The payloads one direction's stream takes, in order. */
  function SegmentsOf(d: Direction, flow: Endpoints, ps: seq<ParsedPacket>): seq<Segment>
    decreases |ps|
  {
    if ps == [] then []
    else if ps[0].payload == [] || IsResponder(flow, ps[0]) != (d == Server) then SegmentsOf(d, flow, ps[1..])
    else [Segment(ps[0].tcpSeq, ps[0].payload, ps[0].ts)] + SegmentsOf(d, flow, ps[1..])
  }

  function StreamOf(d: Direction, s: ConversationState): StreamState {
    if d == Client then s.client else s.server
  }

  function BytesOf(d: Direction, s: ConversationState): bytes {
    if d == Client then s.clientBytes else s.serverBytes
  }

  /** Arrivals as they look on the wire, from initial sequence number `isn`. */
  function OnWire(isn: int, xs: seq<Arrival>): seq<Segment>
    decreases |xs|
  {
    if xs == [] then []
    else [Segment(Wrap(isn + xs[0].piece.lo), xs[0].piece.data, xs[0].ts)] + OnWire(isn, xs[1..])
  }

  /**
    * Whatever else the packet list holds, each direction's stream sees just its own segments, and the bytes kept
    * for it are what these deliver, in order.
    */
  lemma {:induction false} EachSideIsFeedAll(
    d: Direction, flow: Endpoints, s: ConversationState, isn: int, ps: seq<ParsedPacket>, xs: seq<Arrival>)
    requires SegmentsOf(d, flow, ps) == OnWire(isn, xs)
    ensures var (t, out) := FeedAll(StreamOf(d, s), isn, xs);
            var s' := FeedPackets(flow, s, ps);
            StreamOf(d, s') == t && BytesOf(d, s') == BytesOf(d, s) + out
    decreases |ps|
  {
    hide FeedStep;
    if ps == [] {
      assert xs == [];
      assert BytesOf(d, s) + [] == BytesOf(d, s);
    } else if ps[0].payload == [] || IsResponder(flow, ps[0]) != (d == Server) {
      EachSideIsFeedAll(d, flow, FeedPacket(flow, s, ps[0]).0, isn, ps[1..], xs);
    } else {
      OnWireHead(d, flow, isn, ps, xs);
      var (t, o) := FeedStep(StreamOf(d, s), ps[0].tcpSeq, ps[0].payload, ps[0].ts);
      EachSideIsFeedAll(d, flow, FeedPacket(flow, s, ps[0]).0, isn, ps[1..], xs[1..]);
      var rest := FeedAll(t, isn, xs[1..]).1;
      assert (BytesOf(d, s) + o.data) + rest == BytesOf(d, s) + (o.data + rest);
    }
  }

  lemma OnWireHead(d: Direction, flow: Endpoints, isn: int, ps: seq<ParsedPacket>, xs: seq<Arrival>)
    requires ps != [] && ps[0].payload != [] && IsResponder(flow, ps[0]) == (d == Server)
    requires SegmentsOf(d, flow, ps) == OnWire(isn, xs)
    ensures xs != [] && SegmentsOf(d, flow, ps[1..]) == OnWire(isn, xs[1..])
    ensures Wrap(isn + xs[0].piece.lo) == ps[0].tcpSeq && xs[0].piece.data == ps[0].payload && xs[0].ts == ps[0].ts
  {
    hide Wrap;
    var segs := SegmentsOf(d, flow, ps);
    assert xs != [];
    assert segs[0] == OnWire(isn, xs)[0];
    assert segs[1..] == SegmentsOf(d, flow, ps[1..]);
    assert OnWire(isn, xs)[1..] == OnWire(isn, xs[1..]);
  }

  /** The part before a mark that is not at the front keeps the first byte. */
  lemma BeforeKeepsFirst(data: bytes, mark: bytes)
    requires data != [] && mark != [] && mark[0] != data[0]
    ensures Before(data, mark) != [] && Before(data, mark)[0] == data[0]
  {
    assert !(mark <= data);
  }

  /** The mark stands at i. */
  predicate OccursAt(data: bytes, mark: bytes, i: nat) { i + |mark| <= |data| && data[i..i + |mark|] == mark }

  /** `find` gives the first place where the mark stands, if there is one. */
  lemma {:induction false} FindIsFirst(data: bytes, mark: bytes)
    ensures match Find(data, mark)
            case Some(i) => OccursAt(data, mark, i) && forall j: nat :: j < i ==> !OccursAt(data, mark, j)
            case None => forall j: nat :: !OccursAt(data, mark, j)
  {
    if |data| >= |mark| && !(mark <= data) && data != [] {
      FindIsFirst(data[1..], mark);
      forall j: nat ensures OccursAt(data, mark, j + 1) == OccursAt(data[1..], mark, j) {
        if j + 1 + |mark| <= |data| {
          assert data[1..][j..j + |mark|] == data[j + 1..j + 1 + |mark|];
        }
      }
      assert !OccursAt(data, mark, 0);
      forall j: nat | j > 0 ensures OccursAt(data, mark, j) == OccursAt(data[1..], mark, j - 1) {
        assert j == (j - 1) + 1;
      }
    } else {
      assert mark <= data ==> OccursAt(data, mark, 0);
      assert OccursAt(data, mark, 0) ==> mark <= data;
    }
  }

  lemma StartsThere(data: bytes, mark: bytes, i: nat)
    requires mark != [] && OccursAt(data, mark, i)
    ensures i < |data| && data[i] == mark[0]
  {
    assert data[i..i + |mark|][0] == data[i];
  }

  lemma BeforeTheMark(head: bytes, mark: bytes, tail: bytes)
    requires mark != [] && mark[0] !in head
    ensures Before(head + mark + tail, mark) == head
  {
    var data := head + mark + tail;
    FindIsFirst(data, mark);
    hide Find;
    assert data[|head|..|head| + |mark|] == mark;
    assert OccursAt(data, mark, |head|);
    forall j: nat | j < |head| ensures !OccursAt(data, mark, j) {
      assert data[j] == head[j] != mark[0];
      if OccursAt(data, mark, j) {
        StartsThere(data, mark, j);
        assert false;
      }
    }
    assert data[..|head|] == head;
  }

  /**
    * Of a start line, a word and the rest behind a blank, with a head that ends: it is taken for HTTP/1 exactly
    * when it starts with "HTTP/" or the word is one of the methods.
    */
  lemma StartLineDecides(word: bytes, rest: bytes, tail: bytes)
    requires 13 !in word && 32 !in word && 13 !in rest
    ensures var line := word + [32] + rest;
            var data := line + CRLF + tail;
            Http1Recognises(data)
            <==> (exists i: nat :: OccursAt(data, CRLF + CRLF, i)) && (HTTP_SLASH <= line || word in METHODS)
  {
    var line := word + [32] + rest;
    var data := line + CRLF + tail;
    BeforeTheMark(line, CRLF, tail);
    BeforeTheMark(word, [32], rest);
    FindIsFirst(data, CRLF + CRLF);
    hide Find, Before, METHODS, OccursAt;
  }

  lemma HandshakeIsNotHttp(data: bytes)
    requires data != [] && data[0] == TlsStream.HANDSHAKE
    ensures !Http1Recognises(data) && !(Http2Stream.PREFACE <= data)
  {
    BeforeKeepsFirst(data, CRLF);
    var start := Before(data, CRLF);
    BeforeKeepsFirst(start, [32]);
    var word := Before(start, [32]);
    hide Before, Find;
    assert word[0] == 22;
    assert Http2Stream.PREFACE[0] == 80;
  }

  lemma DecodeAllAt(rs: seq<TlsStream.Record>)
    ensures |TlsStream.DecodeAll(rs)| == |rs|
    ensures forall i :: 0 <= i < |rs| ==> TlsStream.DecodeAll(rs)[i] == TlsStream.Decode(rs[i])
  {
    hide TlsStream.Decode;
  }

  /** A direction that carries exactly a list of records starting with a handshake is read as those records. */
  lemma RecordsAreAnalyzed(rs: seq<TlsStream.Record>, http1: bytes -> seq<string>)
    requires rs != [] && rs[0].kind == TlsStream.HANDSHAKE && forall r :: r in rs ==> TlsStream.Fits()(r)
    ensures AnalyzeDirection(TlsStream.Wire(rs), http1) == TlsItems(TlsStream.DecodeAll(rs))
  {
    var wire := TlsStream.Wire(rs);
    TlsStream.TlsRecordsComeBack(rs, []);
    WireStartsWithType(rs);
    HandshakeIsNotHttp(wire);
    hide TlsStream.Records, TlsStream.DecodeAll, Http1Recognises, TlsStream.Wire;
    assert wire + [] == wire;
    NoRecordsInNothing();
    assert rs + [] == rs;
    assert TlsPart(wire) == TlsItems(TlsStream.DecodeAll(rs));
    assert Http2Part(wire) == [] && Http1Part(wire, http1) == [];
    hide TlsPart, Http2Part, Http1Part;
  }

  lemma NoRecordsInNothing()
    ensures TlsStream.Records([]).items == []
  {
  }

  lemma WireStartsWithType(rs: seq<TlsStream.Record>)
    requires rs != [] && TlsStream.Fits()(rs[0])
    ensures TlsStream.Wire(rs) != [] && TlsStream.Wire(rs)[0] == rs[0].kind
  {
    var first := TlsStream.Serialize()(rs[0]);
    assert first[0] == rs[0].kind;
    assert TlsStream.Wire(rs) == first + Framing.Encoded(TlsStream.Serialize(), rs[1..]);
  }

  /** A direction that carries the HTTP/2 preface and a list of frames is read as those frames and nothing else. */
  lemma FramesAreAnalyzed(fs: seq<Http2Stream.Frame>, http1: bytes -> seq<string>)
    requires fs != [] && forall f :: f in fs ==> Http2Stream.Fits()(f)
    ensures AnalyzeDirection(Http2Stream.PREFACE + Http2Stream.Wire(fs), http1) == Http2Items(Http2Stream.Infos(fs))
  {
    hide *;
    PrefacedFrames(fs);
    PrefaceIsNotARequest(Http2Stream.Wire(fs));
    OnlyHttp2(Http2Stream.PREFACE + Http2Stream.Wire(fs), http1);
  }

  lemma PrefacedFrames(fs: seq<Http2Stream.Frame>)
    requires fs != [] && forall f :: f in fs ==> Http2Stream.Fits()(f)
    ensures Http2Part(Http2Stream.PREFACE + Http2Stream.Wire(fs)) == Http2Items(Http2Stream.Infos(fs))
  {
    Http2Stream.Http2FramesComeBack(fs, []);
    Http2Stream.NoFramesInNothing();
    hide Http2Stream.FeedStep, Http2Stream.Infos, Http2Stream.PREFACE, Framing.Encoded, Http2Stream.Frames;
    var wire := Http2Stream.PREFACE + Http2Stream.Wire(fs);
    assert wire + [] == wire && fs + [] == fs;
  }

  lemma OnlyHttp2(data: bytes, http1: bytes -> seq<string>)
    requires data != [] && data[0] == 80 && !Http1Recognises(data)
    ensures AnalyzeDirection(data, http1) == Http2Part(data)
  {
    hide Http1Recognises, Http2Part;
    assert TlsPart(data) == [] && Http1Part(data, http1) == [];
    assert [] + Http2Part(data) + [] == Http2Part(data);
  }

  /** The preface starts with a line of a word, "PRI", and "* HTTP/2.0". */
  const PREFACE_WORD: bytes := [80, 82, 73]
  const PREFACE_REST: bytes := [42, 32, 72, 84, 84, 80, 47, 50, 46, 48]
  const PREFACE_TAIL: bytes := [13, 10, 83, 77, 13, 10, 13, 10]

  lemma PrefaceParts()
    ensures Http2Stream.PREFACE == PREFACE_WORD + [32] + PREFACE_REST + CRLF + PREFACE_TAIL
    ensures 13 !in PREFACE_WORD && 32 !in PREFACE_WORD && 13 !in PREFACE_REST && PREFACE_WORD !in METHODS
  {
    assert PREFACE_WORD[1] == 82 && PREFACE_WORD[2] == 73;
  }

  lemma PrefaceLine()
    ensures var line := PREFACE_WORD + [32] + PREFACE_REST; line[0] == 80 && !(HTTP_SLASH <= line)
    ensures Http2Stream.PREFACE[0] == 80
  {
    assert (PREFACE_WORD + [32] + PREFACE_REST)[0] == PREFACE_WORD[0];
  }

  lemma PrefaceIsNotARequest(tail: bytes)
    ensures var data := Http2Stream.PREFACE + tail;
            Http2Stream.PREFACE <= data && data != [] && data[0] == 80 && !Http1Recognises(data)
  {
    hide *;
    PrefaceParts();
    PrefaceLine();
    assert Http2Stream.PREFACE + tail == PREFACE_WORD + [32] + PREFACE_REST + CRLF + (PREFACE_TAIL + tail);
    StartLineDecides(PREFACE_WORD, PREFACE_REST, PREFACE_TAIL + tail);
  }

  lemma PrefacedIsNotARequest(data: bytes)
    requires Http2Stream.PREFACE <= data
    ensures !Http1Recognises(data)
  {
    PrefaceIsNotARequest(data[|Http2Stream.PREFACE|..]);
    assert Http2Stream.PREFACE + data[|Http2Stream.PREFACE|..] == data;
    hide Http1Recognises;
  }

  /** A direction that starts with a head recognised as HTTP/1 is read as HTTP/1 and nothing else. */
  lemma MessagesAreAnalyzed(data: bytes, http1: bytes -> seq<string>)
    requires Http1Recognises(data)
    ensures AnalyzeDirection(data, http1) == Http1Items(http1(data))
  {
    if data != [] && data[0] == TlsStream.HANDSHAKE {
      HandshakeIsNotHttp(data);
      assert false;
    } else if Http2Stream.PREFACE <= data {
      PrefacedIsNotARequest(data);
      assert false;
    }
    hide Http1Recognises, Http2Stream.PREFACE;
    assert TlsPart(data) == [] && Http2Part(data) == [] && Http1Part(data, http1) == Http1Items(http1(data));
    hide TlsPart, Http2Part, Http1Part;
  }

  /** The segments of one direction are an orderly run over the wire image of records that begin a handshake. */
  ghost predicate Carries(d: Direction, flow: Endpoints, isn: int, ps: seq<ParsedPacket>, xs: seq<Arrival>,
                          rs: seq<TlsStream.Record>) {
    && rs != [] && rs[0].kind == TlsStream.HANDSHAKE && (forall r :: r in rs ==> TlsStream.Fits()(r))
    && ReassemblyTheorems.Orderly(TlsStream.Wire(rs), 0, None, xs) && xs != [] && xs[0].piece.lo == 0
    && SegmentsOf(d, flow, ps) == OnWire(isn, xs)
  }

  /** The bytes kept for such a direction are its records, whole and in order. */
  lemma CarriedBytesAreKept(d: Direction, flow: Endpoints, isn: int, ps: seq<ParsedPacket>, xs: seq<Arrival>,
                            rs: seq<TlsStream.Record>)
    requires Carries(d, flow, isn, ps, xs, rs)
    ensures BytesOf(d, FeedPackets(flow, START, ps)) == TlsStream.Wire(rs)
  {
    hide FeedAll, FeedPackets, TlsStream.Wire, ReassemblyTheorems.Orderly, OnWire, SegmentsOf;
    ReassemblyTheorems.LocalReorderingIsLossless(TlsStream.Wire(rs), isn, None, xs);
    EachSideIsFeedAll(d, flow, START, isn, ps, xs);
    assert [] + TlsStream.Wire(rs) == TlsStream.Wire(rs);
  }

  /** The items of one direction of the conversation. */
  function ItemsOf(d: Direction, s: ConversationState, http1: bytes -> seq<string>): seq<Item> {
    AnalyzeDirection(BytesOf(d, s), http1)
  }

  lemma CarriedRecordsAreItems(d: Direction, flow: Endpoints, isn: int, ps: seq<ParsedPacket>, xs: seq<Arrival>,
                               rs: seq<TlsStream.Record>, http1: bytes -> seq<string>)
    requires Carries(d, flow, isn, ps, xs, rs)
    ensures var items := ItemsOf(d, FeedPackets(flow, START, ps), http1);
            |items| == |rs| && forall i :: 0 <= i < |rs| ==> items[i] == Tls(TlsStream.Decode(rs[i]))
  {
    CarriedBytesAreKept(d, flow, isn, ps, xs, rs);
    RecordsAreAnalyzed(rs, http1);
    DecodeAllAt(rs);
    hide FeedPackets, TlsStream.Wire, ReassemblyTheorems.Orderly, OnWire, SegmentsOf, AnalyzeDirection,
      TlsStream.DecodeAll, TlsStream.Decode;
  }

  lemma AnalysesAre(s: ConversationState, http1: bytes -> seq<string>)
    ensures var analyses, c := Analyses(s, http1), ItemsOf(Client, s, http1);
            && |analyses| == |c| + |ItemsOf(Server, s, http1)|
            && (forall i :: 0 <= i < |c| ==> analyses[i] == Analysis(Client, c[i]))
            && (forall i :: |c| <= i < |analyses| ==>
                              analyses[i] == Analysis(Server, ItemsOf(Server, s, http1)[i - |c|]))
  {
    hide AnalyzeDirection;
  }

  /**
    * End to end: however the client's records are cut into segments, locally reordered and
    * re-sent, from any initial sequence number, and whatever else the connection carries
    * (server packets, empty payloads), the analysis starts with exactly one client-side
    * TLS item per record, in order, and everything after them is about the server.
    */
  lemma RecordsReachTheAnalysis(
    flow: Endpoints, isn: int, ps: seq<ParsedPacket>, xs: seq<Arrival>, rs: seq<TlsStream.Record>,
    http1: bytes -> seq<string>)
    requires Carries(Client, flow, isn, ps, xs, rs)
    ensures var analyses := Analyses(FeedPackets(flow, START, ps), http1);
            && |analyses| >= |rs|
            && (forall i :: 0 <= i < |rs| ==> analyses[i] == Analysis(Client, Tls(TlsStream.Decode(rs[i]))))
            && (forall i :: |rs| <= i < |analyses| ==> analyses[i].direction == Server)
  {
    hide *;
    CarriedRecordsAreItems(Client, flow, isn, ps, xs, rs, http1);
    AnalysesAre(FeedPackets(flow, START, ps), http1);
  }

  /**
    * And both directions: when each carries an orderly run over its own records, the analysis is exactly one
    * client item for each of the client's records and then one server item for each of the server's.
    */
  lemma BothSidesReachTheAnalysis(
    flow: Endpoints, ps: seq<ParsedPacket>, isn: int, xs: seq<Arrival>, rs: seq<TlsStream.Record>,
    isn': int, ys: seq<Arrival>, qs: seq<TlsStream.Record>, http1: bytes -> seq<string>)
    requires Carries(Client, flow, isn, ps, xs, rs) && Carries(Server, flow, isn', ps, ys, qs)
    ensures var analyses := Analyses(FeedPackets(flow, START, ps), http1);
            && |analyses| == |rs| + |qs|
            && (forall i :: 0 <= i < |rs| ==> analyses[i] == Analysis(Client, Tls(TlsStream.Decode(rs[i]))))
            && (forall i :: 0 <= i < |qs| ==> analyses[|rs| + i] == Analysis(Server, Tls(TlsStream.Decode(qs[i]))))
  {
    hide *;
    CarriedRecordsAreItems(Client, flow, isn, ps, xs, rs, http1);
    CarriedRecordsAreItems(Server, flow, isn', ps, ys, qs, http1);
    AnalysesAre(FeedPackets(flow, START, ps), http1);
  }

  // ------------------------------------------------------------ what a flush leaves out

  /** Over any run of packets, the bytes kept for analysis are exactly those the streams wrote. */
  lemma {:induction false} KeptBytesAreWritten(flow: Endpoints, s: ConversationState, ps: seq<ParsedPacket>)
    requires |s.clientBytes| == s.client.bytesWritten && |s.serverBytes| == s.server.bytesWritten
    ensures var s' := FeedPackets(flow, s, ps);
            |s'.clientBytes| == s'.client.bytesWritten && |s'.serverBytes| == s'.server.bytesWritten
    decreases |ps|
  {
    if ps != [] {
      hide Classify;
      KeptBytesAreWritten(flow, FeedPacket(flow, s, ps[0]).0, ps[1..]);
    }
  }

  /** A waiting segment starts or ends beyond the stream's position. */
  predicate WaitsBeyond(s: StreamState) {
    s.next.Some? && exists i :: 0 <= i < |s.buffer| && Beyond(s.buffer[i], s.next.value)
  }

  predicate Beyond(seg: Segment, next: Seq32) { SeqGt(seg.start, next) || SeqGt(seg.End(), next) }

  /** At most one segment waits, and the books of the stream balance. */
  ghost predicate Booked(s: StreamState) {
    exists first: Option<Seq32> :: ReassemblyLedger.Balanced(s, first)
  }

  lemma BookedFeed(s: StreamState, start: Seq32, data: bytes, ts: real)
    requires Booked(s) && |data| < HALF
    ensures Booked(FeedStep(s, start, data, ts).0)
  {
    hide ReassemblyLedger.Balanced, FeedStep;
    var first :| ReassemblyLedger.Balanced(s, first);
    var c := ReassemblyLedger.FeedCall(start, data, ts);
    ReassemblyLedger.FeedKeepsBooks(s, first, c);
    assert ReassemblyLedger.Balanced(FeedStep(s, start, data, ts).0, ReassemblyLedger.StartAfter(first, c));
  }

  lemma {:induction false} StreamsStayBooked(flow: Endpoints, s: ConversationState, ps: seq<ParsedPacket>)
    requires Booked(s.client) && Booked(s.server) && forall i :: 0 <= i < |ps| ==> |ps[i].payload| < HALF
    ensures var s' := FeedPackets(flow, s, ps); Booked(s'.client) && Booked(s'.server)
    decreases |ps|
  {
    if ps != [] {
      BookedFeed(s.server, ps[0].tcpSeq, ps[0].payload, ps[0].ts);
      BookedFeed(s.client, ps[0].tcpSeq, ps[0].payload, ps[0].ts);
      hide FeedStep, Booked;
      StreamsStayBooked(flow, FeedPacket(flow, s, ps[0]).0, ps[1..]);
    }
  }

  lemma FreshIsBooked()
    ensures Booked(Fresh(None))
  {
    ReassemblyLedger.FreshBalances(None);
  }

  lemma TakeEmits(nxt: Seq32, seg: Segment)
    requires ReassemblyLedger.Sound(seg)
    ensures Flushed([], nxt, 0, None).Take(seg).data != [] <==> Beyond(seg, nxt)
  {
    if SeqGt(seg.start, nxt) {
      ReassemblyLedger.SelfNear(seg.start);
      StartsBeforeEnd(seg);
    } else {
      ReassemblyLedger.BehindIsNear(seg.start, nxt);
      EndsBeyondIff(seg, nxt);
    }
    hide Ahead, SeqAdd, SeqGt;
  }

  lemma StartsBeforeEnd(seg: Segment)
    requires ReassemblyLedger.Sound(seg)
    ensures SeqGe(seg.End(), seg.start)
  {
  }

  lemma EndsBeyondIff(seg: Segment, nxt: Seq32)
    requires ReassemblyLedger.Sound(seg) && Ahead(seg.start, nxt) <= HALF
    ensures SeqGe(seg.End(), nxt) && DropFirst(seg.data, Ahead(seg.start, nxt)) != [] <==> SeqGt(seg.End(), nxt)
  {
    ReassemblyLedger.EndFrom(seg, nxt);
    if SeqGt(seg.End(), nxt) {
      ReassemblyLedger.ReachesBeyond(seg, nxt);
    } else if seg.End() == nxt {
      ReassemblyLedger.EndsHere(seg, nxt);
    }
    hide Ahead, SeqAdd;
  }

  /** A flush emits something exactly when a segment waits that starts or ends beyond the position. */
  lemma FlushEmitsIff(s: StreamState)
    requires Booked(s)
    ensures FlushStep(s).1.data != [] <==> WaitsBeyond(s)
  {
    hide SeqGt, SeqGe, Ahead, SeqAdd, FlushAll, Lists.Sort, ReassemblyLedger.Count, Beyond;
    var first :| ReassemblyLedger.Balanced(s, first);
    if s.buffer != [] {
      var seg := s.buffer[0];
      assert s.buffer == [seg];
      ReassemblyLedger.FlushOne(s.next.value, seg);
      TakeEmits(s.next.value, seg);
      assert WaitsBeyond(s) <==> Beyond(seg, s.next.value);
    }
  }

  /**
    * "Late-arriving data is not lost" at flush holds for a stream's own counter only. Over every
    * packet list, a flush changes no analysis, and in either direction the bytes kept for analysis
    * are still all the bytes counted as written exactly when, before the call, no waiting segment
    * started or ended beyond the position.
    */
  lemma FlushBypassesAnalysis(flow: Endpoints, ps: seq<ParsedPacket>, http1: bytes -> seq<string>)
    requires forall i :: 0 <= i < |ps| ==> |ps[i].payload| < HALF
    ensures var s := FeedPackets(flow, START, ps);
            var s' := s.(client := FlushStep(s.client).0, server := FlushStep(s.server).0);
            && Analyses(s', http1) == Analyses(s, http1)
            && (|s'.clientBytes| == s'.client.bytesWritten <==> !WaitsBeyond(s.client))
            && (|s'.serverBytes| == s'.server.bytesWritten <==> !WaitsBeyond(s.server))
  {
    hide FeedPackets, AnalyzeDirection, FlushStep, Booked, WaitsBeyond;
    KeptBytesAreWritten(flow, START, ps);
    FreshIsBooked();
    StreamsStayBooked(flow, START, ps);
    var s := FeedPackets(flow, START, ps);
    FlushEmitsIff(s.client);
    FlushEmitsIff(s.server);
    FlushCounts(s.client);
    FlushCounts(s.server);
  }

  /** In unbounded offsets: a piece waits whose end lies beyond the position. */
  lemma WaitsBeyondIff(isn: int, s: StreamState, p: Position)
    requires Mirrors(isn, s, p) && ReassemblyFlush.HeldNear(p)
    ensures WaitsBeyond(s) <==> p.held.Some? && p.held.value.Hi() > p.next
  {
    if p.held.Some? {
      var h, seg := p.held.value, s.buffer[0];
      SerialOrder(isn, h.lo, p.next);
      SerialOrder(isn, h.Hi(), p.next);
      EndWraps(isn, h, seg);
      hide Wrap, SeqGt;
      assert WaitsBeyond(s) <==> Beyond(seg, s.next.value);
    }
  }

  // ------------------------------------------------------------ bytes the analysers never see

  const FLOW := Endpoints("b", Some(443))

  function ClientPacket(ts: real, start: Seq32, payload: bytes): ParsedPacket {
    ParsedPacket(ts, "a", "b", "TCP", Some(5000), Some(443), |payload|, payload, start, payload)
  }

  /** The last segment waits behind a hole: the flush emits its two bytes, the analysis never gets them. */
  lemma FlushedBytesAreNotAnalyzed()
    ensures var ps := [ClientPacket(0.0, 0, [22, 3]), ClientPacket(1.0, 5, [9, 9])];
            var s := FeedPackets(FLOW, START, ps);
            var (client, o) := FlushStep(s.client);
            && WaitsBeyond(s.client) && o.data == [9, 9]
            && client.bytesWritten == 4 && s.clientBytes == [22, 3]
  {
    var ps := [ClientPacket(0.0, 0, [22, 3]), ClientPacket(1.0, 5, [9, 9])];
    var xs := [Arrival(Piece(0, [22, 3]), 0.0), Arrival(Piece(5, [9, 9]), 1.0)];
    hide *;
    LastWaits(ps, xs);
  }

  lemma LastWaits(ps: seq<ParsedPacket>, xs: seq<Arrival>)
    requires ps == [ClientPacket(0.0, 0, [22, 3]), ClientPacket(1.0, 5, [9, 9])]
    requires xs == [Arrival(Piece(0, [22, 3]), 0.0), Arrival(Piece(5, [9, 9]), 1.0)]
    ensures var s := FeedPackets(FLOW, START, ps);
            && WaitsBeyond(s.client) && s.clientBytes == [22, 3]
            && FlushStep(s.client).1.data == [9, 9] && FlushStep(s.client).0.bytesWritten == 4
  {
    hide *;
    SameOnWire(ps, xs);
    SecondWaits(xs);
    EachSideIsFeedAll(Client, FLOW, START, 0, ps, xs);
    StartsEmpty(FeedAll(Fresh(None), 0, xs).1);
    ClientIs(START);
    ClientIs(FeedPackets(FLOW, START, ps));
    KeptBytesAreWritten(FLOW, START, ps);
    ReassemblyTheorems.StartedRunMirrors(0, None, xs);
    WaitingIsFlushed(FeedPackets(FLOW, START, ps).client);
  }

  lemma ClientIs(s: ConversationState)
    ensures StreamOf(Client, s) == s.client && BytesOf(Client, s) == s.clientBytes
  {
  }

  lemma StartsEmpty(out: bytes)
    ensures START.client == Fresh(None) && START.clientBytes == [] && START.clientBytes + out == out
    ensures |START.clientBytes| == START.client.bytesWritten && |START.serverBytes| == START.server.bytesWritten
  {
  }

  lemma SameOnWire(ps: seq<ParsedPacket>, xs: seq<Arrival>)
    requires ps == [ClientPacket(0.0, 0, [22, 3]), ClientPacket(1.0, 5, [9, 9])]
    requires xs == [Arrival(Piece(0, [22, 3]), 0.0), Arrival(Piece(5, [9, 9]), 1.0)]
    ensures SegmentsOf(Client, FLOW, ps) == OnWire(0, xs) && xs != [] && xs[0].piece.lo == 0
    ensures forall i :: 0 <= i < |ps| ==> |ps[i].payload| < HALF
  {
    assert ps[1..] == [ps[1]] && ps[1..][1..] == [] && xs[1..] == [xs[1]] && xs[1..][1..] == [];
    assert SegmentsOf(Client, FLOW, ps[1..]) == [Segment(5, [9, 9], 1.0)] + SegmentsOf(Client, FLOW, []);
    assert OnWire(0, xs[1..]) == [Segment(5, [9, 9], 1.0)] + OnWire(0, []);
  }

  lemma SecondWaits(xs: seq<Arrival>)
    requires xs == [Arrival(Piece(0, [22, 3]), 0.0), Arrival(Piece(5, [9, 9]), 1.0)]
    ensures var p := Position(0, None);
            && InReach(p, xs) && Delivered(p, xs) == [22, 3]
            && After(p, xs) == Position(2, Some(Piece(5, [9, 9])))
  {
    var p, q := Position(0, None), Position(2, None);
    var late := Piece(5, [9, 9]);
    assert xs[1..] == [Arrival(late, 1.0)] && xs[1..][1..] == [];
    assert Receive(p, xs[0].piece) == Outcome(q, [22, 3], None);
    assert Receive(q, late) == Outcome(Position(2, Some(late)), [], None);
    assert Delivered(q, xs[1..]) == [] + Delivered(Position(2, Some(late)), []) == [];
    assert Delivered(p, xs) == [22, 3] + [];
    assert After(q, xs[1..]) == After(Position(2, Some(late)), []);
  }

  lemma WaitingIsFlushed(s: StreamState)
    requires Mirrors(0, s, Position(2, Some(Piece(5, [9, 9])))) && s.bytesWritten == 2
    ensures WaitsBeyond(s) && FlushStep(s).1.data == [9, 9] && FlushStep(s).0.bytesWritten == 4
  {
    ReassemblyFlush.FlushMirrors(0, s, Position(2, Some(Piece(5, [9, 9]))));
    WaitsBeyondIff(0, s, Position(2, Some(Piece(5, [9, 9]))));
    FlushCounts(s);
    hide FlushStep, WaitsBeyond, Mirrors;
  }

  lemma FlushCounts(s: StreamState)
    ensures FlushStep(s).0.bytesWritten == s.bytesWritten + |FlushStep(s).1.data|
  {
    hide FlushAll, Lists.Sort;
  }
}
