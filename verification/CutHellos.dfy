// What the TLS readers make of hellos, lists and records that are cut short or claim another length.
module CutHellos {
  import opened Wrappers
  import opened Bytes
  import opened TlsStream
  import opened HelloCodec
  import opened MockHello
  import TlsPacket

  // ------------------------------------------------------------ hellos

  /** Where the cipher suites of a written hello end. */
  function SuitesEnd(t: HelloText): nat
    requires t.Writable()
  {
    |t.ToSuites()| + 2 * |t.suites|
  }

  lemma CutParts(t: HelloText, k: nat)
    requires t.Writable() && k <= |t.Body()|
    ensures var body, cut, sid := t.Body(), t.Body()[..k], 35 + |t.session|;
            var off := sid + 2 + 2 * |t.suites|;
            && SuitesEnd(t) == off < off + 1 + |t.compression| + 2 + |Encoded(t.extensions)| == |body|
            && (k >= 35 ==> At(cut, 34) == |t.session|)
            && (k >= sid + 2 ==> Be16(cut, sid) == 2 * |t.suites|)
            && (k >= off ==> cut[sid + 2..off] == Words(t.suites))
            && (k >= off + 1 ==> At(cut, off) == |t.compression|)
            && (k >= off + 1 + |t.compression| + 2 ==>
                  Be16(cut, off + 1 + |t.compression|) == |Encoded(t.extensions)|)
  {
    BodyParts(t);
    hide Words, Encoded, HelloText.Body;
    var body, cut, sid := t.Body(), t.Body()[..k], 35 + |t.session|;
    var off := sid + 2 + 2 * |t.suites|;
    assert forall i :: 0 <= i < k ==> cut[i] == body[i];
    if k >= off {
      assert cut[sid + 2..off] == body[sid + 2..off];
    }
  }

  /**
    * A hello cut short anywhere: nothing is read before its cipher suites are there, only these before its last
    * byte is.
    */
  lemma CutHelloReads(t: HelloText, k: nat)
    requires t.Writable() && k < |t.Body()|
    ensures ClientHello(t.Body()[..k])
         == if k < SuitesEnd(t) then NO_HELLO else Hello(None, t.suites, [], [])
  {
    hide *;
    CutParts(t, k);
    FieldsOfCut(t.Body()[..k], |t.session|, t.suites, |t.compression|, |Encoded(t.extensions)|);
  }

  /** The same of any bytes that hold these fields as far as they go. */
  lemma FieldsOfCut(cut: bytes, session: nat, suites: seq<Word16>, compression: nat, extensions: nat)
    requires var sid, off := 35 + session, 35 + session + 2 + 2 * |suites|;
             var ext := off + 1 + compression;
             && |cut| < ext + 2 + extensions
             && (|cut| >= 35 ==> At(cut, 34) == session)
             && (|cut| >= sid + 2 ==> Be16(cut, sid) == 2 * |suites|)
             && (|cut| >= off ==> cut[sid + 2..off] == Words(suites))
             && (|cut| >= off + 1 ==> At(cut, off) == compression)
             && (|cut| >= ext + 2 ==> Be16(cut, ext) == extensions)
    ensures ClientHello(cut)
         == if |cut| < 35 + session + 2 + 2 * |suites| then NO_HELLO else Hello(None, suites, [], [])
  {
    var sid, off := 35 + session, 35 + session + 2 + 2 * |suites|;
    if |cut| >= off {
      hide *;
      WordsReadBack(suites);
      SuitesOfCut(cut, sid, 2 * |suites|, Words(suites), suites);
      TailOfCut(cut, off, Hello(None, suites, [], []), compression, extensions);
    } else {
      hide Words, Codes, Be16, HelloTail;
    }
  }

  lemma SuitesOfCut(cut: bytes, sid: nat, total: nat, codes: bytes, suites: seq<Word16>)
    requires |cut| >= 35 && sid == 35 + At(cut, 34) && sid + 2 + total <= |cut|
    requires Be16(cut, sid) == total && cut[sid + 2..sid + 2 + total] == codes && Codes(codes, 0) == suites
    ensures ClientHello(cut) == HelloTail(cut, sid + 2 + total, Hello(None, suites, [], []))
  {
    hide Codes, Be16, HelloTail;
  }

  lemma WordsReadBack(vs: seq<Word16>)
    ensures Codes(Words(vs), 0) == vs
  {
    CodesReadBack([], vs);
    assert [] + Words(vs) == Words(vs);
    hide *;
  }

  lemma TailOfCut(cut: bytes, off: nat, h: Hello, compression: nat, extensions: nat)
    requires |cut| < off + 1 + compression + 2 + extensions
    requires |cut| >= off + 1 ==> At(cut, off) == compression
    requires |cut| >= off + 1 + compression + 2 ==> Be16(cut, off + 1 + compression) == extensions
    ensures HelloTail(cut, off, h) == h
  {
    hide Be16, Extensions;
  }

  /** The packet parser finds no name in a hello that is cut short. */
  lemma CutHelloHasNoName(t: HelloText, k: nat)
    requires t.Writable() && k < |t.Body()|
    ensures TlsPacket.HelloName(t.Body()[..k]) == None
  {
    CutParts(t, k);
    hide Words, Encoded, HelloText.Body, SuitesEnd, Be16, TlsPacket.NameFrom;
  }

  function Least(a: nat, b: nat): nat { if a < b then a else b }

  /**
    * A payload that starts a handshake record of n bytes with a message of m bytes: type and version are
    * reported, and of a client hello the name in as much of the message as record and payload hold.
    */
  lemma PacketIsAnalyzed(version: Word16, n: Word16, kind: byte, m: nat, rest: bytes)
    requires n >= 4 && m < 0x100_0000
    ensures var payload := [HANDSHAKE] + ToBig16(version) + ToBig16(n) + ([kind] + ToBig24(m) + rest);
            var part := Slice(rest, 0, Least(m, n - 4));
            TlsPacket.Analysis(payload)
            == Some(TlsPacket.PacketInfo(22, kind, version, if kind == 1 then TlsPacket.HelloName(part) else None))
  {
    hide *;
    var v, size, l := ToBig16(version), ToBig16(n), ToBig24(m);
    var front, message := [HANDSHAKE] + v + size, [kind] + l + rest;
    assert front + message == [HANDSHAKE] + v + size + ([kind] + l + rest);
    FrontReads(front, message, version, n);
    MessagePart(kind, m, rest, n);
    AnalysisReads(front + message, Slice(message, 0, n), version, n, kind, m);
  }

  lemma AnalysisReads(payload: bytes, body: bytes, version: Word16, n: Word16, kind: byte, m: nat)
    requires |payload| >= 5 && payload[0] == HANDSHAKE && Be16(payload, 1) == version
    requires FromBig(Slice(payload, 3, 5)) == n && Slice(payload, 5, 5 + n) == body
    requires |body| >= 4 && body[0] == kind && FromBig(body[1..4]) == m
    ensures TlsPacket.Analysis(payload)
         == Some(TlsPacket.PacketInfo(22, kind, version,
                                      if kind == 1 then TlsPacket.HelloName(Slice(body, 4, 4 + m)) else None))
  {
    hide TlsPacket.HelloName, FromBig, Slice;
  }

  lemma FrontReads(front: bytes, message: bytes, version: Word16, n: Word16)
    requires front == [HANDSHAKE] + ToBig16(version) + ToBig16(n)
    ensures var payload := front + message;
            && |payload| >= 5 && payload[0] == HANDSHAKE && Be16(payload, 1) == version
            && FromBig(Slice(payload, 3, 5)) == n && Slice(payload, 5, 5 + n) == Slice(message, 0, n)
  {
    var payload, size := front + message, ToBig16(n);
    assert Slice(payload, 3, 5) == size;
    BigOfTwo(size);
    assert payload[1] == front[1] && payload[2] == front[2];
    assert payload[5..] == message;
  }

  lemma MessagePart(kind: byte, m: nat, rest: bytes, n: Word16)
    requires n >= 4 && m < 0x100_0000
    ensures var body := Slice([kind] + ToBig24(m) + rest, 0, n);
            && |body| >= 4 && body[0] == kind && FromBig(body[1..4]) == m
            && Slice(body, 4, 4 + m) == Slice(rest, 0, Least(m, n - 4))
  {
    hide FromBig, ToBig24;
    var l, h := ToBig24(m), Least(n - 4, |rest|);
    HeadOfMessage([kind] + l, rest, n);
    BigOfThree(l);
    var body := [kind] + l + rest[..h];
    assert body[1..4] == l;
    PartOfMessage([kind] + l, rest, n, m);
  }

  lemma HeadOfMessage(head: bytes, rest: bytes, n: nat)
    requires |head| == 4 <= n
    ensures Slice(head + rest, 0, n) == head + rest[..Least(n - 4, |rest|)]
  {
    assert |rest| + 4 == |head + rest|;
  }

  lemma PartOfMessage(head: bytes, rest: bytes, n: nat, m: nat)
    requires |head| == 4 <= n
    ensures Slice(head + rest[..Least(n - 4, |rest|)], 4, 4 + m) == Slice(rest, 0, Least(m, n - 4))
  {
    var h := Least(n - 4, |rest|);
    assert (head + rest[..h])[4..] == rest[..h];
    assert Slice(rest, 0, Least(m, n - 4)) == rest[..Least(m, h)];
  }

  lemma BigOfTwo(b: bytes)
    requires |b| == 2
    ensures FromBig(b) == (b[0] as int) * 256 + b[1]
  {
    assert b[..1][..0] == [] && b[..1] == [b[0]];
    assert FromBig(b[..1]) == b[0] as int;
  }

  lemma BigOfThree(b: bytes)
    requires |b| == 3
    ensures FromBig(b) == (b[0] as int) * 65536 + (b[1] as int) * 256 + b[2]
  {
    assert b[..2] == [b[0], b[1]];
    BigOfTwo(b[..2]);
  }

  /** A packet that ends before its hello does says what it is, but no name. */
  lemma CutPacketHasNoName(version: Word16, n: Word16, t: HelloText, k: nat)
    requires t.Writable() && k < |t.Body()| < 0x100_0000 && n >= 4
    ensures var rest := t.Body()[..k];
            TlsPacket.Analysis(
              [HANDSHAKE] + ToBig16(version) + ToBig16(n) + ([CLIENT_HELLO] + ToBig24(|t.Body()|) + rest))
            == Some(TlsPacket.PacketInfo(22, 1, version, None))
  {
    var rest, m := t.Body()[..k], |t.Body()|;
    PacketIsAnalyzed(version, n, CLIENT_HELLO, m, rest);
    var j := Least(Least(m, n - 4), k);
    assert Slice(rest, 0, Least(m, n - 4)) == t.Body()[..j];
    hide *;
    CutHelloHasNoName(t, j);
  }

  /** A ServerHello body of 35 bytes gives its last one as the suite, a shorter one nothing. */
  lemma CutServerHelloReads(body: bytes)
    requires |body| <= 35
    ensures ServerHello(body) == if |body| == 35 then Hello(None, [body[34]], [], []) else NO_HELLO
  {
  }

  // ------------------------------------------------------------ lists that claim another length

  /** The entries that start among the first n bytes of a name list. */
  function EntriesFrom(es: seq<Entry>, n: int): seq<Entry> {
    if es == [] || n <= 0 then [] else [es[0]] + EntriesFrom(es[1..], n - 3 - |es[0].name|)
  }

  function NamesFrom(ps: seq<Short>, n: int): seq<Short> {
    if ps == [] || n <= 0 then [] else [ps[0]] + NamesFrom(ps[1..], n - 1 - |ps[0]|)
  }

  lemma {:induction false} EntriesWithin(before: bytes, es: seq<Entry>, end: nat)
    ensures HostName(before + Entries(es), |before|, end) == FirstHost(EntriesFrom(es, end - |before| - 2))
    decreases |es|
  {
    if es != [] {
      var head, rest := [es[0].kind] + ToBig16(|es[0].name|) + es[0].name, Entries(es[1..]);
      assert before + Entries(es) == before + head + rest;
      hide Entries, Slice, ToBig16, Be16;
      EntriesWithin(before + head, es[1..], end);
      OneEntry(before, es[0], rest);
      hide FirstHost, EntriesFrom;
      FirstOfEntries(es, end - |before| - 2);
    } else {
      assert Entries(es) == [];
    }
  }

  lemma FirstOfEntries(es: seq<Entry>, n: int)
    requires es != []
    ensures FirstHost(EntriesFrom(es, n))
         == if n <= 0 then None
            else if es[0].kind == 0 then Some(es[0].name)
            else FirstHost(EntriesFrom(es[1..], n - 3 - |es[0].name|))
  {
  }

  lemma NoEntries(n: int)
    ensures EntriesFrom([], n) == []
  {
  }

  /** Of a server_name list that claims n bytes the first host among the entries that start in these is found. */
  lemma ClaimedNamesReadBack(es: seq<Entry>, n: Word16)
    ensures ServerName(ToBig16(n) + Entries(es)) == FirstHost(EntriesFrom(es, n))
  {
    hide *;
    EntriesWithin(ToBig16(n), es, 4 + n);
    NoEntries(n);
    ListIsRead(n, Entries(es));
    EntriesAreLong(es);
  }

  lemma ListIsRead(n: Word16, list: bytes)
    ensures ServerName(ToBig16(n) + list)
         == if |list| < 2 then None else HostName(ToBig16(n) + list, |ToBig16(n)|, 4 + n)
  {
    assert Be16(ToBig16(n) + list, 0) == n;
    hide HostName, Be16;
  }

  lemma EntriesAreLong(es: seq<Entry>)
    ensures if es == [] then Entries(es) == [] && FirstHost(es) == None else |Entries(es)| >= 3
  {
  }

  lemma {:induction false} NamesWithin(before: bytes, ps: seq<Short>, end: nat)
    ensures ProtocolNames(before + Names(ps), |before|, end) == NamesFrom(ps, end - |before|)
    decreases |ps|
  {
    if ps != [] {
      var head, rest := [|ps[0]|] + ps[0], Names(ps[1..]);
      assert before + Names(ps) == before + head + rest;
      hide Names, Slice;
      NamesWithin(before + head, ps[1..], end);
      OneName(before, ps[0], rest);
    } else {
      assert Names(ps) == [];
    }
  }

  /** Of a protocol list that claims n bytes the names that start in these are read. */
  lemma ClaimedProtocolsReadBack(ps: seq<Short>, n: Word16)
    ensures Protocols(ToBig16(n) + Names(ps)) == NamesFrom(ps, n)
  {
    var w := ToBig16(n);
    NamesWithin(w, ps, 2 + n);
    assert Be16(w + Names(ps), 0) == n;
    hide Names, NamesFrom, ProtocolNames, Be16;
  }

  /** A name that claims more bytes than there are is read as far as it goes. */
  lemma CutNameReadsBack(listed: Word16, n: Word16, part: bytes)
    requires listed > 0 && |part| <= n
    ensures ServerName(ToBig16(listed) + ([0] + ToBig16(n) + part)) == Some(part)
  {
    var w, l := ToBig16(n), ToBig16(listed);
    var ext := l + ([0] + w + part);
    assert ext[0] == l[0] && ext[1] == l[1] && ext[2] == 0 && ext[3] == w[0] && ext[4] == w[1];
    assert ext[5..] == part;
    assert Slice(ext, 5, 5 + n) == part;
  }

  lemma CutProtocolReadsBack(listed: Word16, n: byte, part: bytes)
    requires listed > 0 && |part| <= n
    ensures Protocols(ToBig16(listed) + ([n] + part)) == [part]
  {
    var l := ToBig16(listed);
    var ext := l + ([n] + part);
    assert ext[0] == l[0] && ext[1] == l[1] && ext[2] == n && ext[3..] == part;
    assert Slice(ext, 3, 3 + n) == part && ProtocolNames(ext, 3 + n, 2 + listed) == [];
    assert Be16(ext, 0) == listed && ProtocolNames(ext, 2, 2 + listed) == [part];
  }

  /** Versions without a length byte before them read back unless their first byte looks like one. */
  lemma BareVersionsReadBack(vs: seq<Word16>)
    requires vs == [] || vs[0] / 256 != 2 * |vs| - 1
    ensures Versions(Words(vs)) == vs
  {
    WordsReadBack(vs);
    if vs != [] {
      assert Words(vs)[0] == vs[0] / 256;
    } else {
      assert Words(vs) == [];
    }
    hide Words, Codes;
  }

  // ------------------------------------------------------------ records

  /** The whole records: one of the five types, two bytes of version, a length, and as many bytes. */
  lemma RecordIsReadIff(buf: bytes)
    ensures NextRecord(buf).Some?
       <==> |buf| >= 5 && buf[0] in {20, 21, 22, 23, 24} && |buf| >= 5 + (buf[3] as int) * 256 + buf[4]
  {
  }

  /** A handshake message other than the hellos is named, and nothing else is said of it. */
  lemma OtherMessagesAreNamed(version: nat, kind: byte, length: bytes, content: bytes)
    requires kind != CLIENT_HELLO && kind != SERVER_HELLO && |length| == 3
    ensures Decode(Record(HANDSHAKE, version, [kind] + length + content))
         == TlsInfo(HANDSHAKE, version, Some(kind), NO_HELLO, false)
  {
  }

  /** Of any other record, or one without a whole message header, only type and version are reported. */
  lemma OtherRecordsAreTyped(r: Record)
    requires r.kind != 22 || |r.body| < 4
    ensures Decode(r) == TlsInfo(r.kind, r.version, None, Hello(None, [], [], []), false)
  {
  }

  // ------------------------------------------------------------ the built hello

  /** The hello of a built record, field by field. */
  function BuiltText(name: bytes): HelloText
    requires |name| <= MAX_NAME
  {
    assert |Entries([Entry(0, name)])| == 3 + |name|;
    HelloText(0x0303, seq(32, i requires 0 <= i < 32 => i), [], CIPHERS, [0],
              [Extension(0, NameData([Entry(0, name)]))])
  }

  /** What the builder makes is the written hello of version 1.2 with one name and nothing else. */
  lemma BuiltIsWritten(name: bytes)
    requires |name| <= MAX_NAME
    ensures BuiltText(name).Writable() && BuiltText(name).Body() == HelloBody(name)
  {
    var t, data := BuiltText(name), NameData([Entry(0, name)]);
    assert Entries([Entry(0, name)]) == [0] + ToBig16(|name|) + name;
    assert data == ToBig16(3 + |name|) + ([0] + ToBig16(|name|) + name);
    assert Encoded([]) == [];
    assert Encoded(t.extensions) == ToBig16(0) + ToBig16(|data|) + data;
    assert ToBig16(0x0303) == [3, 3] && ToBig16(0) == [0, 0];
    hide Words, Entries, NameData, Encoded;
    assert t.ToCompression() + t.compression == Head();
    assert t.Body() == Head() + ToBig16(|Encoded(t.extensions)|) + Encoded(t.extensions);
    assert NameExtension(name) == Encoded(t.extensions);
  }
}
