// The name a ClientHello was built with is the name both TLS parsers read.
module HelloTheorems {
  import opened Wrappers
  import opened Bytes
  import opened TlsStream
  import opened MockHello
  import opened HelloCodec
  import TlsPacket
  import Framing

  /** The content of the server_name extension: one host name. */
  function HostData(name: bytes): bytes
    requires |name| <= MAX_NAME
  {
    assert Entries([Entry(0, name)]) == [0] + ToBig16(|name|) + name;
    NameData([Entry(0, name)])
  }

  lemma HeadFields()
    ensures var head := Head(); |head| == 49 && head[34] == 0 && head[35] == 0 && head[36] == 10 && head[47] == 1
    ensures Head()[37..47] == Words(CIPHERS)
  {
    hide Words;
  }

  lemma BodyFields(name: bytes)
    requires |name| <= MAX_NAME
    ensures var body, n := HelloBody(name), |name|;
            && At(body, 34) == 0 && Be16(body, 35) == 10 && body[37..47] == Words(CIPHERS) && At(body, 47) == 1
            && Be16(body, 49) == 9 + n && Be16(body, 51) == 0 && Be16(body, 53) == 5 + n
            && body[55..60 + n] == HostData(name)
  {
    HeadFields();
    HostDataIs(name);
    hide Head, Words, HostData;
    var body := HelloBody(name);
    assert body[..49] == Head();
    assert body[37..47] == body[..49][37..47];
  }

  lemma HostDataIs(name: bytes)
    requires |name| <= MAX_NAME
    ensures HostData(name) == ToBig16(3 + |name|) + [0] + ToBig16(|name|) + name
  {
    assert Entries([Entry(0, name)]) == [0] + ToBig16(|name|) + name;
  }

  lemma HostDataFields(name: bytes)
    requires |name| <= MAX_NAME
    ensures var data, n := HostData(name), |name|;
            |data| == 5 + n && Be16(data, 0) == 3 + n && data[2] == 0 && Be16(data, 3) == n
            && Slice(data, 5, 5 + n) == name
  {
    HostDataIs(name);
    hide HostData;
    assert HostData(name)[5..] == name;
  }

  lemma CiphersRead()
    ensures Codes(Words(CIPHERS), 0) == CIPHERS
  {
    CodesReadBack([], CIPHERS);
    assert [] + Words(CIPHERS) == Words(CIPHERS);
  }

  /** The reassembling parser reads the name and the suites, and nothing else. */
  lemma StreamReadsName(name: bytes)
    requires |name| <= MAX_NAME
    ensures TlsStream.ClientHello(HelloBody(name)) == Hello(Some(name), CIPHERS, [], [])
  {
    BodyFields(name);
    ServerNameReadsBack([Entry(0, name)]);
    CiphersRead();
    hide HelloBody, Words, Codes, ServerName;
    var body, n := HelloBody(name), |name|;
    var h := NO_HELLO.(cipherSuites := CIPHERS);
    assert Extensions(body, 60 + n, 60 + n, h.(sni := Some(name))) == h.(sni := Some(name));
    assert Extensions(body, 51, 60 + n, h) == h.(sni := Some(name));
    assert HelloTail(body, 47, h) == h.(sni := Some(name));
  }

  /** So does the parser that looks at one packet only. */
  lemma PacketReadsName(name: bytes)
    requires |name| <= MAX_NAME
    ensures TlsPacket.HelloName(HelloBody(name)) == Some(name)
  {
    BodyFields(name);
    HostDataFields(name);
    hide HelloBody, Words, HostData, Slice;
    var body, n := HelloBody(name), |name|;
    assert TlsPacket.NameOf(HostData(name)) == Some(name);
    assert TlsPacket.NameFrom(body, 51, 60 + n) == Some(name);
    assert TlsPacket.NameAfter(body, 47) == Some(name);
  }

  lemma RecordFields(name: bytes)
    requires |name| <= MAX_NAME
    ensures var r := HelloRecord(name);
            && r.body[0] == CLIENT_HELLO && FromBig(r.body[1..4]) == 60 + |name| && r.body[4..] == HelloBody(name)
            && Fits()(r)
  {
    hide HelloBody;
    var r := HelloRecord(name);
    var b := ToBig24(60 + |name|);
    assert r.body[1..4] == b && |b| == 3;
    assert b[..2][..1][..0] == [] && b[..2][..1] == [b[0]] && b[..2] == [b[0], b[1]];
    assert FromBig(b[..2][..1]) == b[0] as int;
    assert FromBig(b[..2]) == (b[0] as int) * 256 + b[1];
    assert FromBig(b) == ((b[0] as int) * 256 + b[1]) * 256 + b[2];
  }

  /**
    * Every name short enough for the length fields comes back from the record built for it: from the
    * framed stream, whatever follows the record, and from a single packet. Characters outside ASCII
    * come back as question marks.
    */
  lemma NameComesBack(sni: string, tail: bytes)
    requires |sni| <= MAX_NAME
    ensures var name := Ascii(sni);
            var wire := Serialize()(HelloRecord(name));
            && NextRecord(wire + tail) == Some((HelloRecord(name), |wire|))
            && Decode(HelloRecord(name)) == TlsInfo(HANDSHAKE, 0x0301, Some(CLIENT_HELLO), Hello(Some(name), CIPHERS,
                                                                                                 [], []), false)
            && TlsPacket.Analysis(wire + tail) == Some(TlsPacket.PacketInfo(HANDSHAKE, CLIENT_HELLO, 0x0301,
                                                                            Some(name)))
  {
    var name := Ascii(sni);
    var r := HelloRecord(name);
    RecordFields(name);
    StreamReadsName(name);
    PacketReadsName(name);
    RecordsReadBack();
    hide HelloBody, Ascii, HelloRecord;
    PacketOfRecord(r, tail);
  }

  /** A record whose body is one whole handshake message is analyzed as that message. */
  lemma PacketOfRecord(r: Record, tail: bytes)
    requires Fits()(r) && r.kind == HANDSHAKE && |r.body| >= 4 && FromBig(r.body[1..4]) == |r.body| - 4
    ensures TlsPacket.Analysis(Serialize()(r) + tail)
         == Some(TlsPacket.PacketInfo(HANDSHAKE, r.body[0], r.version,
                                      if r.body[0] == CLIENT_HELLO then TlsPacket.HelloName(r.body[4..]) else None))
  {
    hide TlsPacket.HelloName;
    var wire := Serialize()(r) + tail;
    var size := ToBig16(|r.body|);
    assert Slice(wire, 3, 5) == size;
    assert size[..1][..0] == [] && size[..1] == [size[0]];
    assert FromBig(size[..1]) == size[0] as int;
    assert FromBig(size) == |r.body|;
    assert Slice(wire, 5, 5 + |r.body|) == r.body;
    assert Slice(r.body, 4, 4 + (|r.body| - 4)) == r.body[4..];
    assert Be16(wire, 1) == r.version;
  }

  // ------------------------------------------------------------ any hello, read from one packet

  lemma {:induction false} PacketReadsEntries(before: bytes, es: seq<Entry>, listLength: nat)
    requires |before| >= 2 && 2 + listLength == |before| + |Entries(es)|
    ensures TlsPacket.NameIn(before + Entries(es), |before|, listLength) == FirstHost(es)
    decreases |es|
  {
    if es == [] {
      assert Entries(es) == [];
    } else {
      var head, rest := [es[0].kind] + ToBig16(|es[0].name|) + es[0].name, Entries(es[1..]);
      assert before + Entries(es) == before + head + rest;
      hide Entries, Slice, ToBig16, Be16;
      PacketReadsEntries(before + head, es[1..], listLength);
      OneEntry(before, es[0], rest);
    }
  }

  lemma EntriesHaveLength(es: seq<Entry>)
    ensures es != [] ==> |Entries(es)| >= 3
  {
  }

  /** Both parsers find the first host name of a written name list. */
  lemma PacketReadsNameList(es: seq<Entry>)
    requires |Entries(es)| < 0x1_0000
    ensures TlsPacket.NameOf(NameData(es)) == FirstHost(es) == ServerName(NameData(es))
  {
    ServerNameReadsBack(es);
    EntriesHaveLength(es);
    var n := ToBig16(|Entries(es)|);
    PacketReadsEntries(n, es, |Entries(es)|);
    assert NameData(es)[0] == n[0] && NameData(es)[1] == n[1];
    hide Entries;
  }

  /** The name of the first server_name extension that has one. */
  function FirstNamed(xs: seq<Extension>): Option<bytes> {
    if xs == [] then None
    else
      var name := if xs[0].kind == 0 then TlsPacket.NameOf(xs[0].data) else None;
      if name.Some? then name else FirstNamed(xs[1..])
  }

  lemma {:induction false} PacketReadsExtensions(before: bytes, xs: seq<Extension>)
    ensures var body := before + Encoded(xs); TlsPacket.NameFrom(body, |before|, |body|) == FirstNamed(xs)
    decreases |xs|
  {
    hide *;
    if xs == [] {
      NothingNamed(before);
    } else {
      var head := ToBig16(xs[0].kind) + ToBig16(|xs[0].data|) + xs[0].data;
      EncodedSplits(before, xs);
      PacketReadsExtensions(before + head, xs[1..]);
      FirstExtensionNamed(before, xs[0], Encoded(xs[1..]));
      FirstNamedSplits(xs);
    }
  }

  lemma NothingNamed(before: bytes)
    ensures var body := before + Encoded([]); TlsPacket.NameFrom(body, |before|, |body|) == FirstNamed([])
  {
    assert Encoded([]) == [];
  }

  lemma FirstExtensionNamed(before: bytes, x: Extension, after: bytes)
    ensures var head := ToBig16(x.kind) + ToBig16(|x.data|) + x.data;
            var body := before + head + after;
            var name := if x.kind == 0 then TlsPacket.NameOf(x.data) else None;
            TlsPacket.NameFrom(body, |before|, |body|)
            == if name.Some? then name else TlsPacket.NameFrom(body, |before + head|, |body|)
  {
    OneExtension(before, x, after);
    hide ToBig16, Be16, TlsPacket.NameOf;
  }

  lemma FirstNamedSplits(xs: seq<Extension>)
    requires xs != []
    ensures var name := if xs[0].kind == 0 then TlsPacket.NameOf(xs[0].data) else None;
            FirstNamed(xs) == if name.Some? then name else FirstNamed(xs[1..])
  {
    hide TlsPacket.NameOf;
  }

  /** The packet parser on any written hello: the name of its first server_name extension that has one. */
  lemma PacketReadsHello(t: HelloText)
    requires t.Writable()
    ensures TlsPacket.HelloName(t.Body()) == FirstNamed(t.extensions)
  {
    hide Words, Encoded, Be16, TlsPacket.NameFrom, FirstNamed, TlsPacket.NameOf;
    BodyParts(t);
    PacketReadsExtensions(t.ToExtensions(), t.extensions);
    var body, off := t.Body(), 37 + |t.session| + 2 * |t.suites|;
    assert TlsPacket.NameAfter(body, off) == FirstNamed(t.extensions);
  }

  /** Every server_name extension holds a written name list. */
  ghost predicate NamesWritten(xs: seq<Extension>) {
    forall i :: 0 <= i < |xs| && xs[i].kind == 0 ==>
                  exists es :: |Entries(es)| < 0x1_0000 && xs[i].data == NameData(es)
  }

  /** What each server_name extension names, in order. */
  function Hosts(xs: seq<Extension>): seq<Option<bytes>> {
    if xs == [] then []
    else (if xs[0].kind == 0 then [TlsPacket.NameOf(xs[0].data)] else []) + Hosts(xs[1..])
  }

  /** The last server_name extension names what the first one that names anything does. */
  predicate LastNamesFirst(hosts: seq<Option<bytes>>) {
    hosts == [] || hosts[|hosts| - 1] == FirstOf(hosts)
  }

  function FirstOf(hosts: seq<Option<bytes>>): Option<bytes> {
    if hosts == [] then None else if hosts[0].Some? then hosts[0] else FirstOf(hosts[1..])
  }

  lemma {:induction false} FirstNamedIs(xs: seq<Extension>)
    ensures FirstNamed(xs) == FirstOf(Hosts(xs))
    decreases |xs|
  {
    hide TlsPacket.NameOf;
    if xs != [] {
      FirstNamedIs(xs[1..]);
      var rest := Hosts(xs[1..]);
      if xs[0].kind == 0 {
        assert Hosts(xs) == [TlsPacket.NameOf(xs[0].data)] + rest && Hosts(xs)[1..] == rest;
      } else {
        assert Hosts(xs) == [] + rest == rest;
      }
    }
  }

  lemma {:induction false} LastHostIs(xs: seq<Extension>)
    requires NamesWritten(xs)
    ensures LastOf(xs, 0).Some? <==> Hosts(xs) != []
    ensures LastOf(xs, 0).Some? ==> ServerName(LastOf(xs, 0).value) == Hosts(xs)[|Hosts(xs)| - 1]
    decreases |xs|
  {
    hide TlsPacket.NameOf, ServerName, NameData, Entries;
    if xs != [] {
      assert NamesWritten(xs[1..]);
      LastHostIs(xs[1..]);
      var rest := Hosts(xs[1..]);
      if xs[0].kind == 0 {
        var es :| |Entries(es)| < 0x1_0000 && xs[0].data == NameData(es);
        PacketReadsNameList(es);
        assert Hosts(xs) == [TlsPacket.NameOf(xs[0].data)] + rest;
      } else {
        assert Hosts(xs) == [] + rest == rest;
      }
    }
  }

  /**
    * On a hello whose server_name extensions hold name lists, the packet parser and the stream parser report the
    * same name exactly when the last of these extensions names what the first naming one does; with at most one
    * of them, as section 4.2 of RFC 8446 demands, they always do.
    */
  lemma ParsersAgreeIff(t: HelloText)
    requires t.Writable() && NamesWritten(t.extensions)
    ensures TlsPacket.HelloName(t.Body()) == ClientHello(t.Body()).sni <==> LastNamesFirst(Hosts(t.extensions))
    ensures |Hosts(t.extensions)| <= 1 ==> LastNamesFirst(Hosts(t.extensions))
  {
    hide *;
    PacketReadsHello(t);
    WrittenHelloReadsBack(t);
    LastExtensionDecides(t.extensions, Hello(None, t.suites, [], []));
    FirstNamedIs(t.extensions);
    LastHostIs(t.extensions);
    LastNamesMeans(Hosts(t.extensions));
  }

  lemma LastNamesMeans(hosts: seq<Option<bytes>>)
    ensures LastNamesFirst(hosts) <==> FirstOf(hosts) == if hosts == [] then None else hosts[|hosts| - 1]
    ensures |hosts| <= 1 ==> LastNamesFirst(hosts)
  {
    if |hosts| == 1 {
      assert FirstOf(hosts[1..]) == None;
    }
  }

  /** With two server_name extensions one parser reports the first name given, the other the second list's. */
  lemma TwoNameLists(t: HelloText, es: seq<Entry>, fs: seq<Entry>)
    requires t.Writable() && |Entries(es)| < 0xFFFE && |Entries(fs)| < 0xFFFE
    requires t.extensions == [Extension(0, NameData(es)), Extension(0, NameData(fs))]
    ensures TlsPacket.HelloName(t.Body()) == if FirstHost(es).Some? then FirstHost(es) else FirstHost(fs)
    ensures ClientHello(t.Body()).sni == FirstHost(fs)
  {
    hide *;
    PacketReadsHello(t);
    WrittenHelloReadsBack(t);
    LastExtensionDecides(t.extensions, Hello(None, t.suites, [], []));
    PacketReadsNameList(es);
    PacketReadsNameList(fs);
    TwoExtensions(t.extensions[0], t.extensions[1]);
  }

  lemma TwoExtensions(x: Extension, y: Extension)
    requires x.kind == 0 && y.kind == 0
    ensures LastOf([x, y], 0) == Some(y.data)
    ensures var name := TlsPacket.NameOf(x.data);
            FirstNamed([x, y]) == if name.Some? then name else TlsPacket.NameOf(y.data)
  {
    hide TlsPacket.NameOf;
    assert [x, y][1..] == [y] && [y][1..] == [];
    assert LastOf([y], 0) == Some(y.data) && LastOf([], 0) == None;
    assert FirstNamed([]) == None;
  }

  /** Example: a hello naming "a" and then "b". */
  lemma ParsersCanDisagree(t: HelloText)
    requires t.Writable()
    requires t.extensions == [Extension(0, [0, 4, 0, 0, 1, 97]), Extension(0, [0, 4, 0, 0, 1, 98])]
    ensures TlsPacket.HelloName(t.Body()) == Some([97]) && ClientHello(t.Body()).sni == Some([98])
  {
    hide TlsPacket.HelloName, ClientHello, Encoded;
    OneLetter(97);
    OneLetter(98);
    TwoNameLists(t, [Entry(0, [97])], [Entry(0, [98])]);
  }

  lemma OneLetter(c: byte)
    ensures |Entries([Entry(0, [c])])| == 4 && NameData([Entry(0, [c])]) == [0, 4, 0, 0, 1, c]
    ensures FirstHost([Entry(0, [c])]) == Some([c])
  {
    assert Entries([Entry(0, [c])]) == [0] + ToBig16(1) + [c];
    assert ToBig16(1) == [0, 1] && ToBig16(4) == [0, 4];
  }
}
