// The ClientHello as section 4.1.2 of RFC 8446 writes it, and what the hello reader makes of it:
// any cipher suites, session id, compression methods and extensions, in any order.
module HelloCodec {
  import opened Wrappers
  import opened Bytes
  import opened TlsStream

  /** Values and byte strings that fit their length fields. */
  type Word16 = x: int | 0 <= x < 0x1_0000
  type Short = b: bytes | |b| < 0x100
  type Long = b: bytes | |b| < 0x1_0000

  // ------------------------------------------------------------ lists of fields

  function Words(vs: seq<Word16>): (b: bytes)
    ensures |b| == 2 * |vs|
  {
    if vs == [] then [] else ToBig16(vs[0]) + Words(vs[1..])
  }

  lemma {:induction false} CodesReadBack(before: bytes, vs: seq<Word16>)
    ensures Codes(before + Words(vs), |before|) == vs
    decreases |vs|
  {
    if vs != [] {
      var w, data := ToBig16(vs[0]), before + Words(vs);
      assert data == (before + w) + Words(vs[1..]);
      CodesReadBack(before + w, vs[1..]);
      assert data[|before|] == w[0] && data[|before| + 1] == w[1];
      assert Be16(data, |before|) == vs[0] && [vs[0]] + vs[1..] == vs;
      hide Words;
    } else {
      assert Words(vs) == [];
    }
  }

  /** Length-prefixed protocol names (section 3.1 of RFC 7301). */
  function Names(ps: seq<Short>): bytes {
    if ps == [] then [] else [|ps[0]|] + ps[0] + Names(ps[1..])
  }

  function AlpnData(ps: seq<Short>): bytes
    requires |Names(ps)| < 0x1_0000
  {
    ToBig16(|Names(ps)|) + Names(ps)
  }

  lemma {:induction false} NamesReadBack(before: bytes, ps: seq<Short>)
    ensures var ext := before + Names(ps); ProtocolNames(ext, |before|, |ext|) == ps
    decreases |ps|
  {
    if ps != [] {
      var head, rest := [|ps[0]|] + ps[0], Names(ps[1..]);
      assert before + Names(ps) == before + head + rest;
      hide Names, Slice;
      NamesReadBack(before + head, ps[1..]);
      OneName(before, ps[0], rest);
    } else {
      assert Names(ps) == [];
    }
  }

  lemma OneName(before: bytes, p: Short, after: bytes)
    ensures var ext := before + ([|p|] + p) + after;
            ext[|before|] == |p| && Slice(ext, |before| + 1, |before| + 1 + |p|) == p
  {
  }

  lemma ProtocolsReadBack(ps: seq<Short>)
    requires |Names(ps)| < 0x1_0000
    ensures Protocols(AlpnData(ps)) == ps
  {
    var n := ToBig16(|Names(ps)|);
    NamesReadBack(n, ps);
    assert AlpnData(ps)[0] == n[0] && AlpnData(ps)[1] == n[1];
    hide Names;
  }

  /** Supported versions (section 4.2.1 of RFC 8446): a one-byte length, then the codes. */
  function VersionData(vs: seq<Word16>): bytes
    requires |vs| < 128
  {
    [2 * |vs|] + Words(vs)
  }

  lemma VersionsReadBack(vs: seq<Word16>)
    requires |vs| < 128
    ensures Versions(VersionData(vs)) == vs
  {
    CodesReadBack([2 * |vs|], vs);
    hide Words, Codes;
  }

  /** An entry of a server name list (section 3 of RFC 6066); type 0 is a host name. */
  datatype Entry = Entry(kind: byte, name: Long)

  function Entries(es: seq<Entry>): bytes {
    if es == [] then [] else [es[0].kind] + ToBig16(|es[0].name|) + es[0].name + Entries(es[1..])
  }

  function NameData(es: seq<Entry>): bytes
    requires |Entries(es)| < 0x1_0000
  {
    ToBig16(|Entries(es)|) + Entries(es)
  }

  function FirstHost(es: seq<Entry>): Option<bytes> {
    if es == [] then None else if es[0].kind == 0 then Some(es[0].name) else FirstHost(es[1..])
  }

  lemma OneEntry(before: bytes, e: Entry, after: bytes)
    ensures var ext := before + ([e.kind] + ToBig16(|e.name|) + e.name) + after;
            && ext[|before|] == e.kind && Be16(ext, |before| + 1) == |e.name|
            && Slice(ext, |before| + 3, |before| + 3 + |e.name|) == e.name
  {
    var w, ext := ToBig16(|e.name|), before + ([e.kind] + ToBig16(|e.name|) + e.name) + after;
    assert ext[|before| + 1] == w[0] && ext[|before| + 2] == w[1];
    assert ext[|before| + 3..|before| + 3 + |e.name|] == e.name;
  }

  lemma {:induction false} EntriesReadBack(before: bytes, es: seq<Entry>, end: nat)
    requires end >= |before| + |Entries(es)|
    ensures HostName(before + Entries(es), |before|, end) == FirstHost(es)
    decreases |es|
  {
    if es != [] {
      var head, rest := [es[0].kind] + ToBig16(|es[0].name|) + es[0].name, Entries(es[1..]);
      assert before + Entries(es) == before + head + rest;
      hide Entries, Slice, ToBig16, Be16;
      EntriesReadBack(before + head, es[1..], end);
      OneEntry(before, es[0], rest);
    } else {
      assert Entries(es) == [];
    }
  }

  /** The reader finds the first host name of the list, whatever stands before it. */
  lemma ServerNameReadsBack(es: seq<Entry>)
    requires |Entries(es)| < 0x1_0000
    ensures ServerName(NameData(es)) == FirstHost(es)
  {
    var n := ToBig16(|Entries(es)|);
    EntriesReadBack(n, es, 4 + |Entries(es)|);
    assert NameData(es)[0] == n[0] && NameData(es)[1] == n[1];
    if es != [] {
      assert |Entries(es)| >= 3;
    }
    hide Entries;
  }

  // ------------------------------------------------------------ extensions

  datatype Extension = Extension(kind: Word16, data: Long)

  function Encoded(xs: seq<Extension>): bytes {
    if xs == [] then [] else ToBig16(xs[0].kind) + ToBig16(|xs[0].data|) + xs[0].data + Encoded(xs[1..])
  }

  /** What the extensions say, a later one of a kind overriding an earlier. */
  function Applied(xs: seq<Extension>, h: Hello): Hello {
    if xs == [] then h else Applied(xs[1..], WithExtension(h, xs[0].kind, xs[0].data))
  }

  lemma OneExtension(before: bytes, x: Extension, after: bytes)
    ensures var body := before + (ToBig16(x.kind) + ToBig16(|x.data|) + x.data) + after;
            var off := |before|;
            Be16(body, off) == x.kind && Be16(body, off + 2) == |x.data| && body[off + 4..off + 4 + |x.data|] == x.data
  {
    var k, n := ToBig16(x.kind), ToBig16(|x.data|);
    var body, off := before + (k + n + x.data) + after, |before|;
    assert body[off] == k[0] && body[off + 1] == k[1] && body[off + 2] == n[0] && body[off + 3] == n[1];
  }

  lemma {:induction false} ExtensionsReadBack(before: bytes, xs: seq<Extension>, h: Hello)
    ensures var body := before + Encoded(xs); Extensions(body, |before|, |body|, h) == Applied(xs, h)
    decreases |xs|
  {
    if xs == [] {
      NoExtensions(before, h);
    } else {
      hide *;
      var head := ToBig16(xs[0].kind) + ToBig16(|xs[0].data|) + xs[0].data;
      EncodedSplits(before, xs);
      ExtensionsReadBack(before + head, xs[1..], WithExtension(h, xs[0].kind, xs[0].data));
      FirstExtension(before, xs[0], Encoded(xs[1..]), h);
      AppliedSplits(xs, h);
    }
  }

  lemma NoExtensions(before: bytes, h: Hello)
    ensures var body := before + Encoded([]); Extensions(body, |before|, |body|, h) == Applied([], h)
  {
    assert Encoded([]) == [];
  }

  lemma EncodedSplits(before: bytes, xs: seq<Extension>)
    requires xs != []
    ensures before + Encoded(xs)
         == before + (ToBig16(xs[0].kind) + ToBig16(|xs[0].data|) + xs[0].data) + Encoded(xs[1..])
  {
    hide ToBig16;
  }

  lemma AppliedSplits(xs: seq<Extension>, h: Hello)
    requires xs != []
    ensures Applied(xs, h) == Applied(xs[1..], WithExtension(h, xs[0].kind, xs[0].data))
  {
    hide WithExtension;
  }

  lemma FirstExtension(before: bytes, x: Extension, after: bytes, h: Hello)
    ensures var head := ToBig16(x.kind) + ToBig16(|x.data|) + x.data;
            var body := before + head + after;
            Extensions(body, |before|, |body|, h)
            == Extensions(body, |before + head|, |body|, WithExtension(h, x.kind, x.data))
  {
    OneExtension(before, x, after);
    hide ToBig16, Be16, WithExtension;
  }

  // ------------------------------------------------------------ the whole hello

  /** Everything a hello says; the session id and compression methods are skipped by the reader. */
  datatype HelloText = HelloText(
    version: Word16, random: bytes, session: Short, suites: seq<Word16>, compression: Short, extensions: seq<Extension>)
  {
    predicate Writable() { |random| == 32 && |suites| < 0x8000 && |Encoded(extensions)| < 0x1_0000 }

    function Front(): bytes
      requires Writable()
    {
      ToBig16(version) + random + [|session|]
    }

    function ToSuites(): bytes
      requires Writable()
    {
      Front() + session + ToBig16(2 * |suites|)
    }

    function ToCompression(): bytes
      requires Writable()
    {
      ToSuites() + Words(suites) + [|compression|]
    }

    function ToExtensions(): bytes
      requires Writable()
    {
      ToCompression() + compression + ToBig16(|Encoded(extensions)|)
    }

    function Body(): bytes
      requires Writable()
    {
      ToExtensions() + Encoded(extensions)
    }
  }

  lemma WordAtEnd(a: bytes, n: nat, rest: bytes)
    requires n < 0x1_0000
    ensures var data := (a + ToBig16(n)) + rest; Be16(data, |a|) == n
  {
    var w, data := ToBig16(n), (a + ToBig16(n)) + rest;
    assert data[|a|] == w[0] && data[|a| + 1] == w[1];
  }

  /** The parts of a body, each at its place. */
  lemma BodyParts(t: HelloText)
    requires t.Writable()
    ensures var body, sid := t.Body(), 35 + |t.session|;
            var off := sid + 2 + 2 * |t.suites|;
            var ext := off + 1 + |t.compression|;
            && |body| == ext + 2 + |Encoded(t.extensions)|
            && At(body, 34) == |t.session| && Be16(body, sid) == 2 * |t.suites|
            && body[sid + 2..off] == Words(t.suites)
            && At(body, off) == |t.compression| && Be16(body, ext) == |Encoded(t.extensions)|
            && body == t.ToExtensions() + Encoded(t.extensions) && |t.ToExtensions()| == ext + 2
  {
    hide Words, Encoded, Be16;
    var body, x := t.Body(), Encoded(t.extensions);
    var n := ToBig16(|x|);
    var afterCompression := t.compression + (n + x);
    var afterSuites := Words(t.suites) + ([|t.compression|] + afterCompression);
    assert body == (t.ToCompression() + t.compression + n) + x;
    WordAtEnd(t.ToCompression() + t.compression, |x|, x);
    assert body == t.ToCompression() + afterCompression;
    assert body == t.ToSuites() + afterSuites;
    WordAtEnd(t.Front() + t.session, 2 * |t.suites|, afterSuites);
    assert body == t.Front() + (t.session + (ToBig16(2 * |t.suites|) + afterSuites));
    assert body[34] == t.Front()[34];
    assert body[|t.ToSuites()|..|t.ToSuites()| + |Words(t.suites)|] == Words(t.suites);
    assert body[|t.ToCompression()| - 1] == t.ToCompression()[|t.ToCompression()| - 1];
  }

  /**
    * The hello reader on a written hello: the cipher suites as they are, and of the extensions exactly what
    * the names, protocols and versions among them say, unknown extensions and session ids notwithstanding.
    */
  lemma WrittenHelloReadsBack(t: HelloText)
    requires t.Writable()
    ensures ClientHello(t.Body()) == Applied(t.extensions, Hello(None, t.suites, [], []))
  {
    hide Words, Encoded, Extensions, Codes, Applied, Be16;
    BodyParts(t);
    CodesReadBack([], t.suites);
    assert [] + Words(t.suites) == Words(t.suites);
    ExtensionsReadBack(t.ToExtensions(), t.extensions, Hello(None, t.suites, [], []));
    var body, sid := t.Body(), 35 + |t.session|;
    var off := sid + 2 + 2 * |t.suites|;
    assert HelloTail(body, off, Hello(None, t.suites, [], [])) == Applied(t.extensions, Hello(None, t.suites, [], []));
  }

  /** The data of the last extension of a kind. */
  function LastOf(xs: seq<Extension>, kind: Word16): Option<bytes> {
    if xs == [] then None
    else
      var later := LastOf(xs[1..], kind);
      if later.Some? then later else if xs[0].kind == kind then Some(xs[0].data) else None
  }

  /** Of each kind the reader knows the last extension decides, whatever stands around it and in whatever order. */
  lemma {:induction false} LastExtensionDecides(xs: seq<Extension>, h: Hello)
    ensures var name, alpn, versions := LastOf(xs, 0), LastOf(xs, 16), LastOf(xs, 43);
            && Applied(xs, h).sni == (if name.Some? then ServerName(name.value) else h.sni)
            && Applied(xs, h).alpn == (if alpn.Some? then Protocols(alpn.value) else h.alpn)
            && Applied(xs, h).versions == (if versions.Some? then Versions(versions.value) else h.versions)
            && Applied(xs, h).cipherSuites == h.cipherSuites
    decreases |xs|
  {
    if xs != [] {
      hide ServerName, Protocols, Versions;
      LastExtensionDecides(xs[1..], WithExtension(h, xs[0].kind, xs[0].data));
    }
  }

  /**
    * A hello whose last extension of each kind the reader knows was written from a name list, a protocol list
    * and a version list reads back as written.
    */
  lemma HelloFieldsReadBack(t: HelloText, es: seq<Entry>, ps: seq<Short>, vs: seq<Word16>)
    requires t.Writable() && |Entries(es)| < 0x1_0000 && |Names(ps)| < 0x1_0000 && |vs| < 128
    requires LastOf(t.extensions, 0) == Some(NameData(es)) && LastOf(t.extensions, 16) == Some(AlpnData(ps))
    requires LastOf(t.extensions, 43) == Some(VersionData(vs))
    ensures ClientHello(t.Body()) == Hello(FirstHost(es), t.suites, ps, vs)
  {
    WrittenHelloReadsBack(t);
    ServerNameReadsBack(es);
    ProtocolsReadBack(ps);
    VersionsReadBack(vs);
    hide *;
    LastExtensionDecides(t.extensions, Hello(None, t.suites, [], []));
  }

  /** The record of a written hello, as far as its type, message type and body go. */
  function WrittenRecord(version: nat, t: HelloText): Record
    requires t.Writable() && |t.Body()| < 0x100_0000
  {
    Record(HANDSHAKE, version, [CLIENT_HELLO] + ToBig24(|t.Body()|) + t.Body())
  }

  /**
    * A client hello's record is reported as TLS 1.3 exactly when its last versions extension lists version
    * 1.3; without such an extension it is not.
    */
  lemma Tls13IsAnnouncedIff(version: nat, t: HelloText, vs: Option<seq<Word16>>)
    requires t.Writable() && |t.Body()| < 0x100_0000 && (vs.Some? ==> |vs.value| < 128)
    requires LastOf(t.extensions, 43) == if vs.Some? then Some(VersionData(vs.value)) else None
    ensures var info := Decode(WrittenRecord(version, t));
            && info.hello == ClientHello(t.Body()) && info.kind == HANDSHAKE && info.version == version
            && info.handshake == Some(CLIENT_HELLO)
            && (info.tls13 <==> vs.Some? && TLS_1_3 in vs.value)
  {
    WrittenHelloReadsBack(t);
    if vs.Some? {
      VersionsReadBack(vs.value);
    }
    var body := WrittenRecord(version, t).body;
    assert body[4..] == t.Body() && body[0] == CLIENT_HELLO;
    hide VersionData, Versions, ClientHello, Encoded, Applied, LastOf;
    LastExtensionDecides(t.extensions, Hello(None, t.suites, [], []));
  }

  // ------------------------------------------------------------ server hello

  /** A ServerHello (section 4.1.3 of RFC 8446): the cipher suite stands behind the echoed session id. */
  function ServerBody(version: Word16, random: bytes, session: Short, suite: Word16, rest: bytes): bytes
    requires |random| == 32
  {
    ToBig16(version) + random + [|session|] + (session + (ToBig16(suite) + rest))
  }

  /** The record of a written answer, whatever length the message claims. */
  function ServerRecord(version: Word16, random: bytes, session: Short, suite: Word16, rest: bytes, length: bytes)
    : Record
    requires |random| == 32 && |length| == 3
  {
    Record(HANDSHAKE, version, [SERVER_HELLO] + length + ServerBody(version, random, session, suite, rest))
  }

  /**
    * A ServerHello's record is reported as that message and nothing but a cipher suite is read from it. The
    * reader takes the two bytes at offset 34, the session id's length and the byte behind it, for the suite:
    * it reports the suite of the message exactly when those bytes happen to spell it.
    */
  lemma ServerSuiteReadsBackIff(
      version: Word16, random: bytes, session: Short, suite: Word16, rest: bytes, length: bytes)
    requires |random| == 32 && |length| == 3
    ensures var info := Decode(ServerRecord(version, random, session, suite, rest, length));
            && info.kind == HANDSHAKE && info.version == version && info.handshake == Some(SERVER_HELLO)
            && info.hello == NO_HELLO.(cipherSuites := info.hello.cipherSuites) && !info.tls13
            && (info.hello.cipherSuites == [suite]
                <==> suite / 256 == |session|
                     && suite % 256 == if session == [] then suite / 256 else session[0])
  {
    var w, body := ToBig16(suite), ServerBody(version, random, session, suite, rest);
    assert body[34] == |session|;
    assert body[35] == if session == [] then w[0] else session[0];
    assert w[0] == suite / 256;
    var record := ServerRecord(version, random, session, suite, rest, length).body;
    assert record[0] == SERVER_HELLO && record[4..] == body;
  }

  /** An ordinary answer, AES-128-GCM with an empty session id, is reported as suite 0x0013. */
  lemma ServerSuiteIsMisread(random: bytes, length: bytes)
    requires |random| == 32 && |length| == 3
    ensures Decode(ServerRecord(0x0303, random, [], 0x1301, [0], length)).hello.cipherSuites == [0x0013]
  {
    var body := ServerBody(0x0303, random, [], 0x1301, [0]);
    assert ToBig16(0x1301) == [0x13, 0x01];
    assert body[34] == 0 && body[35] == 0x13;
    var record := ServerRecord(0x0303, random, [], 0x1301, [0], length).body;
    assert record[0] == SERVER_HELLO && record[4..] == body;
  }

  /** Without a session id only the null suite is reported as it is. */
  lemma ServerSuiteWithoutSession(version: Word16, random: bytes, suite: Word16, rest: bytes, length: bytes)
    requires |random| == 32 && |length| == 3
    ensures Decode(ServerRecord(version, random, [], suite, rest, length)).hello.cipherSuites == [suite]
       <==> suite == 0
  {
    ServerSuiteReadsBackIff(version, random, [], suite, rest, length);
    hide *;
  }
}
