// TLS records and hello messages read from a reassembled stream
// (record layer of section 5.1 of RFC 8446).
module TlsStream {
  import opened Wrappers
  import opened Bytes
  import opened Framing

  const MAX_RECORD := 0x10_0000

  const CLIENT_HELLO: byte := 1
  const SERVER_HELLO: byte := 2
  const HANDSHAKE: byte := 22
  const TLS_1_3 := 0x0304

  /** A whole record as it lies in the stream. */
  datatype Record = Record(kind: byte, version: nat, body: bytes)

  /** What a hello message announces; names and protocols are kept as their bytes. */
  datatype Hello = Hello(sni: Option<bytes>, cipherSuites: seq<nat>, alpn: seq<bytes>, versions: seq<nat>)

  const NO_HELLO := Hello(None, [], [], [])

  /** One decoded record; `handshake` is the message type when the record carries a message. */
  datatype TlsInfo = TlsInfo(kind: byte, version: nat, handshake: Option<byte>, hello: Hello, tls13: bool)

  // ------------------------------------------------------------ hello bodies

  /** The 16-bit values at i, i + 2, ... that lie wholly inside `data`. */
  function Codes(data: bytes, i: nat): seq<nat>
    decreases |data| - i
  {
    if i + 2 <= |data| then [Be16(data, i)] + Codes(data, i + 2) else []
  }

  /** The first host name at or after `pos` in a server_name extension whose list ends at `end`. */
  function HostName(ext: bytes, pos: nat, end: nat): Option<bytes>
    decreases |ext| - pos
  {
    if pos + 3 <= end && pos + 3 <= |ext| then
      var n := Be16(ext, pos + 1);
      if ext[pos] == 0 then Some(Slice(ext, pos + 3, pos + 3 + n)) else HostName(ext, pos + 3 + n, end)
    else None
  }

  function ServerName(ext: bytes): Option<bytes> {
    if |ext| < 4 then None else HostName(ext, 2, 4 + Be16(ext, 0))
  }

  /** The protocol names at or after `pos` in an ALPN extension whose list ends at `end`. */
  function ProtocolNames(ext: bytes, pos: nat, end: nat): seq<bytes>
    decreases |ext| - pos
  {
    if pos + 1 <= end && pos + 1 <= |ext| then
      [Slice(ext, pos + 1, pos + 1 + ext[pos])] + ProtocolNames(ext, pos + 1 + ext[pos], end)
    else []
  }

  function Protocols(ext: bytes): seq<bytes> {
    if |ext| < 2 then [] else ProtocolNames(ext, 2, 2 + Be16(ext, 0))
  }

  function Versions(ext: bytes): seq<nat> {
    if ext == [] then [] else Codes(ext, if ext[0] == |ext| - 1 then 1 else 0)
  }

  function WithExtension(h: Hello, kind: nat, ext: bytes): Hello {
    if kind == 0 then h.(sni := ServerName(ext))
    else if kind == 16 then h.(alpn := Protocols(ext))
    else if kind == 43 then h.(versions := Versions(ext))
    else h
  }

  /** The extensions from `off` to `end`; an extension that overruns `end` stops the walk. */
  function Extensions(body: bytes, off: nat, end: nat, h: Hello): Hello
    requires end <= |body|
    decreases end - off
  {
    if off + 4 <= end then
      var n := Be16(body, off + 2);
      if off + 4 + n > end then h
      else Extensions(body, off + 4 + n, end, WithExtension(h, Be16(body, off), body[off + 4..off + 4 + n]))
    else h
  }

  /** From the compression methods on. */
  function HelloTail(body: bytes, off: nat, h: Hello): Hello {
    if off + 1 > |body| then h
    else
      var ext := off + 1 + body[off];
      if ext + 2 > |body| then h
      else
        var end := ext + 2 + Be16(body, ext);
        if end > |body| then h else Extensions(body, ext + 2, end, h)
  }

  function ClientHello(body: bytes): Hello {
    if 34 + 1 > |body| then NO_HELLO
    else
      var off := 35 + At(body, 34);
      if off + 2 > |body| then NO_HELLO
      else
        var total := Be16(body, off);
        if off + 2 + total > |body| then NO_HELLO
        else
          HelloTail(body, off + 2 + total, NO_HELLO.(cipherSuites := Codes(body[off + 2..off + 2 + total], 0)))
  }

  function ServerHello(body: bytes): Hello {
    if |body| < 35 then NO_HELLO
    else if |body| == 35 then NO_HELLO.(cipherSuites := [body[34]])
    else NO_HELLO.(cipherSuites := [Be16(body, 34)])
  }

  function Decode(r: Record): TlsInfo {
    if r.kind != HANDSHAKE || |r.body| < 4 then TlsInfo(r.kind, r.version, None, NO_HELLO, false)
    else
      var msg := r.body[0];
      var hello := if msg == CLIENT_HELLO then ClientHello(r.body[4..])
                   else if msg == SERVER_HELLO then ServerHello(r.body[4..])
                   else NO_HELLO;
      TlsInfo(r.kind, r.version, Some(msg), hello, msg == CLIENT_HELLO && TLS_1_3 in hello.versions)
  }

  function DecodeAll(rs: seq<Record>): seq<TlsInfo> {
    if rs == [] then [] else [Decode(rs[0])] + DecodeAll(rs[1..])
  }

  // ------------------------------------------------------------ record framing

  predicate RecordType(b: byte) { 20 <= b <= 24 }

  /** The first whole record of a buffer and its size; None on a partial record and on garbage. */
  function NextRecord(buf: bytes): Option<(Record, nat)> {
    if |buf| < 5 || !RecordType(buf[0]) then None
    else
      var size := 5 + Be16(buf, 3);
      if |buf| < size then None else Some((Record(buf[0], Be16(buf, 1), buf[5..size]), size))
  }

  function Fits(): Record -> bool {
    (r: Record) => RecordType(r.kind) && r.version < 0x1_0000 && |r.body| < 0x1_0000
  }

  /** A record on the wire. */
  function Serialize(): Record -> bytes {
    (r: Record) =>
      if r.version < 0x1_0000 && |r.body| < 0x1_0000 then [r.kind] + ToBig16(r.version) + ToBig16(|r.body|) + r.body
      else []
  }

  lemma RecordsProgress()
    ensures Progresses(NextRecord)
  {
  }

  lemma RecordsArePrefixStable()
    ensures PrefixStable(NextRecord)
  {
    forall a: bytes, b: bytes | NextRecord(a).Some? ensures NextRecord(a + b) == NextRecord(a) {
      var size := 5 + Be16(a, 3);
      assert (a + b)[5..size] == a[5..size];
    }
  }

  lemma RecordsReadBack()
    ensures ReadsBack(NextRecord, Serialize(), Fits())
  {
    forall r: Record, tail: bytes | Fits()(r)
      ensures NextRecord(Serialize()(r) + tail) == Some((r, |Serialize()(r)|))
    {
      var wire := Serialize()(r);
      var buf := wire + tail;
      assert buf[0] == r.kind && Be16(buf, 1) == r.version && Be16(buf, 3) == |r.body|;
      assert buf[5..5 + |r.body|] == r.body;
    }
  }

  lemma RecordsReadOnlyEncodings()
    ensures ReadsOnlyEncodings(NextRecord, Serialize(), Fits())
  {
    forall b | NextRecord(b).Some?
      ensures var (r, n) := NextRecord(b).value; 0 < n <= |b| && Fits()(r) && Serialize()(r) == b[..n]
    {
      var (r, n) := NextRecord(b).value;
      var wire := Serialize()(r);
      assert wire[0] == b[0] && wire[1] == b[1] && wire[2] == b[2] && wire[3] == b[3] && wire[4] == b[4];
      assert wire == b[..n];
    }
  }

  // ------------------------------------------------------------ the parser

  /** The whole records at the front of a buffer, and what is left. */
  function Records(buf: bytes): (f: Framed<Record>) {
    RecordsProgress();
    Extract(NextRecord, buf)
  }

  lemma {:induction false} DecodeAllAppends(a: seq<Record>, b: seq<Record>)
    ensures DecodeAll(a + b) == DecodeAll(a) + DecodeAll(b)
    decreases |a|
  {
    if a == [] {
      assert a + b == b;
    } else {
      DecodeAllAppends(a[1..], b);
      assert (a + b)[1..] == a[1..] + b;
    }
  }

  lemma RecordsStep(buf: bytes)
    requires NextRecord(buf).Some?
    ensures var (r, n) := NextRecord(buf).value;
            var f := Records(buf[n..]);
            Records(buf) == Framed([r] + f.items, f.rest)
  {
  }

  lemma RecordsStuck(buf: bytes)
    requires NextRecord(buf).None?
    ensures Records(buf) == Framed([], buf)
  {
  }

  method ReadCodes(data: bytes, start: nat) returns (codes: seq<nat>)
    ensures codes == Codes(data, start)
  {
    codes := [];
    var i := start;
    while i + 2 <= |data|
      invariant codes + Codes(data, i) == Codes(data, start)
      decreases |data| - i
    {
      codes := codes + [Be16(data, i)];
      i := i + 2;
    }
  }

  method ReadServerName(ext: bytes) returns (name: Option<bytes>)
    ensures name == ServerName(ext)
  {
    if |ext| < 4 {
      return None;
    }
    var end, pos := 4 + Be16(ext, 0), 2;
    while pos + 3 <= end && pos + 3 <= |ext|
      invariant HostName(ext, pos, end) == ServerName(ext)
      decreases |ext| - pos
    {
      var n := Be16(ext, pos + 1);
      if ext[pos] == 0 {
        return Some(Slice(ext, pos + 3, pos + 3 + n));
      }
      pos := pos + 3 + n;
    }
    return None;
  }

  method ReadProtocols(ext: bytes) returns (names: seq<bytes>)
    ensures names == Protocols(ext)
  {
    names := [];
    if |ext| < 2 {
      return;
    }
    var end, pos := 2 + Be16(ext, 0), 2;
    while pos + 1 <= end && pos + 1 <= |ext|
      invariant names + ProtocolNames(ext, pos, end) == Protocols(ext)
      decreases |ext| - pos
    {
      names := names + [Slice(ext, pos + 1, pos + 1 + ext[pos])];
      pos := pos + 1 + ext[pos];
    }
  }

  method ReadExtensions(body: bytes, start: nat, end: nat, h0: Hello) returns (h: Hello)
    requires end <= |body|
    ensures h == Extensions(body, start, end, h0)
  {
    h := h0;
    var off := start;
    while off + 4 <= end
      invariant Extensions(body, off, end, h) == Extensions(body, start, end, h0)
      decreases end - off
    {
      var kind, n := Be16(body, off), Be16(body, off + 2);
      off := off + 4;
      if off + n > end {
        return;
      }
      var ext := body[off..off + n];
      off := off + n;
      if kind == 0 {
        var name := ReadServerName(ext);
        h := h.(sni := name);
      } else if kind == 16 {
        var names := ReadProtocols(ext);
        h := h.(alpn := names);
      } else if kind == 43 {
        var versions: seq<nat> := [];
        if ext != [] {
          versions := ReadCodes(ext, if ext[0] == |ext| - 1 then 1 else 0);
        }
        h := h.(versions := versions);
      }
    }
  }

  method ReadClientHello(body: bytes) returns (h: Hello)
    ensures h == ClientHello(body)
  {
    hide Codes, Extensions, Be16;
    h := NO_HELLO;
    var off: nat := 34;
    if off + 1 > |body| {
      return;
    }
    off := off + 1 + body[off];
    if off + 2 > |body| {
      return;
    }
    var total := Be16(body, off);
    off := off + 2;
    if off + total > |body| {
      return;
    }
    var codes := ReadCodes(body[off..off + total], 0);
    h := h.(cipherSuites := codes);
    off := off + total;
    if off + 1 > |body| {
      return;
    }
    off := off + 1 + body[off];
    if off + 2 > |body| {
      return;
    }
    var extTotal := Be16(body, off);
    off := off + 2;
    var end := off + extTotal;
    if end > |body| {
      return;
    }
    h := ReadExtensions(body, off, end, h);
  }

  class TlsStreamParser {
    var buf: bytes
    var records: seq<TlsInfo>

    constructor ()
      ensures buf == [] && records == []
    {
      buf, records := [], [];
    }

    /** Takes every whole record off the buffer; stops at a partial record or at garbage. */
    method Feed(data: bytes) returns (out: seq<TlsInfo>)
      modifies this
      ensures var f := Records(old(buf) + data);
              buf == f.rest && out == DecodeAll(f.items) && records == old(records) + out
    {
      hide Records, Decode;
      buf := buf + data;
      out := [];
      ghost var whole, taken: seq<Record> := Records(buf), [];
      while |buf| >= 5
        invariant var f := Records(buf); whole == Framed(taken + f.items, f.rest)
        invariant out == DecodeAll(taken) && records == old(records) + out
        decreases |buf|
      {
        if !RecordType(buf[0]) {
          RecordsStuck(buf);
          assert taken + [] == taken;
          if records != [] {
            break;
          }
          return;
        }
        var kind, version, length := buf[0], Be16(buf, 1), Be16(buf, 3);
        // A two-byte length never exceeds MAX_RECORD, so the source's skip of oversized records is dead code.
        assert length <= MAX_RECORD;
        if |buf| < 5 + length {
          break;
        }
        RecordsStep(buf);
        var r := Record(kind, version, buf[5..5 + length]);
        buf := buf[5 + length..];
        var info := DecodeRecord(r);
        DecodeAllAppends(taken, [r]);
        taken := taken + [r];
        out := out + [info];
        records := records + [info];
      }
      RecordsStuck(buf);
      assert taken + [] == taken;
    }

    method DecodeRecord(r: Record) returns (info: TlsInfo)
      ensures info == Decode(r)
    {
      info := TlsInfo(r.kind, r.version, None, NO_HELLO, false);
      if r.kind != HANDSHAKE || |r.body| < 4 {
        return;
      }
      info := info.(handshake := Some(r.body[0]));
      if r.body[0] == CLIENT_HELLO {
        var hello := ReadClientHello(r.body[4..]);
        info := info.(hello := hello, tls13 := TLS_1_3 in hello.versions);
      } else if r.body[0] == SERVER_HELLO {
        info := info.(hello := ServerHello(r.body[4..]));
      }
    }
  }

  // ------------------------------------------------------------ what the parser promises

  function Wire(rs: seq<Record>): bytes { Encoded(Serialize(), rs) }

  /** What a fresh parser holds and has emitted after a list of chunks. */
  function FedRecords(chunks: seq<bytes>): Framed<Record> {
    RecordsProgress();
    FeedChunks(NextRecord, [], chunks)
  }

  /** On every input, garbage included, how the stream was cut into feeds does not matter. */
  lemma TlsCutDoesNotMatter(chunks: seq<bytes>)
    ensures FedRecords(chunks) == Records(Join(chunks))
  {
    RecordsProgress();
    RecordsArePrefixStable();
    CutDoesNotMatter(NextRecord, [], chunks);
    assert [] + Join(chunks) == Join(chunks);
  }

  /** Serialised records come back one for one, whatever follows them. */
  lemma TlsRecordsComeBack(rs: seq<Record>, tail: bytes)
    requires forall r :: r in rs ==> Fits()(r)
    ensures Records(Wire(rs) + tail) == Framed(rs + Records(tail).items, Records(tail).rest)
  {
    RecordsProgress();
    RecordsReadBack();
    EncodedItemsComeBack(NextRecord, Serialize(), Fits(), rs, tail);
  }

  /** Re-serialising the records found and appending the leftover gives back the input. */
  lemma TlsFramingIsExact(buf: bytes)
    ensures var f := Records(buf); Wire(f.items) + f.rest == buf
  {
    RecordsProgress();
    RecordsReadOnlyEncodings();
    ExtractionIsExact(NextRecord, Serialize(), Fits(), buf);
  }
}
