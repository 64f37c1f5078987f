// TLS metadata read from one packet's payload, without reassembly.
module TlsPacket {
  import opened Wrappers
  import opened Bytes
  import TlsStream

  /** The handshake message at the front of a payload; names are kept as their bytes. */
  datatype PacketInfo = PacketInfo(recordType: byte, handshakeType: byte, version: nat, sni: Option<bytes>)

  // ------------------------------------------------------------ what is read

  /** The first host name at or after `pos` in a name list of `listLength` bytes. */
  function NameIn(data: bytes, pos: nat, listLength: nat): Option<bytes>
    requires 2 + listLength <= |data|
    decreases |data| - pos
  {
    if pos + 3 <= 2 + listLength then
      var n := Be16(data, pos + 1);
      if data[pos] == 0 then Some(Slice(data, pos + 3, pos + 3 + n)) else NameIn(data, pos + 3 + n, listLength)
    else None
  }

  /** The name of a server_name extension; a list that overruns the extension names nothing. */
  function NameOf(data: bytes): Option<bytes> {
    if |data| < 3 || Be16(data, 0) + 2 > |data| then None else NameIn(data, 2, Be16(data, 0))
  }

  /** The first name of any server_name extension from `off` to `end`. */
  function NameFrom(hello: bytes, off: nat, end: nat): Option<bytes>
    requires end <= |hello|
    decreases end - off
  {
    if off + 4 <= end then
      var n := Be16(hello, off + 2);
      if off + 4 + n > end then None
      else
        var name := if Be16(hello, off) == 0 then NameOf(hello[off + 4..off + 4 + n]) else None;
        if name.Some? then name else NameFrom(hello, off + 4 + n, end)
    else None
  }

  /** From the compression methods on. */
  function NameAfter(hello: bytes, off: nat): Option<bytes> {
    if off + 1 > |hello| then None
    else
      var ext := off + 1 + hello[off];
      if ext + 2 > |hello| then None
      else
        var end := ext + 2 + Be16(hello, ext);
        if end > |hello| then None else NameFrom(hello, ext + 2, end)
  }

  function HelloName(hello: bytes): Option<bytes> {
    if |hello| < 35 then None
    else
      var off := 35 + At(hello, 34);
      if off + 2 > |hello| then None else NameAfter(hello, off + 2 + Be16(hello, off))
  }

  function Analysis(payload: bytes): Option<PacketInfo> {
    if |payload| < 3 || payload[0] != TlsStream.HANDSHAKE then None
    else
      var body := Slice(payload, 5, 5 + FromBig(Slice(payload, 3, 5)));
      if |body| < 4 then None
      else
        var message := Slice(body, 4, 4 + FromBig(body[1..4]));
        Some(PacketInfo(payload[0], body[0], Be16(payload, 1),
                        if body[0] == TlsStream.CLIENT_HELLO then HelloName(message) else None))
  }

  // ------------------------------------------------------------ the parser

  method ParseNameList(data: bytes) returns (name: Option<bytes>)
    ensures name == NameOf(data)
  {
    if |data| < 3 {
      return None;
    }
    var listLength := Be16(data, 0);
    if listLength + 2 > |data| {
      return None;
    }
    var pos := 2;
    while pos + 3 <= 2 + listLength
      invariant NameOf(data) == NameIn(data, pos, listLength)
      decreases |data| - pos
    {
      var n := Be16(data, pos + 1);
      if data[pos] == 0 {
        return Some(Slice(data, pos + 3, pos + 3 + n));
      }
      pos := pos + 3 + n;
    }
    return None;
  }

  method ParseSniFromClientHello(hello: bytes) returns (name: Option<bytes>)
    ensures name == HelloName(hello)
  {
    hide NameOf;
    if |hello| < 34 {
      return None;
    }
    var off: nat := 34;
    if off >= |hello| {
      // the index error on the session id length is caught
      return None;
    }
    off := off + 1 + hello[off];
    if off + 2 > |hello| {
      return None;
    }
    off := off + 2 + Be16(hello, off);
    if off + 1 > |hello| {
      return None;
    }
    off := off + 1 + hello[off];
    if off + 2 > |hello| {
      return None;
    }
    var end := off + 2 + Be16(hello, off);
    off := off + 2;
    if end > |hello| {
      return None;
    }
    while off + 4 <= end
      invariant HelloName(hello) == NameFrom(hello, off, end)
      decreases end - off
    {
      var kind, n := Be16(hello, off), Be16(hello, off + 2);
      off := off + 4;
      if off + n > end {
        return None;
      }
      var data := hello[off..off + n];
      off := off + n;
      if kind == 0 {
        name := ParseNameList(data);
        if name.Some? {
          return;
        }
      }
    }
    return None;
  }

  method Analyze(payload: bytes) returns (info: Option<PacketInfo>)
    ensures info == Analysis(payload)
  {
    if payload == [] || payload[0] != TlsStream.HANDSHAKE || |payload| < 3 {
      return None;
    }
    var body := Slice(payload, 5, 5 + FromBig(Slice(payload, 3, 5)));
    if |body| < 4 {
      return None;
    }
    var message := Slice(body, 4, 4 + FromBig(body[1..4]));
    var sni := None;
    if body[0] == TlsStream.CLIENT_HELLO {
      sni := ParseSniFromClientHello(message);
    }
    return Some(PacketInfo(payload[0], body[0], Be16(payload, 1), sni));
  }
}
