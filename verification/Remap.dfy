// Rewriting addresses and ports inside raw Ethernet/IPv4/TCP/UDP frames
// (section 3.1 of RFC 791, section 3.1 of RFC 9293, RFC 768).
module Remap {
  import opened Wrappers
  import opened Bytes
  import opened Checksum

  const TCP: byte := 6
  const UDP: byte := 17

  type Mac = b: bytes | |b| == 6 witness [0, 0, 0, 0, 0, 0]
  type Ip4 = b: bytes | |b| == 4 witness [0, 0, 0, 0]
  type Port = x: int | 0 <= x < 0x1_0000

  datatype Config = Config(macMap: map<bytes, Mac>, ipMap: map<bytes, Ip4>, portMap: map<int, Port>) {
    predicate IsEmpty() { macMap == map[] && ipMap == map[] && portMap == map[] }
  }

  /** `transport_length.to_bytes(2, "big")` on a transport part of 64 KiB or more. */
  datatype RemapError = LengthOverflow(length: nat)

  // ------------------------------------------------------------ reading a frame

  function EtherType(raw: bytes): nat requires |raw| >= 14 { Be16(raw, 12) }

  function Ihl(raw: bytes): nat requires |raw| >= 15 { At(raw, 14) % 16 * 4 }

  /** An IPv4 frame whose whole header is there. */
  predicate IsIpv4(raw: bytes) {
    |raw| >= 34 && EtherType(raw) == 0x0800 && Ihl(raw) >= 20 && |raw| >= 14 + Ihl(raw)
  }

  function Base(raw: bytes): nat requires IsIpv4(raw) { 14 + Ihl(raw) }

  /** Both ports can be read. */
  predicate HasPorts(raw: bytes) {
    IsIpv4(raw) && (raw[23] == TCP || raw[23] == UDP) && |raw| >= Base(raw) + 4
  }

  function FragmentOffset(raw: bytes): nat requires IsIpv4(raw) { Be16(raw, 20) % 0x2000 }

  /** The transport bytes the checksum covers: per the IPv4 total length, or all that is there. */
  function TransportLength(raw: bytes): nat
    requires IsIpv4(raw)
    ensures Base(raw) + TransportLength(raw) <= |raw|
  {
    var stated := Be16(raw, 16) - Ihl(raw);
    if stated < 4 || |raw| < Base(raw) + stated then |raw| - Base(raw) else stated
  }

  function ChecksumOffset(raw: bytes): nat requires HasPorts(raw) {
    Base(raw) + if raw[23] == UDP then 6 else 16
  }

  /** A UDP sender that stored zero computes no checksum. */
  predicate ChecksumDisabled(raw: bytes) requires HasPorts(raw) {
    raw[23] == UDP && FromBig(Slice(raw, Base(raw) + 6, Base(raw) + 8)) == 0
  }

  // ------------------------------------------------------------ specification

  function Lookup(m: map<bytes, bytes>, k: bytes): bytes {
    if k in m then m[k] else k
  }

  function MapMacs(buf: bytes, raw: bytes, c: Config): (r: bytes)
    requires |buf| == |raw| >= 14
    ensures |r| == |raw|
  {
    var b := if raw[0..6] in c.macMap then Splice(buf, 0, c.macMap[raw[0..6]]) else buf;
    if raw[6..12] in c.macMap then Splice(b, 6, c.macMap[raw[6..12]]) else b
  }

  function MapIps(buf: bytes, raw: bytes, c: Config): (r: bytes)
    requires |buf| == |raw| && IsIpv4(raw)
    ensures |r| == |raw|
  {
    var b := if raw[26..30] in c.ipMap then Splice(buf, 26, c.ipMap[raw[26..30]]) else buf;
    if raw[30..34] in c.ipMap then Splice(b, 30, c.ipMap[raw[30..34]]) else b
  }

  function MapPort(buf: bytes, raw: bytes, off: nat, c: Config): (r: bytes)
    requires |buf| == |raw| >= off + 2
    ensures |r| == |raw|
  {
    if Be16(raw, off) in c.portMap then Splice(buf, off, ToBig16(c.portMap[Be16(raw, off)])) else buf
  }

  function MapPorts(buf: bytes, raw: bytes, c: Config): (r: bytes)
    requires |buf| == |raw| && IsIpv4(raw)
    ensures |r| == |raw|
  {
    if HasPorts(raw) then MapPort(MapPort(buf, raw, Base(raw), c), raw, Base(raw) + 2, c) else buf
  }

  /** Addresses and ports replaced, checksums still as they were. */
  function Readdress(raw: bytes, c: Config): (r: bytes)
    requires |raw| >= 14
    ensures |r| == |raw|
  {
    var b := MapMacs(raw, raw, c);
    if IsIpv4(raw) then MapPorts(MapIps(b, raw, c), raw, c) else b
  }

  predicate IpChanged(raw: bytes, c: Config) {
    IsIpv4(raw) && (raw[26..30] in c.ipMap || raw[30..34] in c.ipMap)
  }

  predicate PortsChanged(raw: bytes, c: Config) {
    HasPorts(raw) && (Be16(raw, Base(raw)) in c.portMap || Be16(raw, Base(raw) + 2) in c.portMap)
  }

  /** Zero the field at `field`, then store the checksum of `cover(zeroed)` there. */
  function FixIp(buf: bytes, raw: bytes): (r: bytes)
    requires |buf| == |raw| && IsIpv4(raw)
    ensures |r| == |raw|
  {
    var blank := Splice(buf, 24, [0, 0]);
    Splice(blank, 24, ToBig16(ChecksumOf(blank[14..Base(raw)])))
  }

  /** Source and destination address, zero, protocol, transport length. */
  function PseudoHeader(buf: bytes, protocol: byte, length: nat): (p: bytes)
    requires |buf| >= 34 && length < 0x1_0000
    ensures |p| == 12
  {
    buf[26..30] + buf[30..34] + [0, protocol] + ToBig16(length)
  }

  /** Pseudo-header and transport bytes: what the transport checksum covers. */
  function Covered(buf: bytes, raw: bytes): bytes
    requires |buf| == |raw| && IsIpv4(raw) && TransportLength(raw) < 0x1_0000
  {
    PseudoHeader(buf, raw[23], TransportLength(raw)) + buf[Base(raw)..Base(raw) + TransportLength(raw)]
  }

  function StoreTransportChecksum(buf: bytes, raw: bytes): (r: bytes)
    requires |buf| == |raw| && HasPorts(raw) && TransportLength(raw) < 0x1_0000 && ChecksumOffset(raw) + 2 <= |raw|
    ensures |r| == |raw|
  {
    var blank := Splice(buf, ChecksumOffset(raw), [0, 0]);
    Splice(blank, ChecksumOffset(raw), ToBig16(ChecksumOf(Covered(blank, raw))))
  }

  /** The transport step: UDP length and checksum, or TCP checksum; reads the original's UDP checksum. */
  function FixTransport(buf: bytes, raw: bytes): (r: Result<bytes, RemapError>)
    requires |buf| == |raw| && HasPorts(raw)
    ensures r.Ok? ==> |r.value| == |raw|
  {
    var length := TransportLength(raw);
    var room := ChecksumOffset(raw) + 2 <= |raw|;
    if raw[23] == UDP then
      if ChecksumDisabled(raw) then Ok(buf)
      else if length >= 0x1_0000 then Err(LengthOverflow(length))
      else
        var b := Splice(buf, Base(raw) + 4, ToBig16(length));
        Ok(if room then StoreTransportChecksum(b, raw) else b)
    else if !room then Ok(buf)
    else if length >= 0x1_0000 then Err(LengthOverflow(length))
    else Ok(StoreTransportChecksum(buf, raw))
  }

  /** The transport step stores something: not on a disabled checksum, nor on a TCP frame without room for one. */
  predicate Writes(raw: bytes) {
    HasPorts(raw) && !ChecksumDisabled(raw) && (raw[23] == UDP || ChecksumOffset(raw) + 2 <= |raw|)
  }

  /** Whether the transport checksum is touched at all. */
  predicate FixesTransport(raw: bytes, c: Config) {
    HasPorts(raw) && FragmentOffset(raw) == 0 && (IpChanged(raw, c) || PortsChanged(raw, c))
  }

  function Remapped(raw: bytes, c: Config): (r: Result<bytes, RemapError>)
    ensures r.Ok? ==> |r.value| == |raw|
  {
    if c.IsEmpty() || |raw| < 14 then Ok(raw)
    else
      var b := Readdress(raw, c);
      var fixed := if IpChanged(raw, c) then FixIp(b, raw) else b;
      if FixesTransport(raw, c) then FixTransport(fixed, raw) else Ok(fixed)
  }

  // ------------------------------------------------------------ in place

  method WriteAt(buf: array<byte>, off: nat, data: bytes)
    requires off + |data| <= buf.Length
    modifies buf
    ensures buf[..] == Splice(old(buf[..]), off, data)
  {
    for i := 0 to |data|
      invariant forall k :: 0 <= k < buf.Length ==>
                              buf[k] == if off <= k < off + i then data[k - off] else old(buf[k])
    {
      buf[off + i] := data[i];
    }
  }

  method RemapFrame(raw: bytes, c: Config) returns (r: Result<bytes, RemapError>)
    ensures r == Remapped(raw, c)
  {
    hide Splice, ChecksumOf, FixTransport, MapPorts, TransportLength, FragmentOffset, ToBig16, PortsChanged;
    if c.IsEmpty() || |raw| < 14 {
      return Ok(raw);
    }
    var buf := new byte[|raw|](i requires 0 <= i < |raw| => raw[i]);
    assert buf[..] == raw;
    RewriteMacs(buf, raw, c);
    if Be16(raw, 12) != 0x0800 || |raw| < 34 {
      return Ok(buf[..]);
    }
    var ihl := At(raw, 14) % 16 * 4;
    if ihl < 20 || |raw| < 14 + ihl {
      return Ok(buf[..]);
    }
    var ipChanged := RewriteIps(buf, raw, c);
    var hasPorts := HasPorts(raw);
    var portsChanged := false;
    if c.portMap != map[] && hasPorts {
      portsChanged := RewritePorts(buf, raw, c);
    } else {
      NoPortsToMap(buf[..], raw, c);
    }
    assert portsChanged == PortsChanged(raw, c) && buf[..] == Readdress(raw, c);
    if ipChanged {
      WriteAt(buf, 24, [0, 0]);
      var sum := Compute(buf[14..14 + ihl]);
      WriteAt(buf, 24, ToBig16(sum));
    }
    assert buf[..] == if ipChanged then FixIp(Readdress(raw, c), raw) else Readdress(raw, c);
    if (ipChanged || portsChanged) && FragmentOffset(raw) == 0 && hasPorts {
      var error := FixTransportChecksum(buf, raw);
      if error.Some? {
        return Err(error.value);
      }
    }
    return Ok(buf[..]);
  }

  method RewriteMacs(buf: array<byte>, raw: bytes, c: Config)
    requires buf.Length == |raw| >= 14
    modifies buf
    ensures buf[..] == MapMacs(old(buf[..]), raw, c)
  {
    hide Splice;
    if c.macMap != map[] {
      var dst, src := raw[0..6], raw[6..12];
      if dst in c.macMap {
        WriteAt(buf, 0, c.macMap[dst]);
      }
      if src in c.macMap {
        WriteAt(buf, 6, c.macMap[src]);
      }
    }
  }

  method RewriteIps(buf: array<byte>, raw: bytes, c: Config) returns (changed: bool)
    requires buf.Length == |raw| && IsIpv4(raw)
    modifies buf
    ensures buf[..] == MapIps(old(buf[..]), raw, c) && changed == IpChanged(raw, c)
  {
    hide Splice;
    changed := false;
    if c.ipMap != map[] {
      var src, dst := raw[26..30], raw[30..34];
      if src in c.ipMap {
        WriteAt(buf, 26, c.ipMap[src]);
        changed := true;
      }
      if dst in c.ipMap {
        WriteAt(buf, 30, c.ipMap[dst]);
        changed := true;
      }
    }
  }

  method RewritePorts(buf: array<byte>, raw: bytes, c: Config) returns (changed: bool)
    requires buf.Length == |raw| && HasPorts(raw)
    modifies buf
    ensures buf[..] == MapPorts(old(buf[..]), raw, c) && changed == PortsChanged(raw, c)
  {
    hide Splice, ToBig16;
    changed := false;
    var src, dst := Be16(raw, Base(raw)), Be16(raw, Base(raw) + 2);
    if src in c.portMap {
      WriteAt(buf, Base(raw), ToBig16(c.portMap[src]));
      changed := true;
    }
    if dst in c.portMap {
      WriteAt(buf, Base(raw) + 2, ToBig16(c.portMap[dst]));
      changed := true;
    }
  }

  method FixTransportChecksum(buf: array<byte>, raw: bytes) returns (error: Option<RemapError>)
    requires buf.Length == |raw| && HasPorts(raw)
    modifies buf
    ensures var r := FixTransport(old(buf[..]), raw);
            if r.Ok? then error == None && buf[..] == r.value else error == Some(r.error)
  {
    hide Splice, ChecksumOf, PseudoHeader, ToBig16;
    var length := TransportLength(raw);
    var base := Base(raw);
    if raw[23] == UDP {
      if ChecksumDisabled(raw) {
        return None;
      }
      if length >= 0x1_0000 {
        return Some(LengthOverflow(length));
      }
      LengthFieldFits(raw);
      hide ChecksumDisabled;
      WriteAt(buf, base + 4, ToBig16(length));
    }
    var off := ChecksumOffset(raw);
    if buf.Length < off + 2 {
      return None;
    }
    if length >= 0x1_0000 {
      return Some(LengthOverflow(length));
    }
    WriteAt(buf, off, [0, 0]);
    var segment := PseudoHeader(buf[..], raw[23], length) + buf[base..base + length];
    assert segment == Covered(buf[..], raw);
    var sum := Compute(segment);
    WriteAt(buf, off, ToBig16(sum));
    return None;
  }

  lemma NoPortsToMap(buf: bytes, raw: bytes, c: Config)
    requires |buf| == |raw| && IsIpv4(raw) && (c.portMap == map[] || !HasPorts(raw))
    ensures MapPorts(buf, raw, c) == buf && !PortsChanged(raw, c)
  {
  }

  /** A nonzero stored UDP checksum leaves room for the length field before it. */
  lemma LengthFieldFits(raw: bytes)
    requires HasPorts(raw) && raw[23] == UDP && !ChecksumDisabled(raw)
    ensures |raw| > Base(raw) + 6
  {
  }
}
