// What remapping promises of one frame: exactly the mapped fields change, to the mapped values,
// and the recomputed checksums verify.
module RemapTheorems {
  import opened Wrappers
  import opened Bytes
  import opened Checksum
  import opened Remap

  // ------------------------------------------------------------ what a remap touches

  /** Byte i belongs to none of the fields a remap may rewrite. */
  ghost predicate Outside(raw: bytes, i: nat) {
    && i >= 12
    && (IsIpv4(raw) ==> !(24 <= i < 34))
    && (HasPorts(raw) ==>
          var base := Base(raw);
          !(base <= i < base + (if raw[23] == UDP then 8 else 4)) && !(base + 16 <= i < base + 18 && raw[23] == TCP))
  }

  lemma MapPortAt(buf: bytes, raw: bytes, off: nat, c: Config, i: nat)
    requires |buf| == |raw| >= off + 2 && i < |raw|
    ensures !(off <= i < off + 2) ==> MapPort(buf, raw, off, c)[i] == buf[i]
  {
    if Be16(raw, off) in c.portMap {
      SpliceAt(buf, off, ToBig16(c.portMap[Be16(raw, off)]), i);
    }
  }

  lemma ReaddressAt(raw: bytes, c: Config, i: nat)
    requires |raw| >= 14 && 12 <= i < |raw|
    requires IsIpv4(raw) ==> !(26 <= i < 34)
    requires HasPorts(raw) ==> !(Base(raw) <= i < Base(raw) + 4)
    ensures Readdress(raw, c)[i] == raw[i]
  {
    var b := MapMacs(raw, raw, c);
    assert b[i] == raw[i];
    if IsIpv4(raw) {
      var d := MapIps(b, raw, c);
      assert d[i] == b[i];
      if HasPorts(raw) {
        MapPortAt(d, raw, Base(raw), c, i);
        MapPortAt(MapPort(d, raw, Base(raw), c), raw, Base(raw) + 2, c, i);
      }
    }
  }

  lemma FixIpAt(buf: bytes, raw: bytes, i: nat)
    requires |buf| == |raw| && IsIpv4(raw) && i < |raw|
    ensures !(24 <= i < 26) ==> FixIp(buf, raw)[i] == buf[i]
  {
    hide ChecksumOf, ToBig16;
    var blank := Splice(buf, 24, [0, 0]);
    SpliceAt(buf, 24, [0, 0], i);
    SpliceAt(blank, 24, ToBig16(ChecksumOf(blank[14..Base(raw)])), i);
    hide Splice;
  }

  lemma StoreAt(buf: bytes, raw: bytes, i: nat)
    requires |buf| == |raw| && HasPorts(raw) && TransportLength(raw) < 0x1_0000 && ChecksumOffset(raw) + 2 <= |raw|
    requires i < |raw|
    ensures !(ChecksumOffset(raw) <= i < ChecksumOffset(raw) + 2) ==> StoreTransportChecksum(buf, raw)[i] == buf[i]
  {
    var off := ChecksumOffset(raw);
    var blank := Splice(buf, off, [0, 0]);
    SpliceAt(buf, off, [0, 0], i);
    SpliceAt(blank, off, ToBig16(ChecksumOf(Covered(blank, raw))), i);
    hide Splice, Covered, ChecksumOf, ToBig16;
  }

  lemma FixTransportAt(buf: bytes, raw: bytes, i: nat)
    requires |buf| == |raw| && HasPorts(raw) && FixTransport(buf, raw).Ok? && i < |raw|
    ensures i < Base(raw) + 4 || Outside(raw, i) ==> FixTransport(buf, raw).value[i] == buf[i]
  {
    hide StoreTransportChecksum, Splice, ToBig16, TransportLength;
    if raw[23] == UDP {
      if !ChecksumDisabled(raw) {
        LengthFieldFits(raw);
        SpliceAt(buf, Base(raw) + 4, ToBig16(TransportLength(raw)), i);
        if ChecksumOffset(raw) + 2 <= |raw| {
          StoreAt(Splice(buf, Base(raw) + 4, ToBig16(TransportLength(raw))), raw, i);
        }
      }
    } else if ChecksumOffset(raw) + 2 <= |raw| {
      StoreAt(buf, raw, i);
    }
  }

  /** Every byte outside the rewritten fields is the original's. */
  lemma OnlyMappedFieldsChange(raw: bytes, c: Config, i: nat)
    requires Remapped(raw, c).Ok? && i < |raw| && Outside(raw, i)
    ensures Remapped(raw, c).value[i] == raw[i]
  {
    hide FixIp, FixTransport, Readdress;
    if !c.IsEmpty() && |raw| >= 14 {
      ReaddressAt(raw, c, i);
      var b := Readdress(raw, c);
      if IpChanged(raw, c) {
        FixIpAt(b, raw, i);
      }
      if FixesTransport(raw, c) {
        FixTransportAt(if IpChanged(raw, c) then FixIp(b, raw) else b, raw, i);
      }
    }
  }

  /** The two frames have the same lengths, types, header size, protocol and fragment position. */
  ghost predicate SameShape(a: bytes, b: bytes) {
    |a| == |b| && (|a| >= 24 ==> a[12..24] == b[12..24]) && (14 <= |a| < 24 ==> a[12..14] == b[12..14])
  }

  lemma ShapeDecides(a: bytes, b: bytes)
    requires SameShape(a, b)
    ensures |a| >= 14 ==> EtherType(a) == EtherType(b)
    ensures IsIpv4(a) == IsIpv4(b) && HasPorts(a) == HasPorts(b)
    ensures IsIpv4(a) ==>
              && a[23] == b[23] && Ihl(a) == Ihl(b) && Base(a) == Base(b) && a[14] == b[14]
              && Be16(a, 16) == Be16(b, 16)
              && TransportLength(a) == TransportLength(b) && FragmentOffset(a) == FragmentOffset(b)
    ensures HasPorts(a) ==> ChecksumOffset(a) == ChecksumOffset(b)
  {
    if |a| >= 24 {
      assert forall i :: 12 <= i < 24 ==> a[i] == a[12..24][i - 12] && b[i] == b[12..24][i - 12];
    } else if |a| >= 14 {
      assert forall i :: 12 <= i < 14 ==> a[i] == a[12..14][i - 12] && b[i] == b[12..14][i - 12];
    }
  }

  lemma RemapKeepsShape(raw: bytes, c: Config)
    requires Remapped(raw, c).Ok?
    ensures SameShape(raw, Remapped(raw, c).value)
  {
    var out := Remapped(raw, c).value;
    forall i | 12 <= i < 24 && i < |raw| ensures out[i] == raw[i] {
      OnlyMappedFieldsChange(raw, c, i);
    }
  }

  // ------------------------------------------------------------ when a remap fails

  lemma FixTransportFailsIff(buf: bytes, raw: bytes)
    requires |buf| == |raw| && HasPorts(raw)
    ensures FixTransport(buf, raw).Err? <==> Writes(raw) && TransportLength(raw) >= 0x1_0000
    ensures FixTransport(buf, raw).Err? ==> FixTransport(buf, raw) == Err(LengthOverflow(TransportLength(raw)))
  {
    hide Slice, FromBig, TransportLength, StoreTransportChecksum, Splice, ToBig16, Base, IsIpv4;
  }

  /** Remapping fails exactly when the transport step has a length to write that 16 bits cannot hold. */
  lemma RemapFailsIff(raw: bytes, c: Config)
    ensures Remapped(raw, c).Err?
       <==> !c.IsEmpty() && |raw| >= 14 && FixesTransport(raw, c)
            && Writes(raw) && TransportLength(raw) >= 0x1_0000
    ensures Remapped(raw, c).Err? ==> Remapped(raw, c) == Err(LengthOverflow(TransportLength(raw)))
  {
    hide FixTransport, FixIp, Readdress, Writes, TransportLength, IpChanged, PortsChanged, FragmentOffset;
    if !c.IsEmpty() && |raw| >= 14 && FixesTransport(raw, c) {
      var b := Readdress(raw, c);
      FixTransportFailsIff(if IpChanged(raw, c) then FixIp(b, raw) else b, raw);
    }
  }

  /** A segmentation-offload frame, of 64 KiB or more and with total length zero, cannot be remapped. */
  lemma OffloadedFrameFails(raw: bytes, c: Config)
    requires FixesTransport(raw, c) && Writes(raw) && Be16(raw, 16) == 0 && |raw| >= Base(raw) + 0x1_0000
    ensures Remapped(raw, c) == Err(LengthOverflow(|raw| - Base(raw)))
  {
    RemapFailsIff(raw, c);
    hide Remapped, Writes, FragmentOffset, Be16;
  }

  // ------------------------------------------------------------ what the fields become

  function MappedPort(c: Config, port: nat): nat {
    if port in c.portMap then c.portMap[port] else port
  }

  lemma MapMacsReads(raw: bytes, c: Config, lo: nat, hi: nat)
    requires 12 <= lo <= hi <= |raw| && |raw| >= 14
    ensures MapMacs(raw, raw, c)[lo..hi] == raw[lo..hi]
  {
    hide Splice;
    var dst, src := raw[0..6], raw[6..12];
    if dst in c.macMap {
      SpliceReads(raw, 0, c.macMap[dst], lo, hi);
    }
    if src in c.macMap {
      SpliceReads(if dst in c.macMap then Splice(raw, 0, c.macMap[dst]) else raw, 6, c.macMap[src], lo, hi);
    }
  }

  lemma MapIpsReads(buf: bytes, raw: bytes, c: Config, lo: nat, hi: nat)
    requires |buf| == |raw| && IsIpv4(raw) && lo <= hi <= |raw| && (hi <= 26 || 34 <= lo)
    ensures MapIps(buf, raw, c)[lo..hi] == buf[lo..hi]
  {
    hide Splice;
    var src, dst := raw[26..30], raw[30..34];
    if src in c.ipMap {
      SpliceReads(buf, 26, c.ipMap[src], lo, hi);
    }
    if dst in c.ipMap {
      SpliceReads(if src in c.ipMap then Splice(buf, 26, c.ipMap[src]) else buf, 30, c.ipMap[dst], lo, hi);
    }
  }

  lemma MapPortsReads(buf: bytes, raw: bytes, c: Config, lo: nat, hi: nat)
    requires |buf| == |raw| && IsIpv4(raw) && lo <= hi <= 34
    ensures MapPorts(buf, raw, c)[lo..hi] == buf[lo..hi]
  {
    var b := MapPorts(buf, raw, c);
    forall i | lo <= i < hi ensures b[i] == buf[i] {
      if HasPorts(raw) {
        MapPortAt(buf, raw, Base(raw), c, i);
        MapPortAt(MapPort(buf, raw, Base(raw), c), raw, Base(raw) + 2, c, i);
      }
    }
  }

  lemma MapMacsFields(raw: bytes, c: Config)
    requires |raw| >= 14
    ensures var m := MapMacs(raw, raw, c);
            m[0..6] == Lookup(c.macMap, raw[0..6]) && m[6..12] == Lookup(c.macMap, raw[6..12])
  {
  }

  lemma MapIpsFields(buf: bytes, raw: bytes, c: Config)
    requires |buf| == |raw| && IsIpv4(raw) && buf[26..30] == raw[26..30] && buf[30..34] == raw[30..34]
    ensures var d := MapIps(buf, raw, c);
            d[26..30] == Lookup(c.ipMap, raw[26..30]) && d[30..34] == Lookup(c.ipMap, raw[30..34])
  {
  }

  lemma ReaddressFields(raw: bytes, c: Config)
    requires |raw| >= 14
    ensures var b := Readdress(raw, c);
            && b[0..6] == Lookup(c.macMap, raw[0..6]) && b[6..12] == Lookup(c.macMap, raw[6..12])
            && (IsIpv4(raw) ==>
                  b[26..30] == Lookup(c.ipMap, raw[26..30]) && b[30..34] == Lookup(c.ipMap, raw[30..34]))
  {
    var m := MapMacs(raw, raw, c);
    MapMacsFields(raw, c);
    if IsIpv4(raw) {
      MapMacsReads(raw, c, 26, 30);
      MapMacsReads(raw, c, 30, 34);
      MapIpsFields(m, raw, c);
      MapIpsReads(m, raw, c, 0, 6);
      MapIpsReads(m, raw, c, 6, 12);
      var d := MapIps(m, raw, c);
      MapPortsReads(d, raw, c, 0, 6);
      MapPortsReads(d, raw, c, 6, 12);
      MapPortsReads(d, raw, c, 26, 30);
      MapPortsReads(d, raw, c, 30, 34);
    }
    hide MapMacs, MapIps, MapPorts;
  }

  lemma ReaddressPorts(raw: bytes, c: Config)
    requires |raw| >= 14 && HasPorts(raw)
    ensures var b := Readdress(raw, c);
            && Be16(b, Base(raw)) == MappedPort(c, Be16(raw, Base(raw)))
            && Be16(b, Base(raw) + 2) == MappedPort(c, Be16(raw, Base(raw) + 2))
  {
    hide MapMacs, MapIps;
    var base := Base(raw);
    var m := MapMacs(raw, raw, c);
    var d := MapIps(m, raw, c);
    MapMacsReads(raw, c, base, base + 4);
    MapIpsReads(m, raw, c, base, base + 4);
    assert forall i :: base <= i < base + 4 ==> d[i] == d[base..base + 4][i - base];
    assert forall i :: base <= i < base + 4 ==> raw[i] == raw[base..base + 4][i - base];
    PortsIn(d, raw, c);
  }

  lemma PortsIn(d: bytes, raw: bytes, c: Config)
    requires |d| == |raw| && HasPorts(raw)
    requires forall i :: Base(raw) <= i < Base(raw) + 4 ==> d[i] == raw[i]
    ensures var b := MapPorts(d, raw, c);
            && Be16(b, Base(raw)) == MappedPort(c, Be16(raw, Base(raw)))
            && Be16(b, Base(raw) + 2) == MappedPort(c, Be16(raw, Base(raw) + 2))
  {
  }

  /** The checksum steps touch no byte of an address or port. */
  lemma ChecksumsKeepFields(raw: bytes, c: Config, i: nat)
    requires !c.IsEmpty() && |raw| >= 14 && Remapped(raw, c).Ok? && i < |raw|
    requires !(24 <= i < 26) && (if HasPorts(raw) then i < Base(raw) + 4 else i < 34)
    ensures Remapped(raw, c).value[i] == Readdress(raw, c)[i]
  {
    hide FixIp, FixTransport, Readdress;
    var b := Readdress(raw, c);
    if IpChanged(raw, c) {
      FixIpAt(b, raw, i);
    }
    if FixesTransport(raw, c) {
      FixTransportAt(if IpChanged(raw, c) then FixIp(b, raw) else b, raw, i);
    }
  }

  lemma SliceByBytes(a: bytes, b: bytes, lo: nat, hi: nat)
    requires lo <= hi <= |a| && |a| == |b|
    requires forall i :: lo <= i < hi ==> a[i] == b[i]
    ensures a[lo..hi] == b[lo..hi]
  {
  }

  lemma HeadIsReaddressed(raw: bytes, c: Config, lo: nat, hi: nat)
    requires !c.IsEmpty() && |raw| >= 14 && Remapped(raw, c).Ok? && lo <= hi <= |raw|
    requires (hi <= 24 || 26 <= lo) && (if HasPorts(raw) then hi <= Base(raw) + 4 else hi <= 34)
    ensures Remapped(raw, c).value[lo..hi] == Readdress(raw, c)[lo..hi]
  {
    hide Readdress, Remapped;
    var out, b := Remapped(raw, c).value, Readdress(raw, c);
    forall i | lo <= i < hi ensures out[i] == b[i] {
      ChecksumsKeepFields(raw, c, i);
    }
    SliceByBytes(out, b, lo, hi);
  }

  /** The addresses of the result are the mapped ones, each read from the original frame. */
  lemma AddressesAreMapped(raw: bytes, c: Config)
    requires Remapped(raw, c).Ok? && |raw| >= 14
    ensures var out := Remapped(raw, c).value;
            && out[0..6] == Lookup(c.macMap, raw[0..6]) && out[6..12] == Lookup(c.macMap, raw[6..12])
            && (IsIpv4(raw) ==>
                  out[26..30] == Lookup(c.ipMap, raw[26..30]) && out[30..34] == Lookup(c.ipMap, raw[30..34]))
  {
    if !c.IsEmpty() {
      ReaddressFields(raw, c);
      HeadIsReaddressed(raw, c, 0, 6);
      HeadIsReaddressed(raw, c, 6, 12);
      if IsIpv4(raw) {
        HeadIsReaddressed(raw, c, 26, 30);
        HeadIsReaddressed(raw, c, 30, 34);
      }
      hide Readdress, Remapped, IsIpv4, HasPorts, Lookup;
    }
  }

  lemma SameWord(a: bytes, b: bytes, lo: nat, hi: nat, off: nat)
    requires lo <= off && off + 2 <= hi <= |a| && |a| == |b| && a[lo..hi] == b[lo..hi]
    ensures Be16(a, off) == Be16(b, off)
  {
    assert a[off] == a[lo..hi][off - lo] && a[off + 1] == a[lo..hi][off + 1 - lo];
    assert b[off] == b[lo..hi][off - lo] && b[off + 1] == b[lo..hi][off + 1 - lo];
  }

  lemma SamePorts(a: bytes, b: bytes, base: nat)
    requires base + 4 <= |a| && |a| == |b| && a[base..base + 4] == b[base..base + 4]
    ensures Be16(a, base) == Be16(b, base) && Be16(a, base + 2) == Be16(b, base + 2)
  {
    SameWord(a, b, base, base + 4, base);
    SameWord(a, b, base, base + 4, base + 2);
  }

  lemma EmptyChangesNothing(raw: bytes, c: Config)
    requires c.IsEmpty()
    ensures Remapped(raw, c) == Ok(raw) && forall port :: MappedPort(c, port) == port
  {
  }

  lemma PortsWithin(raw: bytes)
    requires HasPorts(raw)
    ensures IsIpv4(raw) && 34 <= Base(raw) && Base(raw) + 4 <= |raw|
  {
  }

  /** The ports of the result are the mapped ones, each read from the original frame. */
  lemma PortsAreMapped(raw: bytes, c: Config)
    requires Remapped(raw, c).Ok? && |raw| >= 14 && HasPorts(raw)
    ensures var out := Remapped(raw, c).value;
            && Be16(out, Base(raw)) == MappedPort(c, Be16(raw, Base(raw)))
            && Be16(out, Base(raw) + 2) == MappedPort(c, Be16(raw, Base(raw) + 2))
  {
    hide *;
    PortsWithin(raw);
    if c.IsEmpty() {
      EmptyChangesNothing(raw, c);
    } else {
      ReaddressPorts(raw, c);
      HeadIsReaddressed(raw, c, Base(raw), Base(raw) + 4);
      SamePorts(Remapped(raw, c).value, Readdress(raw, c), Base(raw));
    }
  }

  // ------------------------------------------------------------ checksums verify

  lemma FixIpVerifies(buf: bytes, raw: bytes)
    requires |buf| == |raw| && IsIpv4(raw)
    ensures Verifies(FixIp(buf, raw)[14..Base(raw)])
  {
    var blank := Splice(buf, 24, [0, 0]);
    var header := blank[14..Base(raw)];
    SpliceReads(buf, 24, [0, 0], 24, 26);
    assert header[10..12] == blank[24..26];
    StoredChecksumVerifies(header, 10);
    SpliceReads(blank, 24, ToBig16(ChecksumOf(header)), 14, Base(raw));
    hide ChecksumOf, Splice;
  }

  lemma FixTransportKeepsHeader(buf: bytes, raw: bytes)
    requires |buf| == |raw| && HasPorts(raw) && FixTransport(buf, raw).Ok?
    ensures FixTransport(buf, raw).value[..Base(raw) + 4] == buf[..Base(raw) + 4]
  {
    hide FixTransport;
    var out := FixTransport(buf, raw).value;
    forall i | 0 <= i < Base(raw) + 4 ensures out[i] == buf[i] {
      FixTransportAt(buf, raw, i);
    }
  }

  /** After an address change the IPv4 header sums to all ones. */
  lemma IpHeaderVerifies(raw: bytes, c: Config)
    requires Remapped(raw, c).Ok? && !c.IsEmpty() && IpChanged(raw, c)
    ensures Verifies(Remapped(raw, c).value[14..Base(raw)])
  {
    hide *;
    ChangedAddressSteps(raw, c);
    var fixed := FixIp(Readdress(raw, c), raw);
    FixIpVerifies(Readdress(raw, c), raw);
    if FixesTransport(raw, c) {
      FixTransportKeepsHeader(fixed, raw);
      HeaderOfPrefix(FixTransport(fixed, raw).value, fixed, Base(raw));
    }
  }

  lemma ChangedAddressSteps(raw: bytes, c: Config)
    requires Remapped(raw, c).Ok? && !c.IsEmpty() && IpChanged(raw, c)
    ensures |raw| >= 34 && IsIpv4(raw) && 34 <= Base(raw) <= |raw| && |Readdress(raw, c)| == |raw|
    ensures if FixesTransport(raw, c)
            then HasPorts(raw) && Base(raw) + 4 <= |raw|
                 && Remapped(raw, c) == FixTransport(FixIp(Readdress(raw, c), raw), raw)
            else Remapped(raw, c) == Ok(FixIp(Readdress(raw, c), raw))
  {
    hide FixTransport, FixIp, Readdress;
  }

  lemma HeaderOfPrefix(a: bytes, b: bytes, base: nat)
    requires 14 <= base && base + 4 <= |a| == |b| && a[..base + 4] == b[..base + 4]
    ensures a[14..base] == b[14..base]
  {
    assert a[14..base] == a[..base + 4][14..base] && b[14..base] == b[..base + 4][14..base];
  }

  /** Writing into the transport part at `at` writes into the covered bytes 12 past its place there. */
  lemma CoveredSplice(buf: bytes, raw: bytes, at: nat, w: bytes)
    requires |buf| == |raw| && IsIpv4(raw) && TransportLength(raw) < 0x1_0000
    requires Base(raw) <= at && at + |w| <= Base(raw) + TransportLength(raw)
    ensures Covered(Splice(buf, at, w), raw) == Splice(Covered(buf, raw), 12 + (at - Base(raw)), w)
  {
    var base, end := Base(raw), Base(raw) + TransportLength(raw);
    var b := Splice(buf, at, w);
    SpliceReads(buf, at, w, 26, 30);
    SpliceReads(buf, at, w, 30, 34);
    SpliceReads(buf, at, w, base, end);
    var p := PseudoHeader(buf, raw[23], TransportLength(raw));
    assert PseudoHeader(b, raw[23], TransportLength(raw)) == p;
    AppendSplice(p, buf[base..end], at - base, w);
    hide Splice, PseudoHeader, TransportLength;
  }

  lemma AppendSplice(p: bytes, data: bytes, at: nat, w: bytes)
    requires at + |w| <= |data|
    ensures p + Splice(data, at, w) == Splice(p + data, |p| + at, w)
  {
  }

  lemma StoreVerifies(buf: bytes, raw: bytes)
    requires |buf| == |raw| && HasPorts(raw) && TransportLength(raw) < 0x1_0000
    requires ChecksumOffset(raw) + 2 <= Base(raw) + TransportLength(raw)
    ensures Verifies(Covered(StoreTransportChecksum(buf, raw), raw))
  {
    var off := ChecksumOffset(raw);
    var blank := Splice(buf, off, [0, 0]);
    var at := 12 + (off - Base(raw));
    var w := ToBig16(ChecksumOf(Covered(blank, raw)));
    CoveredSplice(buf, raw, off, [0, 0]);
    CoveredSplice(blank, raw, off, w);
    SpliceReads(Covered(buf, raw), at, [0, 0], at, at + 2);
    hide Covered, Splice, ChecksumOf, TransportLength;
    StoredChecksumVerifies(Covered(blank, raw), at);
  }

  /**
    * On fragment-offset-0 TCP and UDP frames whose checksum field lies inside the covered
    * bytes, the pseudo-header sum verifies after a remap that changed an address or port.
    */
  lemma TransportVerifies(raw: bytes, c: Config)
    requires Remapped(raw, c).Ok? && !c.IsEmpty() && FixesTransport(raw, c) && !ChecksumDisabled(raw)
    requires ChecksumOffset(raw) + 2 <= Base(raw) + TransportLength(raw)
    ensures TransportLength(raw) < 0x1_0000 && Verifies(Covered(Remapped(raw, c).value, raw))
  {
    var b := Readdress(raw, c);
    var fixed := if IpChanged(raw, c) then FixIp(b, raw) else b;
    StoreVerifies(if raw[23] == UDP then Splice(fixed, Base(raw) + 4, ToBig16(TransportLength(raw))) else fixed, raw);
    hide StoreTransportChecksum, Covered, Verifies, Readdress, FixIp, Splice, TransportLength;
  }

  // ------------------------------------------------------------ the same sum, read off the frame's own bytes

  /** The transport length of a frame: as its total length states, or all there is when that does not fit. */
  function PartLength(f: bytes): nat
    requires |f| >= 34 && 14 + f[14] % 16 * 4 <= |f|
  {
    var base := 14 + f[14] % 16 * 4;
    var stated := (f[16] as int) * 256 + f[17] - (base - 14);
    if 4 <= stated && base + stated <= |f| then stated else |f| - base
  }

  /** Addresses, protocol, length and transport part sum to all ones (section 3.1 of RFC 9293, RFC 768). */
  ghost predicate TransportSums(f: bytes) {
    && |f| >= 34 && 14 + f[14] % 16 * 4 <= |f|
    && var base := 14 + f[14] % 16 * 4;
       var n := PartLength(f);
       Fold(Sum16(f[26..34]) + f[23] + n + Sum16(f[base..base + n])) == 0xFFFF
  }

  /** An IPv4 frame with its first transport bytes, not a later fragment, one of whose addresses or ports is mapped. */
  ghost predicate Touched(raw: bytes, c: Config) {
    && |raw| >= 34 && raw[12] == 8 && raw[13] == 0 && raw[14] % 16 >= 5
    && var base := 14 + raw[14] % 16 * 4;
    && base + 4 <= |raw| && raw[20] % 32 == 0 && raw[21] == 0
    && (raw[26..30] in c.ipMap || raw[30..34] in c.ipMap
        || (raw[base] as int) * 256 + raw[base + 1] in c.portMap
        || (raw[base + 2] as int) * 256 + raw[base + 3] in c.portMap)
  }

  lemma TouchedIsFixed(raw: bytes, c: Config)
    requires Touched(raw, c) && raw[23] in {6, 17}
    ensures FixesTransport(raw, c) && !c.IsEmpty() && Base(raw) == 14 + raw[14] % 16 * 4
    ensures TransportLength(raw) == PartLength(raw)
  {
  }

  lemma SumOfCoveredBytes(f: bytes, raw: bytes)
    requires |f| == |raw| && IsIpv4(raw) && TransportLength(raw) < 0x1_0000
    ensures var n := TransportLength(raw);
            Sum16(Covered(f, raw)) == Sum16(f[26..34]) + raw[23] + n + Sum16(f[Base(raw)..Base(raw) + n])
  {
    var n, part := TransportLength(raw), f[Base(raw)..Base(raw) + TransportLength(raw)];
    var ends, rest: bytes := f[26..34], [0, raw[23]] + ToBig16(n);
    assert PseudoHeader(f, raw[23], n) == ends + rest;
    hide Sum16, TransportLength, Base, ToBig16, IsIpv4;
    SumOfParts(ends + rest, part);
    SumOfParts(ends, rest);
    SumOfParts([0, raw[23]], ToBig16(n));
    SumOfWord([0, raw[23]]);
    SumOfWord(ToBig16(n));
  }

  lemma SumsByShape(raw: bytes, f: bytes)
    requires SameShape(raw, f) && IsIpv4(raw) && TransportLength(raw) == PartLength(raw)
    requires Base(raw) == 14 + raw[14] % 16 * 4 && TransportLength(raw) < 0x1_0000 && Verifies(Covered(f, raw))
    ensures TransportSums(f) && f[23] == raw[23] && f[14] == raw[14]
  {
    SameLengthFields(raw, f);
    SumOfCoveredBytes(f, raw);
    hide Sum16, Fold, Covered, TransportLength, SameShape, IsIpv4, Base;
  }

  lemma SameLengthFields(raw: bytes, f: bytes)
    requires SameShape(raw, f) && IsIpv4(raw)
    ensures f[14] == raw[14] && f[16] == raw[16] && f[17] == raw[17] && f[23] == raw[23]
    ensures 14 + raw[14] % 16 * 4 <= |raw| && PartLength(f) == PartLength(raw)
  {
    assert forall i :: 12 <= i < 24 ==> raw[i] == raw[12..24][i - 12] && f[i] == f[12..24][i - 12];
  }

  /** A TCP frame with an address or port mapped leaves with the checksum a receiver computes over its bytes. */
  lemma TcpSumsToOnes(raw: bytes, c: Config)
    requires Remapped(raw, c).Ok? && Touched(raw, c) && raw[23] == 6 && PartLength(raw) >= 18
    ensures var out := Remapped(raw, c).value; TransportSums(out) && out[23] == 6
  {
    TouchedIsFixed(raw, c);
    TcpField(raw);
    hide *;
    TransportVerifies(raw, c);
    RemapKeepsShape(raw, c);
    SumsByShape(raw, Remapped(raw, c).value);
  }

  lemma TcpField(raw: bytes)
    requires HasPorts(raw) && raw[23] == 6
    ensures ChecksumOffset(raw) == Base(raw) + 16 && !ChecksumDisabled(raw) && IsIpv4(raw)
  {
  }

  /**
    * So does a UDP frame that carries a checksum, and its length field states the transport length; its
    * checksum word is then not zero but for the case that reads as disabled.
    */
  lemma UdpSumsToOnes(raw: bytes, c: Config)
    requires Remapped(raw, c).Ok? && Touched(raw, c) && raw[23] == 17 && PartLength(raw) >= 8
    requires var base := 14 + raw[14] % 16 * 4; raw[base + 6] != 0 || raw[base + 7] != 0
    ensures var out, base := Remapped(raw, c).value, 14 + raw[14] % 16 * 4;
            && TransportSums(out) && out[23] == 17
            && (out[base + 4] as int) * 256 + out[base + 5] == PartLength(raw)
  {
    TouchedIsFixed(raw, c);
    UdpField(raw);
    hide *;
    TransportVerifies(raw, c);
    RemapKeepsShape(raw, c);
    SumsByShape(raw, Remapped(raw, c).value);
    UdpLengthStored(raw, c);
  }

  lemma UdpField(raw: bytes)
    requires HasPorts(raw) && raw[23] == 17 && |raw| >= Base(raw) + 8
    requires raw[Base(raw) + 6] != 0 || raw[Base(raw) + 7] != 0
    ensures ChecksumOffset(raw) == Base(raw) + 6 && !ChecksumDisabled(raw) && IsIpv4(raw)
  {
    var w := Slice(raw, Base(raw) + 6, Base(raw) + 8);
    assert w == [raw[Base(raw) + 6], raw[Base(raw) + 7]];
    assert w[..1] == [w[0]] && [w[0]][..0] == [];
    hide IsIpv4, Ihl;
    assert FromBig([w[0]]) == w[0] && FromBig(w) == (w[0] as int) * 256 + w[1];
  }

  lemma UdpLengthStored(raw: bytes, c: Config)
    requires Remapped(raw, c).Ok? && FixesTransport(raw, c) && !c.IsEmpty() && raw[23] == 17 && !ChecksumDisabled(raw)
    requires |raw| >= Base(raw) + 8 && TransportLength(raw) < 0x1_0000
    ensures Be16(Remapped(raw, c).value, Base(raw) + 4) == TransportLength(raw)
  {
    var b := Readdress(raw, c);
    var f := if IpChanged(raw, c) then FixIp(b, raw) else b;
    LengthIn(f, raw);
    hide FixTransport, Readdress, FixIp, TransportLength, IpChanged, PortsChanged, FragmentOffset, IsIpv4;
  }

  lemma LengthIn(f: bytes, raw: bytes)
    requires |f| == |raw| && HasPorts(raw) && raw[23] == 17 && !ChecksumDisabled(raw)
    requires |raw| >= Base(raw) + 8 && TransportLength(raw) < 0x1_0000
    ensures FixTransport(f, raw).Ok? && Be16(FixTransport(f, raw).value, Base(raw) + 4) == TransportLength(raw)
  {
    var base, l := Base(raw), ToBig16(TransportLength(raw));
    var b := Splice(f, base + 4, l);
    SpliceReads(f, base + 4, l, base + 4, base + 6);
    assert b[base + 4] == l[0] && b[base + 5] == l[1];
    StoreAt(b, raw, base + 4);
    StoreAt(b, raw, base + 5);
    hide StoreTransportChecksum, Splice, ToBig16, TransportLength, IsIpv4, Ihl, ChecksumDisabled;
  }

  lemma DisabledAt(raw: bytes, c: Config, i: nat)
    requires Remapped(raw, c).Ok? && HasPorts(raw) && ChecksumDisabled(raw) && Base(raw) + 4 <= i < |raw|
    ensures Remapped(raw, c).value[i] == raw[i]
  {
    if !c.IsEmpty() {
      ReaddressAt(raw, c, i);
      var b := Readdress(raw, c);
      if IpChanged(raw, c) {
        FixIpAt(b, raw, i);
      }
      if FixesTransport(raw, c) {
        DisabledIsSkipped(if IpChanged(raw, c) then FixIp(b, raw) else b, raw);
      }
    }
    hide FixIp, FixTransport, Readdress, IsIpv4, HasPorts, ChecksumDisabled;
  }

  lemma TailIsKept(raw: bytes, c: Config)
    requires Remapped(raw, c).Ok? && HasPorts(raw) && ChecksumDisabled(raw)
    ensures forall i :: Base(raw) + 4 <= i < |raw| ==> Remapped(raw, c).value[i] == raw[i]
  {
    hide Remapped, ChecksumDisabled;
    forall i | Base(raw) + 4 <= i < |raw| ensures Remapped(raw, c).value[i] == raw[i] {
      DisabledAt(raw, c, i);
    }
  }

  lemma DisabledTransfers(raw: bytes, out: bytes)
    requires SameShape(raw, out) && HasPorts(raw) && ChecksumDisabled(raw)
    requires forall i :: Base(raw) + 4 <= i < |raw| ==> out[i] == raw[i]
    ensures HasPorts(out) && ChecksumDisabled(out)
  {
    ShapeDecides(raw, out);
    SameSlice(out, raw, Base(raw) + 6, Base(raw) + 8);
    hide SameShape, FromBig, Slice, IsIpv4, Ihl, HasPorts, Base;
  }

  /** A UDP sender's choice to send no checksum survives. */
  lemma DisabledChecksumStays(raw: bytes, c: Config)
    requires Remapped(raw, c).Ok? && HasPorts(raw) && ChecksumDisabled(raw)
    ensures var out := Remapped(raw, c).value; HasPorts(out) && ChecksumDisabled(out)
  {
    hide Remapped, ChecksumDisabled, HasPorts, SameShape;
    RemapKeepsShape(raw, c);
    TailIsKept(raw, c);
    DisabledTransfers(raw, Remapped(raw, c).value);
  }

  lemma SameSlice(a: bytes, b: bytes, lo: nat, hi: nat)
    requires |a| == |b| && lo <= hi && forall i :: lo <= i < |a| ==> a[i] == b[i]
    ensures Slice(a, lo, hi) == Slice(b, lo, hi)
  {
  }

  lemma DisabledIsSkipped(buf: bytes, raw: bytes)
    requires |buf| == |raw| && HasPorts(raw) && ChecksumDisabled(raw)
    ensures FixTransport(buf, raw) == Ok(buf)
  {
  }
}
