// Structural checks on a frame before it is replayed.
module Validate {
  import opened Wrappers
  import opened Bytes
  import opened Checksum
  import opened Remap
  import RemapTheorems

  datatype Issue =
    | ShorterThanEthernet
    | TruncatedHeader
    | UnexpectedVersion(version: nat)
    | InvalidIhl(ihl: nat)
    | TruncatedOptions
    | TotalLengthTooSmall
    | ShorterThanTotalLength
    | TransportTruncated
    | HeaderChecksumMismatch

  /** The stored IPv4 header checksum is the one computed over the header with that field zeroed. */
  predicate HeaderChecksumMatches(raw: bytes) requires IsIpv4(raw) {
    ChecksumOf(Splice(raw[14..Base(raw)], 10, [0, 0])) == Be16(raw, 24)
  }

  /** The frames a replay lets through. */
  ghost predicate Acceptable(raw: bytes, verifyChecksums: bool) {
    && |raw| >= 14
    && (EtherType(raw) == 0x0800 ==>
          && IsIpv4(raw) && At(raw, 14) / 16 == 4
          && Ihl(raw) <= Be16(raw, 16) && 14 + Be16(raw, 16) <= |raw|
          && ((raw[23] == TCP || raw[23] == UDP) ==> Be16(raw, 16) >= Ihl(raw) + 4)
          && (verifyChecksums && raw[23] != UDP && raw[23] != 0 ==> HeaderChecksumMatches(raw)))
  }

  method ValidateFrame(raw: bytes, verifyChecksums: bool) returns (valid: bool, issues: seq<Issue>)
    ensures valid <==> Acceptable(raw, verifyChecksums)
    ensures valid <==> issues == []
  {
    hide ChecksumOf, Splice;
    issues := [];
    if |raw| < 14 {
      return false, [ShorterThanEthernet];
    }
    if Be16(raw, 12) != 0x0800 {
      return true, [];
    }
    if |raw| < 34 {
      return false, [TruncatedHeader];
    }
    var version := At(raw, 14) / 16;
    if version != 4 {
      issues := issues + [UnexpectedVersion(version)];
    }
    var ihl := At(raw, 14) % 16 * 4;
    if ihl < 20 {
      return false, issues + [InvalidIhl(ihl)];
    }
    if |raw| < 14 + ihl {
      return false, issues + [TruncatedOptions];
    }
    var totalLength := Be16(raw, 16);
    if totalLength < ihl {
      issues := issues + [TotalLengthTooSmall];
    } else if 14 + totalLength > |raw| {
      issues := issues + [ShorterThanTotalLength];
    }
    var protocol := raw[23];
    if protocol == TCP || protocol == UDP {
      if totalLength < ihl + 4 {
        issues := issues + [TransportTruncated];
      }
      if verifyChecksums && protocol == TCP {
        var matches := CheckHeader(raw);
        if !matches {
          issues := issues + [HeaderChecksumMismatch];
        }
      }
    } else if verifyChecksums && protocol != 0 {
      var matches := CheckHeader(raw);
      if !matches {
        issues := issues + [HeaderChecksumMismatch];
      }
    }
    valid := issues == [];
  }

  method CheckHeader(raw: bytes) returns (matches: bool)
    requires IsIpv4(raw)
    ensures matches == HeaderChecksumMatches(raw)
  {
    var header := new byte[Ihl(raw)](i requires 0 <= i < Ihl(raw) => raw[14 + i]);
    assert header[..] == raw[14..Base(raw)];
    var stored := At(header[..], 10) * 256 + At(header[..], 11);
    WriteAt(header, 10, [0, 0]);
    var sum := Compute(header[..]);
    matches := sum == stored;
  }

  // ------------------------------------------------------------ remapping keeps frames acceptable

  lemma FixIpMatches(buf: bytes, raw: bytes)
    requires |buf| == |raw| && IsIpv4(raw) && IsIpv4(buf) && Base(buf) == Base(raw)
    requires IsIpv4(FixIp(buf, raw)) && Base(FixIp(buf, raw)) == Base(raw)
    ensures HeaderChecksumMatches(FixIp(buf, raw))
  {
    var blank := Splice(buf, 24, [0, 0]);
    var header := blank[14..Base(raw)];
    var w := ToBig16(ChecksumOf(header));
    var out := Splice(blank, 24, w);
    SpliceReads(blank, 24, w, 14, Base(raw));
    SpliceReads(blank, 24, w, 24, 26);
    SpliceTwice(header, 10, w, [0, 0]);
    SpliceReads(buf, 24, [0, 0], 24, 26);
    assert header[10..12] == blank[24..26] == [0, 0];
    SpliceSelf(header, 10, 12);
    assert out[24] == out[24..26][0] && out[25] == out[24..26][1];
    hide ChecksumOf, Splice;
  }

  lemma MatchesByHeader(a: bytes, b: bytes)
    requires IsIpv4(a) && IsIpv4(b) && Base(a) == Base(b) && a[14..Base(a)] == b[14..Base(a)]
    ensures HeaderChecksumMatches(a) == HeaderChecksumMatches(b)
  {
    assert a[24] == a[14..Base(a)][10] && a[25] == a[14..Base(a)][11];
    assert b[24] == b[14..Base(a)][10] && b[25] == b[14..Base(a)][11];
    hide ChecksumOf, Splice;
  }

  lemma HeaderAfterTransport(raw: bytes, c: Config, fixed: bytes)
    requires Remapped(raw, c).Ok? && !c.IsEmpty() && IsIpv4(raw) && |raw| >= 14
    requires fixed == if IpChanged(raw, c) then FixIp(Readdress(raw, c), raw) else Readdress(raw, c)
    ensures |fixed| == |raw| && 34 <= Base(raw) <= |raw|
    ensures Remapped(raw, c).value[14..Base(raw)] == fixed[14..Base(raw)]
  {
    hide *;
    LastStep(raw, c, fixed);
    if FixesTransport(raw, c) {
      HeaderOfFixed(fixed, raw);
    }
  }

  lemma HeaderOfFixed(buf: bytes, raw: bytes)
    requires |buf| == |raw| && HasPorts(raw) && IsIpv4(raw) && FixTransport(buf, raw).Ok?
    ensures 34 <= Base(raw) <= |raw| && FixTransport(buf, raw).value[14..Base(raw)] == buf[14..Base(raw)]
  {
    hide *;
    RemapTheorems.PortsWithin(raw);
    RemapTheorems.FixTransportKeepsHeader(buf, raw);
    RemapTheorems.HeaderOfPrefix(FixTransport(buf, raw).value, buf, Base(raw));
  }

  lemma LastStep(raw: bytes, c: Config, fixed: bytes)
    requires Remapped(raw, c).Ok? && !c.IsEmpty() && IsIpv4(raw) && |raw| >= 14
    requires fixed == if IpChanged(raw, c) then FixIp(Readdress(raw, c), raw) else Readdress(raw, c)
    ensures |fixed| == |raw| && 34 <= Base(raw) <= |raw|
    ensures if FixesTransport(raw, c) then
              HasPorts(raw) && Base(raw) + 4 <= |raw| && Remapped(raw, c) == FixTransport(fixed, raw)
            else Remapped(raw, c) == Ok(fixed)
  {
    hide FixTransport, FixIp, Readdress, IpChanged, PortsChanged, FragmentOffset;
  }

  lemma HeaderKeptWithoutAddressChange(raw: bytes, c: Config)
    requires |raw| >= 14 && IsIpv4(raw) && !IpChanged(raw, c)
    ensures Readdress(raw, c)[14..Base(raw)] == raw[14..Base(raw)]
  {
    var m := MapMacs(raw, raw, c);
    RemapTheorems.MapMacsReads(raw, c, 14, Base(raw));
    var b := MapPorts(m, raw, c);
    forall i | 14 <= i < Base(raw) ensures b[i] == m[i] {
      if HasPorts(raw) {
        RemapTheorems.MapPortAt(m, raw, Base(raw), c, i);
        RemapTheorems.MapPortAt(MapPort(m, raw, Base(raw), c), raw, Base(raw) + 2, c, i);
      }
    }
    RemapTheorems.SliceByBytes(b, m, 14, Base(raw));
    hide MapMacs, MapPorts;
  }

  lemma ReaddressKeepsShape(raw: bytes, c: Config)
    requires |raw| >= 14
    ensures RemapTheorems.SameShape(raw, Readdress(raw, c))
  {
    var b := Readdress(raw, c);
    forall i | 12 <= i < 24 && i < |raw| ensures b[i] == raw[i] {
      RemapTheorems.ReaddressAt(raw, c, i);
    }
    hide Readdress;
  }

  lemma FixIpKeepsShape(buf: bytes, raw: bytes)
    requires |buf| == |raw| && IsIpv4(raw)
    ensures RemapTheorems.SameShape(buf, FixIp(buf, raw))
  {
    var b := FixIp(buf, raw);
    forall i | 12 <= i < 24 ensures b[i] == buf[i] {
      RemapTheorems.FixIpAt(buf, raw, i);
    }
    hide FixIp;
  }

  /** After an address change the stored header checksum is the computed one; otherwise it still is if it was. */
  lemma HeaderStaysMatched(raw: bytes, c: Config)
    requires Remapped(raw, c).Ok? && |raw| >= 14 && IsIpv4(raw) && !c.IsEmpty()
    requires IsIpv4(Remapped(raw, c).value) && Base(Remapped(raw, c).value) == Base(raw)
    ensures (IpChanged(raw, c) || HeaderChecksumMatches(raw)) ==> HeaderChecksumMatches(Remapped(raw, c).value)
  {
    var out, b := Remapped(raw, c).value, Readdress(raw, c);
    HeaderAfterTransport(raw, c, if IpChanged(raw, c) then FixIp(b, raw) else b);
    ReaddressKeepsShape(raw, c);
    RemapTheorems.ShapeDecides(raw, b);
    hide Remapped, Readdress, HeaderChecksumMatches, FixIp;
    if IpChanged(raw, c) {
      var fixed := FixIp(b, raw);
      FixIpKeepsShape(b, raw);
      RemapTheorems.ShapeDecides(b, fixed);
      FixIpMatches(b, raw);
      MatchesByHeader(fixed, out);
    } else {
      HeaderKeptWithoutAddressChange(raw, c);
      MatchesByHeader(raw, out);
    }
  }

  /** An accepted frame states a length that fits, so it remaps. */
  lemma AcceptedRemaps(raw: bytes, c: Config, verifyChecksums: bool)
    requires Acceptable(raw, verifyChecksums)
    ensures Remapped(raw, c).Ok?
  {
    RemapTheorems.RemapFailsIff(raw, c);
    hide Remapped, Writes, HeaderChecksumMatches, FragmentOffset, IpChanged, PortsChanged;
  }

  /** Every frame the validator accepts, with or without checksums, can be remapped and is accepted afterwards. */
  lemma AcceptedStaysAccepted(raw: bytes, c: Config, verifyChecksums: bool)
    requires Acceptable(raw, verifyChecksums)
    ensures Remapped(raw, c).Ok? && Acceptable(Remapped(raw, c).value, verifyChecksums)
  {
    AcceptedRemaps(raw, c, verifyChecksums);
    var out := Remapped(raw, c).value;
    RemapTheorems.RemapKeepsShape(raw, c);
    RemapTheorems.ShapeDecides(raw, out);
    if !c.IsEmpty() && IsIpv4(raw) {
      HeaderStaysMatched(raw, c);
    }
    hide HeaderChecksumMatches, RemapTheorems.SameShape, FixTransport, FixIp, Readdress;
  }
}
