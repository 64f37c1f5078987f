// Which frames keep every byte behind their IPv4 header when they are remapped. The module text
// of the remapper promises to leave the transport checksum of fragments alone; the code decides
// by the fragment offset only, so first fragments are recomputed, and it maps the "ports" of
// fragments that carry none.
module RemapFragments {
  import opened Wrappers
  import opened Bytes
  import opened Checksum
  import opened Remap
  import opened RemapTheorems
  import opened RemapInverse

  /** More fragments follow this one. */
  predicate MoreFragments(raw: bytes) requires IsIpv4(raw) { Be16(raw, 20) / 0x2000 % 2 == 1 }

  predicate IsFragment(raw: bytes) { IsIpv4(raw) && (MoreFragments(raw) || FragmentOffset(raw) > 0) }

  /** Neither number in the two port places maps to a different one. */
  predicate PortsStay(raw: bytes, c: Config) requires HasPorts(raw) {
    MappedPort(c, Be16(raw, Base(raw))) == Be16(raw, Base(raw))
    && MappedPort(c, Be16(raw, Base(raw) + 2)) == Be16(raw, Base(raw) + 2)
  }

  /** The UDP length, and the checksum if there is room, are stored as they come out over the readdressed bytes. */
  predicate FieldsStand(raw: bytes, c: Config)
    requires Writes(raw) && TransportLength(raw) < 0x1_0000
  {
    && (raw[23] == UDP ==> LengthStands(raw))
    && (ChecksumOffset(raw) + 2 <= |raw| ==> ChecksumStands(raw, c))
  }

  predicate LengthStands(raw: bytes) requires Writes(raw) && raw[23] == UDP {
    LengthRoom(raw);
    Be16(raw, Base(raw) + 4) == TransportLength(raw)
  }

  predicate ChecksumStands(raw: bytes, c: Config)
    requires Writes(raw) && TransportLength(raw) < 0x1_0000 && ChecksumOffset(raw) + 2 <= |raw|
  {
    Be16(raw, ChecksumOffset(raw)) == ChecksumOf(Covered(WithTransport(Readdress(raw, c), raw, [0, 0]), raw))
  }

  /** What has to hold before the call for the bytes behind the port places to stay. */
  predicate ChecksumStays(raw: bytes, c: Config) requires HasPorts(raw) {
    || FragmentOffset(raw) > 0
    || !(IpChanged(raw, c) || PortsChanged(raw, c))
    || !Writes(raw)
    || (TransportLength(raw) < 0x1_0000 && FieldsStand(raw, c))
  }

  // ------------------------------------------------------------ the two port places

  lemma SameWordsIff(a: bytes, b: bytes, base: nat)
    requires base + 4 <= |a| && |a| == |b|
    ensures a[base..base + 4] == b[base..base + 4] <==> Be16(a, base) == Be16(b, base)
                                                        && Be16(a, base + 2) == Be16(b, base + 2)
  {
    if Be16(a, base) == Be16(b, base) && Be16(a, base + 2) == Be16(b, base + 2) {
      WordGivesBytes(a, b, base);
      WordGivesBytes(a, b, base + 2);
      assert a[base..base + 4] == b[base..base + 4];
    }
    if a[base..base + 4] == b[base..base + 4] {
      SamePorts(a, b, base);
    }
  }

  lemma PlacesByPorts(out: bytes, raw: bytes, c: Config)
    requires HasPorts(raw) && Base(raw) + 4 <= |raw| && |out| == |raw|
    requires Be16(out, Base(raw)) == MappedPort(c, Be16(raw, Base(raw)))
    requires Be16(out, Base(raw) + 2) == MappedPort(c, Be16(raw, Base(raw) + 2))
    ensures out[Base(raw)..Base(raw) + 4] == raw[Base(raw)..Base(raw) + 4] <==> PortsStay(raw, c)
  {
    SameWordsIff(out, raw, Base(raw));
    hide HasPorts, MappedPort, Be16, Base, IsIpv4;
  }

  lemma PortPlacesKeptIff(raw: bytes, c: Config)
    requires Remapped(raw, c).Ok? && HasPorts(raw)
    ensures Base(raw) + 4 <= |raw|
    ensures Remapped(raw, c).value[Base(raw)..Base(raw) + 4] == raw[Base(raw)..Base(raw) + 4] <==> PortsStay(raw, c)
  {
    hide *;
    PortsWithin(raw);
    PortsAreMapped(raw, c);
    PlacesByPorts(Remapped(raw, c).value, raw, c);
  }

  // ------------------------------------------------------------ the bytes behind them

  /** The frame as the transport step finds it. */
  function BeforeTransport(raw: bytes, c: Config): (f: bytes)
    requires |raw| >= 14
    ensures |f| == |raw|
  {
    if IpChanged(raw, c) then FixIp(Readdress(raw, c), raw) else Readdress(raw, c)
  }

  lemma TailBeforeTransport(raw: bytes, c: Config)
    requires |raw| >= 14 && HasPorts(raw)
    ensures Base(raw) + 4 <= |raw| && BeforeTransport(raw, c)[Base(raw) + 4..] == raw[Base(raw) + 4..]
  {
    PortsWithin(raw);
    hide Readdress, FixIp, IpChanged;
    forall i | Base(raw) + 4 <= i < |raw| ensures BeforeTransport(raw, c)[i] == raw[i] {
      ReaddressAt(raw, c, i);
      if IpChanged(raw, c) {
        FixIpAt(Readdress(raw, c), raw, i);
      }
    }
  }

  lemma WordBeforeTransport(raw: bytes, c: Config)
    requires |raw| >= 14 && Writes(raw) && TransportLength(raw) < 0x1_0000
    ensures Word(BeforeTransport(raw, c), raw) == Word(Readdress(raw, c), raw)
  {
    if IpChanged(raw, c) {
      WordSkipsIpChecksum(Readdress(raw, c), raw);
    }
    hide Word, FixIp, Readdress, IpChanged;
  }

  lemma SpliceTail(a: bytes, from: nat, off: nat, w: bytes)
    requires from <= off && off + |w| <= |a|
    ensures Splice(a, off, w)[from..] == Splice(a[from..], off - from, w)
  {
    SpliceReads(a, off, w, from, |a|);
  }

  /** Overwriting changes nothing exactly when the word already stood there. */
  lemma SpliceChangesNothingIff(a: bytes, off: nat, w: bytes)
    requires off + |w| <= |a|
    ensures Splice(a, off, w) == a <==> a[off..off + |w|] == w
  {
    SpliceReads(a, off, w, off, off + |w|);
    if a[off..off + |w|] == w {
      SpliceSelf(a, off, off + |w|);
    }
  }

  lemma SplicesChangeNothingIff(a: bytes, m: nat, v: bytes, n: nat, w: bytes)
    requires m + |v| <= n && n + |w| <= |a|
    ensures Splice(Splice(a, m, v), n, w) == a <==> a[m..m + |v|] == v && a[n..n + |w|] == w
  {
    var b := Splice(Splice(a, m, v), n, w);
    SpliceReads(a, m, v, m, m + |v|);
    SpliceReads(Splice(a, m, v), n, w, m, m + |v|);
    SpliceReads(Splice(a, m, v), n, w, n, n + |w|);
    if a[m..m + |v|] == v && a[n..n + |w|] == w {
      SpliceSelf(a, m, m + |v|);
      SpliceSelf(a, n, n + |w|);
    }
    hide Splice;
  }

  /** The transport step keeps the bytes behind the port places exactly when its fields already stand. */
  lemma WithTransportTail(f: bytes, raw: bytes, w: bytes)
    requires |f| == |raw| && Writes(raw) && TransportLength(raw) < 0x1_0000 && |w| == 2
    requires Base(raw) + 4 <= |raw| && f[Base(raw) + 4..] == raw[Base(raw) + 4..]
    ensures WithTransport(f, raw, w)[Base(raw) + 4..] == raw[Base(raw) + 4..]
       <==> (raw[23] == UDP ==> LengthStands(raw))
            && (ChecksumOffset(raw) + 2 <= |raw| ==> raw[ChecksumOffset(raw)..ChecksumOffset(raw) + 2] == w)
  {
    hide *;
    WithTransportIs(f, raw, w);
    PortsWithin(raw);
    var base, l := Base(raw), ToBig16(TransportLength(raw));
    if raw[23] == UDP {
      LengthInTail(raw, l);
      UdpTail(f, raw, base + 4, l, w);
    } else {
      TcpTail(f, raw, base + 4, base + 16, w);
    }
  }

  lemma TcpTail(f: bytes, raw: bytes, from: nat, off: nat, w: bytes)
    requires |w| == 2 && from <= off && off + 2 <= |raw| == |f| && f[from..] == raw[from..]
    ensures Splice(f, off, w)[from..] == raw[from..] <==> raw[off..off + 2] == w
  {
    var t := raw[from..];
    SpliceTail(f, from, off, w);
    SpliceChangesNothingIff(t, off - from, w);
    assert t[off - from..off - from + 2] == raw[off..off + 2];
    hide Splice;
  }

  lemma UdpTail(f: bytes, raw: bytes, from: nat, l: bytes, w: bytes)
    requires |l| == 2 && |w| == 2 && from + 2 <= |raw| == |f| && f[from..] == raw[from..]
    ensures var b := Splice(f, from, l);
            if from + 4 <= |raw| then
              Splice(b, from + 2, w)[from..] == raw[from..] <==> raw[from..][..2] == l && raw[from + 2..from + 4] == w
            else b[from..] == raw[from..] <==> raw[from..][..2] == l
  {
    var t := raw[from..];
    SpliceTail(f, from, from, l);
    if from + 4 <= |raw| {
      SpliceTail(Splice(f, from, l), from, from + 2, w);
      SplicesChangeNothingIff(t, 0, l, 2, w);
      assert t[2..4] == raw[from + 2..from + 4] && t[0..2] == t[..2];
    } else {
      SpliceChangesNothingIff(t, 0, l);
      assert t[0..2] == t[..2];
    }
    hide Splice;
  }

  lemma LengthInTail(raw: bytes, l: bytes)
    requires Writes(raw) && raw[23] == UDP && TransportLength(raw) < 0x1_0000 && l == ToBig16(TransportLength(raw))
    ensures Base(raw) + 6 <= |raw| && (raw[Base(raw) + 4..][..2] == l <==> LengthStands(raw))
  {
    LengthRoom(raw);
    hide TransportLength, Writes;
    var t := raw[Base(raw) + 4..][..2];
    assert t[0] == raw[Base(raw) + 4] && t[1] == raw[Base(raw) + 5];
    if LengthStands(raw) {
      assert t == l;
    }
  }

  lemma BehindPortsKeptIff(raw: bytes, c: Config)
    requires Remapped(raw, c).Ok? && HasPorts(raw)
    ensures Base(raw) + 4 <= |raw|
    ensures Remapped(raw, c).value[Base(raw) + 4..] == raw[Base(raw) + 4..] <==> ChecksumStays(raw, c)
  {
    hide *;
    PortsWithin(raw);
    CoreIsRemapped(raw, c);
    TailBeforeTransport(raw, c);
    var f := BeforeTransport(raw, c);
    CoreSteps(raw, c);
    if FixesTransport(raw, c) {
      FixTransportForm(f, raw);
      if Writes(raw) {
        WordBeforeTransport(raw, c);
        WithTransportTail(f, raw, Word(f, raw));
        StaysByWord(raw, c);
      }
    }
  }

  lemma CoreSteps(raw: bytes, c: Config)
    requires |raw| >= 14 && HasPorts(raw)
    ensures Core(raw, c) == if FixesTransport(raw, c) then FixTransport(BeforeTransport(raw, c), raw)
                            else Ok(BeforeTransport(raw, c))
    ensures !FixesTransport(raw, c) || !Writes(raw) ==> ChecksumStays(raw, c)
  {
    hide FixTransport, FixIp, Readdress, FieldsStand, IpChanged, PortsChanged, Writes, FragmentOffset;
  }

  lemma WordIs(a: bytes, off: nat, v: nat)
    requires off + 2 <= |a| && v < 0x1_0000
    ensures Be16(a, off) == v <==> a[off..off + 2] == ToBig16(v)
  {
    if Be16(a, off) == v {
      assert a[off..off + 2] == [a[off], a[off + 1]];
    }
  }

  lemma StaysByWord(raw: bytes, c: Config)
    requires |raw| >= 14 && FixesTransport(raw, c) && Writes(raw) && TransportLength(raw) < 0x1_0000
    ensures ChecksumStays(raw, c)
       <==> (raw[23] == UDP ==> LengthStands(raw))
            && (ChecksumOffset(raw) + 2 <= |raw| ==>
                  raw[ChecksumOffset(raw)..ChecksumOffset(raw) + 2] == Word(Readdress(raw, c), raw))
  {
    hide *;
    StaysByFields(raw, c);
    FieldsByParts(raw, c);
    if ChecksumOffset(raw) + 2 <= |raw| {
      StandsByWord(raw, c);
    }
  }

  lemma StaysByFields(raw: bytes, c: Config)
    requires |raw| >= 14 && FixesTransport(raw, c) && Writes(raw) && TransportLength(raw) < 0x1_0000
    ensures HasPorts(raw) && |raw| > 23 && (ChecksumStays(raw, c) <==> FieldsStand(raw, c))
  {
    hide FieldsStand, TransportLength, IpChanged, PortsChanged, FragmentOffset, ChecksumDisabled;
  }

  lemma FieldsByParts(raw: bytes, c: Config)
    requires |raw| >= 14 && HasPorts(raw) && Writes(raw) && TransportLength(raw) < 0x1_0000 && |raw| > 23
    ensures FieldsStand(raw, c)
       <==> (raw[23] == UDP ==> LengthStands(raw)) && (ChecksumOffset(raw) + 2 <= |raw| ==> ChecksumStands(raw, c))
  {
    hide LengthStands, ChecksumStands, TransportLength, Writes, HasPorts, ChecksumOffset;
  }

  lemma StandsByWord(raw: bytes, c: Config)
    requires |raw| >= 14 && HasPorts(raw) && Writes(raw) && TransportLength(raw) < 0x1_0000
    requires ChecksumOffset(raw) + 2 <= |raw|
    ensures ChecksumStands(raw, c)
       <==> raw[ChecksumOffset(raw)..ChecksumOffset(raw) + 2] == Word(Readdress(raw, c), raw)
  {
    WordIs(raw, ChecksumOffset(raw), ChecksumOf(Covered(WithTransport(Readdress(raw, c), raw, [0, 0]), raw)));
    hide Be16, Readdress, Covered, WithTransport, ChecksumOf, ToBig16, TransportLength, Writes, HasPorts, IsIpv4;
  }

  // ------------------------------------------------------------ the whole part behind the header

  lemma CutAtPorts(out: bytes, raw: bytes, base: nat)
    requires base + 4 <= |raw| && |out| == |raw|
    ensures out[base..] == raw[base..] <==> out[base..base + 4] == raw[base..base + 4]
                                            && out[base + 4..] == raw[base + 4..]
  {
    assert out[base..] == out[base..base + 4] + out[base + 4..];
    assert raw[base..] == raw[base..base + 4] + raw[base + 4..];
  }

  /** Without ports there is nothing behind the header to rewrite. */
  lemma PortlessPartIsKept(raw: bytes, c: Config)
    requires Remapped(raw, c).Ok? && IsIpv4(raw) && !HasPorts(raw)
    ensures Remapped(raw, c).value[Base(raw)..] == raw[Base(raw)..]
  {
    hide Remapped;
    forall i | Base(raw) <= i < |raw| ensures Remapped(raw, c).value[i] == raw[i] {
      OnlyMappedFieldsChange(raw, c, i);
    }
  }

  /**
    * A frame keeps every byte behind its IPv4 header exactly when no port maps to a different
    * one and nothing is recomputed to a different value.
    */
  lemma TransportPartKeptIff(raw: bytes, c: Config)
    requires Remapped(raw, c).Ok? && IsIpv4(raw)
    ensures Remapped(raw, c).value[Base(raw)..] == raw[Base(raw)..]
       <==> (HasPorts(raw) ==> PortsStay(raw, c) && ChecksumStays(raw, c))
  {
    hide *;
    if HasPorts(raw) {
      PortPlacesKeptIff(raw, c);
      BehindPortsKeptIff(raw, c);
      CutAtPorts(Remapped(raw, c).value, raw, Base(raw));
    } else {
      PortlessPartIsKept(raw, c);
    }
  }

  /** Behind a non-zero offset the two "port places" are all that can change. */
  lemma LaterFragmentKeptIff(raw: bytes, c: Config)
    requires Remapped(raw, c).Ok? && IsIpv4(raw) && FragmentOffset(raw) > 0
    ensures Remapped(raw, c).value[Base(raw)..] == raw[Base(raw)..] <==> (HasPorts(raw) ==> PortsStay(raw, c))
  {
    TransportPartKeptIff(raw, c);
    hide Remapped, PortsStay, IsIpv4, FragmentOffset, IpChanged, PortsChanged, Writes, FieldsStand;
  }

  /** A first UDP fragment whose length field states more than the fragment holds is always damaged. */
  lemma FirstUdpFragmentIsDamaged(raw: bytes, c: Config)
    requires Remapped(raw, c).Ok? && HasPorts(raw) && raw[23] == UDP && MoreFragments(raw) && FragmentOffset(raw) == 0
    requires (IpChanged(raw, c) || PortsChanged(raw, c)) && !ChecksumDisabled(raw)
    requires |raw| >= Base(raw) + 6 && Be16(raw, Base(raw) + 4) > TransportLength(raw)
    ensures Remapped(raw, c).value[Base(raw)..] != raw[Base(raw)..]
  {
    TransportPartKeptIff(raw, c);
    hide Remapped, PortsStay, IsIpv4, FragmentOffset, IpChanged, PortsChanged, ChecksumStands, Base, TransportLength,
      ChecksumDisabled, MoreFragments;
  }

  // ------------------------------------------------------------ two fragments whose bytes change

  /** Maps port 1 to port 2. */
  const ONE_TO_TWO := Config(map[], map[], map[1 := 2])

  /** A 42-byte UDP fragment between zero addresses: flags and offset, and eight bytes behind the header. */
  function Fragment(flags: bytes, part: bytes): (f: bytes)
    requires |flags| == 2 && |part| == 8
    ensures |f| == 42
  {
    HEADERS[..20] + flags + HEADERS[22..] + part
  }

  lemma FragmentShape(flags: bytes, part: bytes)
    requires |flags| == 2 && |part| == 8
    ensures var f := Fragment(flags, part);
            && HasPorts(f) && f[23] == UDP && Base(f) == 34 && TransportLength(f) == 8
            && FragmentOffset(f) == Be16(flags, 0) % 0x2000
            && MoreFragments(f) == (Be16(flags, 0) / 0x2000 % 2 == 1)
            && f[26..30] == [0, 0, 0, 0] && f[30..34] == [0, 0, 0, 0] && f[34..42] == part
  {
    var f := Fragment(flags, part);
    assert f[12] == HEADERS[12] && f[13] == HEADERS[13] && f[14] == HEADERS[14] && f[16] == HEADERS[16];
    assert f[17] == HEADERS[17] && f[20] == flags[0] && f[21] == flags[1] && f[23] == HEADERS[23];
    assert f[26..30] == HEADERS[26..30] && f[30..34] == HEADERS[30..34];
  }

  lemma FragmentSplice(flags: bytes, part: bytes, at: nat, w: bytes)
    requires |flags| == 2 && |part| == 8 && at + |w| <= 8
    ensures Splice(Fragment(flags, part), 34 + at, w) == Fragment(flags, Splice(part, at, w))
  {
  }

  lemma FragmentPorts(flags: bytes, part: bytes)
    requires |flags| == 2 && |part| == 8
    ensures Be16(Fragment(flags, part), 34) == Be16(part, 0) && Be16(Fragment(flags, part), 36) == Be16(part, 2)
    ensures Slice(Fragment(flags, part), 40, 42) == part[6..8]
  {
    var f := Fragment(flags, part);
    FragmentShape(flags, part);
    hide Fragment, HEADERS;
    assert f[34] == f[34..42][0] && f[35] == f[34..42][1] && f[36] == f[34..42][2] && f[37] == f[34..42][3];
    assert f[40..42] == f[34..42][6..8];
  }

  /** The source port place reads 1, so it is mapped. */
  lemma FragmentMapped(flags: bytes, part: bytes)
    requires |flags| == 2 && |part| == 8 && Be16(part, 0) == 1 && Be16(part, 2) == 3
    ensures Readdress(Fragment(flags, part), ONE_TO_TWO) == Fragment(flags, Splice(part, 0, [0, 2]))
    ensures var f := Fragment(flags, part);
            !IpChanged(f, ONE_TO_TWO) && PortsChanged(f, ONE_TO_TWO) && HasPorts(f) && !PortsStay(f, ONE_TO_TWO)
  {
    hide *;
    FragmentShape(flags, part);
    FragmentPorts(flags, part);
    FragmentSplice(flags, part, 0, [0, 2]);
    OneMapsToTwo(Fragment(flags, part));
  }

  /** With port places 1 and 3 at byte 34 only the first is rewritten. */
  lemma OneMapsToTwo(f: bytes)
    requires HasPorts(f) && Base(f) == 34 && Be16(f, 34) == 1 && Be16(f, 36) == 3
    ensures |f| >= 38 && Readdress(f, ONE_TO_TWO) == Splice(f, 34, [0, 2])
    ensures !IpChanged(f, ONE_TO_TWO) && PortsChanged(f, ONE_TO_TWO) && !PortsStay(f, ONE_TO_TWO)
  {
    hide Splice, Be16;
    assert ToBig16(2) == [0, 2];
    assert MapMacs(f, f, ONE_TO_TWO) == f && MapIps(f, f, ONE_TO_TWO) == f;
  }

  /** In any later fragment the two bytes at the source port place are overwritten. */
  lemma LaterFragmentMapped(flags: bytes, part: bytes)
    requires |flags| == 2 && |part| == 8 && Be16(part, 0) == 1 && Be16(part, 2) == 3 && Be16(flags, 0) % 0x2000 > 0
    ensures var raw := Fragment(flags, part);
            && IsFragment(raw) && FragmentOffset(raw) > 0
            && Remapped(raw, ONE_TO_TWO) == Ok(Fragment(flags, Splice(part, 0, [0, 2])))
  {
    hide *;
    var raw := Fragment(flags, part);
    FragmentShape(flags, part);
    FragmentMapped(flags, part);
    LaterSteps(raw, ONE_TO_TWO);
    CoreIsRemapped(raw, ONE_TO_TWO);
  }

  /** A later fragment of a datagram: two bytes of its data are taken for a port and overwritten. */
  lemma LaterFragmentIsOverwritten()
    ensures var raw := Fragment([0, 1], [0, 1, 0, 3, 7, 7, 7, 7]);
            && IsFragment(raw) && FragmentOffset(raw) > 0
            && Remapped(raw, ONE_TO_TWO) == Ok(Fragment([0, 1], [0, 2, 0, 3, 7, 7, 7, 7]))
  {
    assert Splice([0, 1, 0, 3, 7, 7, 7, 7], 0, [0, 2]) == [0, 2, 0, 3, 7, 7, 7, 7];
    hide Fragment, HEADERS, Splice, IsFragment, FragmentOffset, Remapped, ONE_TO_TWO;
    LaterFragmentMapped([0, 1], [0, 1, 0, 3, 7, 7, 7, 7]);
  }

  lemma LaterSteps(raw: bytes, c: Config)
    requires |raw| >= 14 && IsIpv4(raw) && !IpChanged(raw, c) && FragmentOffset(raw) > 0
    ensures IsFragment(raw) && Core(raw, c) == Ok(Readdress(raw, c))
  {
    hide FixTransport, Readdress, IpChanged, PortsChanged, FragmentOffset, IsIpv4;
  }

  lemma FragmentCovered(flags: bytes, part: bytes, sport: bytes, dport: bytes, raw: bytes)
    requires |flags| == 2 && |part| == 8 && |sport| == 2 && |dport| == 2
    requires part == sport + (dport + [0, 8, 0, 0])
    requires |raw| == 42 && IsIpv4(raw) && TransportLength(raw) == 8 && raw[23] == UDP && Base(raw) == 34
    ensures ChecksumOf(Covered(Fragment(flags, part), raw))
         == 0xFFFF - Fold(33 + Be16(sport, 0) + Be16(dport, 0))
  {
    var f := Fragment(flags, part);
    FragmentShape(flags, part);
    SumOfCovered(sport, dport);
    hide Fragment, HEADERS, IsIpv4, TransportLength, Sum16, Fold;
    assert PseudoHeader(f, UDP, 8) == [0, 0, 0, 0, 0, 0, 0, 0, 0, 17, 0, 8];
  }

  /** The transport step on a fragment that stores the length of the whole datagram and its checksum. */
  lemma FragmentFixed(flags: bytes, raw: bytes)
    requires |flags| == 2
    requires |raw| == 42 && HasPorts(raw) && TransportLength(raw) == 8 && raw[23] == UDP && Base(raw) == 34
    requires !ChecksumDisabled(raw)
    ensures FixTransport(Fragment(flags, [0, 2, 0, 3, 0, 16, 18, 52]), raw)
         == Ok(Fragment(flags, [0, 2, 0, 3, 0, 8, 255, 217]))
  {
    var a: bytes, b: bytes, blank: bytes := [0, 2, 0, 3, 0, 16, 18, 52], [0, 2, 0, 3, 0, 8, 18, 52],
      [0, 2, 0, 3, 0, 8, 0, 0];
    PartSplices();
    FragmentSplice(flags, a, 4, [0, 8]);
    FragmentSplice(flags, b, 6, [0, 0]);
    FragmentSplice(flags, blank, 6, [255, 217]);
    FragmentCovered(flags, blank, [0, 2], [0, 3], raw);
    assert Be16([0, 2], 0) == 2 && Be16([0, 3], 0) == 3 && Fold(38) == 38;
    assert ToBig16(8) == [0, 8] && ToBig16(65497) == [255, 217];
    hide Fragment, HEADERS, IsIpv4, TransportLength, Splice, Covered, ChecksumOf, Fold, Be16, ChecksumDisabled, ToBig16;
  }

  lemma PartSplices()
    ensures Splice([0, 2, 0, 3, 0, 16, 18, 52], 4, [0, 8]) == [0, 2, 0, 3, 0, 8, 18, 52]
    ensures Splice([0, 2, 0, 3, 0, 8, 18, 52], 6, [0, 0]) == [0, 2, 0, 3, 0, 8, 0, 0]
    ensures Splice([0, 2, 0, 3, 0, 8, 0, 0], 6, [255, 217]) == [0, 2, 0, 3, 0, 8, 255, 217]
    ensures [0, 2] + ([0, 3] + [0, 8, 0, 0]) == [0, 2, 0, 3, 0, 8, 0, 0]
  {
  }

  lemma FirstFragmentMapped(flags: bytes, part: bytes)
    requires |flags| == 2 && Be16(flags, 0) % 0x2000 == 0 && Be16(flags, 0) / 0x2000 % 2 == 1
    requires part == [0, 1, 0, 3, 0, 16, 18, 52]
    ensures var raw := Fragment(flags, part);
            && IsFragment(raw) && MoreFragments(raw) && FragmentOffset(raw) == 0
            && Remapped(raw, ONE_TO_TWO) == Ok(Fragment(flags, [0, 2, 0, 3, 0, 8, 255, 217]))
  {
    PartFacts(part);
    hide *;
    var raw := Fragment(flags, part);
    FragmentShape(flags, part);
    FragmentPorts(flags, part);
    FragmentMapped(flags, part);
    StoredIsEnabled(raw);
    FragmentFixed(flags, raw);
    PortsOnlySteps(raw, ONE_TO_TWO, Fragment(flags, [0, 2, 0, 3, 0, 16, 18, 52]));
    CoreIsRemapped(raw, ONE_TO_TWO);
    FlagsOfFirst(raw);
  }

  lemma PartFacts(part: bytes)
    requires part == [0, 1, 0, 3, 0, 16, 18, 52]
    ensures Be16(part, 0) == 1 && Be16(part, 2) == 3 && part[6..8] == [18, 52]
    ensures Splice(part, 0, [0, 2]) == [0, 2, 0, 3, 0, 16, 18, 52]
  {
  }

  /**
    * A first fragment of a 16-byte UDP datagram: besides the mapped port, the datagram's length
    * and checksum are replaced by those of the fragment.
    */
  lemma FirstFragmentIsRecomputed()
    ensures var raw := Fragment([32, 0], [0, 1, 0, 3, 0, 16, 18, 52]);
            && IsFragment(raw) && MoreFragments(raw) && FragmentOffset(raw) == 0
            && Remapped(raw, ONE_TO_TWO) == Ok(Fragment([32, 0], [0, 2, 0, 3, 0, 8, 255, 217]))
  {
    hide Fragment, HEADERS, Splice, IsFragment, MoreFragments, FragmentOffset, Remapped, ONE_TO_TWO;
    FirstFragmentMapped([32, 0], [0, 1, 0, 3, 0, 16, 18, 52]);
  }

  lemma FlagsOfFirst(raw: bytes)
    requires IsIpv4(raw) && MoreFragments(raw)
    ensures IsFragment(raw)
  {
  }

  lemma PortsOnlySteps(raw: bytes, c: Config, readdressed: bytes)
    requires |raw| >= 14 && !IpChanged(raw, c) && PortsChanged(raw, c) && HasPorts(raw) && IsIpv4(raw)
    requires FragmentOffset(raw) == 0 && Readdress(raw, c) == readdressed
    ensures Core(raw, c) == FixTransport(readdressed, raw)
  {
    hide FixTransport, Readdress, IpChanged, PortsChanged, FragmentOffset, HasPorts, IsIpv4;
  }

  lemma StoredIsEnabled(f: bytes)
    requires HasPorts(f) && Base(f) == 34 && Slice(f, 40, 42) == [18, 52]
    ensures !ChecksumDisabled(f)
  {
    assert [18, 52][..1] == [18] && [18][..0] == [];
    hide Slice, HasPorts;
    assert FromBig([18]) == 18 && FromBig([18, 52]) == 4660;
  }
}
