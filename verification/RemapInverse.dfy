// Mapping back: which frames a remap and then its inverse restore byte for byte.
module RemapInverse {
  import opened Wrappers
  import opened Bytes
  import opened Checksum
  import opened Remap
  import opened RemapTheorems
  import Validate

  // ------------------------------------------------------------ inverse maps

  /** c' maps back what c maps, and touches nothing that c did not produce. */
  ghost predicate Undoes(c: Config, c': Config) {
    && (forall x: bytes {:trigger Lookup(c.macMap, x)} :: |x| == 6 ==>
          (x in c.macMap <==> Lookup(c.macMap, x) in c'.macMap) && Lookup(c'.macMap, Lookup(c.macMap, x)) == x)
    && (forall x: bytes {:trigger Lookup(c.ipMap, x)} :: |x| == 4 ==>
          (x in c.ipMap <==> Lookup(c.ipMap, x) in c'.ipMap) && Lookup(c'.ipMap, Lookup(c.ipMap, x)) == x)
    && (forall x: Port {:trigger MappedPort(c, x)} ::
          (x in c.portMap <==> MappedPort(c, x) in c'.portMap) && MappedPort(c', MappedPort(c, x)) == x)
  }

  /** No two keys share a value, and whatever is not a key is not a value either. */
  ghost predicate Permutes<T>(m: map<T, T>) {
    && (forall a, b :: a in m && b in m && m[a] == m[b] ==> a == b)
    && (forall a :: a in m ==> m[a] in m)
  }

  ghost predicate Invertible(c: Config) {
    && (forall k :: k in c.macMap ==> |k| == 6) && (forall k :: k in c.ipMap ==> |k| == 4)
    && (forall k :: k in c.portMap ==> 0 <= k < 0x1_0000)
    && Permutes<bytes>(c.macMap) && Permutes<bytes>(c.ipMap) && Permutes<int>(c.portMap)
  }

  ghost function KeyOf<T>(m: map<T, T>, v: T): (k: T)
    requires v in m.Values
    ensures k in m && m[k] == v
  {
    var k :| k in m && m[k] == v; k
  }

  ghost function MacsBack(m: map<bytes, Mac>): map<bytes, Mac>
    requires forall k :: k in m ==> |k| == 6
  {
    map v | v in m.Values :: KeyOf<bytes>(m, v)
  }

  ghost function IpsBack(m: map<bytes, Ip4>): map<bytes, Ip4>
    requires forall k :: k in m ==> |k| == 4
  {
    map v | v in m.Values :: KeyOf<bytes>(m, v)
  }

  ghost function PortsBack(m: map<int, Port>): map<int, Port>
    requires forall k :: k in m ==> 0 <= k < 0x1_0000
  {
    map v | v in m.Values :: KeyOf<int>(m, v)
  }

  ghost function Backwards(c: Config): Config
    requires Invertible(c)
  {
    Config(MacsBack(c.macMap), IpsBack(c.ipMap), PortsBack(c.portMap))
  }

  lemma BackwardsUndoes(c: Config)
    requires Invertible(c)
    ensures Undoes(c, Backwards(c))
  {
    hide Backwards, Invertible;
    var d := Backwards(c);
    forall x: bytes | |x| == 6
      ensures var y := Lookup(c.macMap, x); (x in c.macMap <==> y in d.macMap) && Lookup(d.macMap, y) == x
    {
      MacBackwards(c, x);
    }
    forall x: bytes | |x| == 4
      ensures var y := Lookup(c.ipMap, x); (x in c.ipMap <==> y in d.ipMap) && Lookup(d.ipMap, y) == x
    {
      IpBackwards(c, x);
    }
    forall x: Port
      ensures var y := MappedPort(c, x); (x in c.portMap <==> y in d.portMap) && MappedPort(d, y) == x
    {
      PortBackwards(c, x);
    }
  }

  lemma MacBackwards(c: Config, x: bytes)
    requires Invertible(c) && |x| == 6
    ensures var d, y := Backwards(c), Lookup(c.macMap, x); (x in c.macMap <==> y in d.macMap)
                                                           && Lookup(d.macMap, y) == x
  {
    BackwardsAt<bytes>(c.macMap, x);
    hide Permutes;
  }

  lemma IpBackwards(c: Config, x: bytes)
    requires Invertible(c) && |x| == 4
    ensures var d, y := Backwards(c), Lookup(c.ipMap, x); (x in c.ipMap <==> y in d.ipMap) && Lookup(d.ipMap, y) == x
  {
    BackwardsAt<bytes>(c.ipMap, x);
    hide Permutes;
  }

  lemma PortBackwards(c: Config, x: Port)
    requires Invertible(c)
    ensures var d, y := Backwards(c), MappedPort(c, x); (x in c.portMap <==> y in d.portMap) && MappedPort(d, y) == x
  {
    BackwardsAt<int>(c.portMap, x);
    hide Permutes;
  }

  lemma BackwardsAt<T>(m: map<T, T>, x: T)
    requires Permutes(m)
    ensures x in m ==> m[x] in m.Values && KeyOf(m, m[x]) == x
    ensures x !in m ==> x !in m.Values
  {
  }

  // ------------------------------------------------------------ readdressing twice

  lemma MacUndone(c: Config, c': Config, x: bytes)
    requires Undoes(c, c') && |x| == 6
    ensures Lookup(c'.macMap, Lookup(c.macMap, x)) == x
  {
  }

  lemma IpUndone(c: Config, c': Config, x: bytes)
    requires Undoes(c, c') && |x| == 4
    ensures Lookup(c'.ipMap, Lookup(c.ipMap, x)) == x && (x in c.ipMap <==> Lookup(c.ipMap, x) in c'.ipMap)
  {
  }

  lemma PortUndone(c: Config, c': Config, x: Port)
    requires Undoes(c, c')
    ensures MappedPort(c', MappedPort(c, x)) == x && (x in c.portMap <==> MappedPort(c, x) in c'.portMap)
  {
  }

  lemma AddressesComeBack(raw: bytes, c: Config, c': Config)
    requires Undoes(c, c') && |raw| >= 14
    ensures var e := Readdress(Readdress(raw, c), c');
            && e[0..6] == raw[0..6] && e[6..12] == raw[6..12]
            && (IsIpv4(raw) ==> e[26..30] == raw[26..30] && e[30..34] == raw[30..34])
  {
    var b := Readdress(raw, c);
    Validate.ReaddressKeepsShape(raw, c);
    ShapeDecides(raw, b);
    ReaddressFields(raw, c);
    ReaddressFields(b, c');
    MacUndone(c, c', raw[0..6]);
    MacUndone(c, c', raw[6..12]);
    if IsIpv4(raw) {
      IpUndone(c, c', raw[26..30]);
      IpUndone(c, c', raw[30..34]);
    }
    hide Readdress, SameShape, IsIpv4, HasPorts, Undoes, Lookup;
  }

  lemma PortsComeBack(raw: bytes, c: Config, c': Config)
    requires Undoes(c, c') && |raw| >= 14 && HasPorts(raw)
    ensures var e := Readdress(Readdress(raw, c), c');
            Be16(e, Base(raw)) == Be16(raw, Base(raw)) && Be16(e, Base(raw) + 2) == Be16(raw, Base(raw) + 2)
  {
    hide Readdress, Undoes, SameShape;
    var b := Readdress(raw, c);
    Validate.ReaddressKeepsShape(raw, c);
    ShapeDecides(raw, b);
    PortsMappedTwice(raw, b, c, c');
  }

  lemma PortBack(c: Config, c': Config, x: Port, y: nat, z: nat)
    requires Undoes(c, c') && y == MappedPort(c, x) && z == MappedPort(c', y)
    ensures z == x
  {
    PortUndone(c, c', x);
    hide Undoes;
  }

  lemma PortsMappedTwice(raw: bytes, b: bytes, c: Config, c': Config)
    requires Undoes(c, c') && |raw| >= 14 && HasPorts(raw) && b == Readdress(raw, c) && HasPorts(b)
             && Base(b) == Base(raw)
    ensures var e := Readdress(b, c');
            Be16(e, Base(raw)) == Be16(raw, Base(raw)) && Be16(e, Base(raw) + 2) == Be16(raw, Base(raw) + 2)
  {
    hide *;
    PortsWithin(raw);
    var base := Base(raw);
    ReaddressPorts(raw, c);
    ReaddressPorts(b, c');
    var e := Readdress(b, c');
    PortBack(c, c', Be16(raw, base), Be16(b, base), Be16(e, base));
    PortBack(c, c', Be16(raw, base + 2), Be16(b, base + 2), Be16(e, base + 2));
  }

  /** Byte i lies in no field that readdressing rewrites. */
  ghost predicate Rest(raw: bytes, i: nat) {
    i >= 12 && (IsIpv4(raw) ==> !(26 <= i < 34)) && (HasPorts(raw) ==> !(Base(raw) <= i < Base(raw) + 4))
  }

  lemma RestComesBack(raw: bytes, c: Config, c': Config)
    requires |raw| >= 14
    ensures var e := Readdress(Readdress(raw, c), c'); forall i :: 0 <= i < |raw| && Rest(raw, i) ==> e[i] == raw[i]
  {
    var b := Readdress(raw, c);
    Validate.ReaddressKeepsShape(raw, c);
    ShapeDecides(raw, b);
    hide Readdress, SameShape;
    forall i | 0 <= i < |raw| && Rest(raw, i) ensures Readdress(b, c')[i] == raw[i] {
      ReaddressAt(raw, c, i);
      ReaddressAt(b, c', i);
    }
  }

  lemma SliceGivesBytes(e: bytes, raw: bytes, lo: nat, hi: nat)
    requires lo <= hi <= |raw| && |e| == |raw| && e[lo..hi] == raw[lo..hi]
    ensures forall i :: lo <= i < hi ==> e[i] == raw[i]
  {
    forall i | lo <= i < hi ensures e[i] == raw[i] {
      assert e[i] == e[lo..hi][i - lo] && raw[i] == raw[lo..hi][i - lo];
    }
  }

  lemma WordGivesBytes(a: bytes, b: bytes, off: nat)
    requires off + 2 <= |a| && |a| == |b| && Be16(a, off) == Be16(b, off)
    ensures a[off] == b[off] && a[off + 1] == b[off + 1]
  {
  }

  /** Addresses and ports mapped and mapped back are the original frame. */
  lemma ReaddressBack(raw: bytes, c: Config, c': Config)
    requires Undoes(c, c') && |raw| >= 14
    ensures Readdress(Readdress(raw, c), c') == raw
  {
    hide Readdress, Undoes, IsIpv4, HasPorts;
    var e := Readdress(Readdress(raw, c), c');
    RestComesBack(raw, c, c');
    AddressesComeBack(raw, c, c');
    SliceGivesBytes(e, raw, 0, 6);
    SliceGivesBytes(e, raw, 6, 12);
    if IsIpv4(raw) {
      InHeader(raw);
      SliceGivesBytes(e, raw, 26, 30);
      SliceGivesBytes(e, raw, 30, 34);
    }
    if HasPorts(raw) {
      InHeader(raw);
      PortsComeBack(raw, c, c');
      WordGivesBytes(e, raw, Base(raw));
      WordGivesBytes(e, raw, Base(raw) + 2);
    }
    forall i | 0 <= i < |raw| ensures e[i] == raw[i] {
      if Rest(raw, i) {
      }
    }
  }

  lemma InHeader(raw: bytes)
    ensures IsIpv4(raw) ==> |raw| >= 34
    ensures HasPorts(raw) ==> IsIpv4(raw) && Base(raw) + 4 <= |raw|
  {
  }

  // ------------------------------------------------------------ readdressing past a checksum field

  lemma MapMacsSplice(raw: bytes, c: Config, at: nat, p: bytes)
    requires |raw| >= 14 && 12 <= at && at + |p| <= |raw|
    ensures MapMacs(Splice(raw, at, p), Splice(raw, at, p), c) == Splice(MapMacs(raw, raw, c), at, p)
  {
    hide Splice;
    var dst, src := raw[0..6], raw[6..12];
    SpliceReads(raw, at, p, 0, 6);
    SpliceReads(raw, at, p, 6, 12);
    if dst in c.macMap {
      SplicesCommute(raw, 0, c.macMap[dst], at, p);
    }
    if src in c.macMap {
      SplicesCommute(if dst in c.macMap then Splice(raw, 0, c.macMap[dst]) else raw, 6, c.macMap[src], at, p);
    }
  }

  lemma SpliceApart(data: bytes, a: nat, p: bytes, b: nat, q: bytes)
    requires a + |p| <= |data| && b + |q| <= |data| && (a + |p| <= b || b + |q| <= a)
    ensures Splice(Splice(data, a, p), b, q) == Splice(Splice(data, b, q), a, p)
  {
    if a + |p| <= b {
      SplicesCommute(data, a, p, b, q);
    } else {
      SplicesCommute(data, b, q, a, p);
    }
  }

  lemma MapIpsSplice(buf: bytes, raw: bytes, raw': bytes, c: Config, at: nat, p: bytes)
    requires |buf| == |raw| == |raw'| && IsIpv4(raw) && IsIpv4(raw') && at + |p| <= |buf| && (at + |p| <= 26
                                                                                              || 34 <= at)
    requires raw'[26..30] == raw[26..30] && raw'[30..34] == raw[30..34]
    ensures MapIps(Splice(buf, at, p), raw', c) == Splice(MapIps(buf, raw, c), at, p)
  {
    var src, dst := raw[26..30], raw[30..34];
    hide Splice, IsIpv4;
    if src in c.ipMap {
      SpliceApart(buf, 26, c.ipMap[src], at, p);
    }
    if dst in c.ipMap {
      SpliceApart(if src in c.ipMap then Splice(buf, 26, c.ipMap[src]) else buf, 30, c.ipMap[dst], at, p);
    }
  }

  lemma MapPortSplice(buf: bytes, raw: bytes, raw': bytes, off: nat, c: Config, at: nat, p: bytes)
    requires |buf| == |raw| == |raw'| >= off + 2 && at + |p| <= |buf| && (at + |p| <= off || off + 2 <= at)
    requires Be16(raw, off) == Be16(raw', off)
    ensures MapPort(Splice(buf, at, p), raw', off, c) == Splice(MapPort(buf, raw, off, c), at, p)
  {
    hide Splice, Be16, ToBig16;
    var port := Be16(raw, off);
    if port in c.portMap {
      SpliceApart(buf, off, ToBig16(c.portMap[port]), at, p);
    }
  }

  /** The position holds no field that readdressing reads or writes. */
  ghost predicate Aside(raw: bytes, at: nat, n: nat) {
    IsIpv4(raw) && ((at == 24 && n == 2) || (HasPorts(raw) && Base(raw) + 4 <= at)) && at + n <= |raw|
  }

  lemma SpliceAsideKeepsShape(raw: bytes, at: nat, p: bytes)
    requires Aside(raw, at, |p|)
    ensures SameShape(raw, Splice(raw, at, p))
    ensures HasPorts(raw) ==> var r := Splice(raw, at, p);
                              Be16(r, Base(raw)) == Be16(raw, Base(raw))
                              && Be16(r, Base(raw) + 2) == Be16(raw, Base(raw) + 2)
  {
    SpliceReads(raw, at, p, 12, 24);
    if HasPorts(raw) {
      SpliceReads(raw, at, p, Base(raw), Base(raw) + 4);
      SamePorts(Splice(raw, at, p), raw, Base(raw));
    }
    hide Splice;
  }

  lemma MapPortsSplice(buf: bytes, raw: bytes, raw': bytes, c: Config, at: nat, p: bytes)
    requires |buf| == |raw| == |raw'| && HasPorts(raw) && HasPorts(raw') && Base(raw') == Base(raw)
    requires at + |p| <= |buf| && (at + |p| <= Base(raw) || Base(raw) + 4 <= at)
    requires Be16(raw', Base(raw)) == Be16(raw, Base(raw)) && Be16(raw', Base(raw) + 2) == Be16(raw, Base(raw) + 2)
    ensures MapPorts(Splice(buf, at, p), raw', c) == Splice(MapPorts(buf, raw, c), at, p)
  {
    var base := Base(raw);
    assert base + 4 <= |raw|;
    hide Splice, IsIpv4, MapPort, Be16, Base;
    MapPortSplice(buf, raw, raw', base, c, at, p);
    MapPortSplice(MapPort(buf, raw, base, c), raw, raw', base + 2, c, at, p);
  }

  /** Overwriting a checksum or length field commutes with readdressing. */
  lemma ReaddressSplice(raw: bytes, c: Config, at: nat, p: bytes)
    requires Aside(raw, at, |p|)
    ensures Readdress(Splice(raw, at, p), c) == Splice(Readdress(raw, c), at, p)
  {
    var r := Splice(raw, at, p);
    SpliceAsideKeepsShape(raw, at, p);
    ShapeDecides(raw, r);
    assert |raw| >= 34 && at >= 24 && (at + |p| <= 26 || 34 <= at);
    SpliceReads(raw, at, p, 26, 30);
    SpliceReads(raw, at, p, 30, 34);
    MapMacsSplice(raw, c, at, p);
    var m := MapMacs(raw, raw, c);
    MapIpsSplice(m, raw, r, c, at, p);
    if HasPorts(raw) {
      MapPortsSplice(MapIps(m, raw, c), raw, r, c, at, p);
    }
    hide Splice, SameShape, IsIpv4, HasPorts, MapMacs, MapIps, MapPort, Be16, Base, Ihl, Aside;
  }

  // ------------------------------------------------------------ the checksum steps as overwrites

  /** The empty-configuration shortcut of remapping is not a special case. */
  function Core(raw: bytes, c: Config): Result<bytes, RemapError>
    requires |raw| >= 14
  {
    var b := Readdress(raw, c);
    var fixed := if IpChanged(raw, c) then FixIp(b, raw) else b;
    if FixesTransport(raw, c) then FixTransport(fixed, raw) else Ok(fixed)
  }

  lemma CoreIsRemapped(raw: bytes, c: Config)
    requires |raw| >= 14
    ensures Remapped(raw, c) == Core(raw, c)
  {
    if c.IsEmpty() {
      assert MapMacs(raw, raw, c) == raw;
    }
    hide FixTransport, FixIp, Splice;
  }

  /** The UDP length, if the frame is UDP, and then word w in the checksum field, if there is room. */
  function WithTransport(buf: bytes, raw: bytes, w: bytes): (r: bytes)
    requires |buf| == |raw| && Writes(raw) && TransportLength(raw) < 0x1_0000 && |w| == 2
    ensures |r| == |raw|
  {
    LengthRoom(raw);
    var b := if raw[23] == UDP then Splice(buf, Base(raw) + 4, ToBig16(TransportLength(raw))) else buf;
    if ChecksumOffset(raw) + 2 <= |raw| then Splice(b, ChecksumOffset(raw), w) else b
  }

  lemma LengthRoom(raw: bytes)
    requires Writes(raw)
    ensures raw[23] == UDP ==> Base(raw) + 6 < |raw|
  {
    if raw[23] == UDP {
      LengthFieldFits(raw);
    }
  }

  function Word(buf: bytes, raw: bytes): (w: bytes)
    requires |buf| == |raw| && Writes(raw) && TransportLength(raw) < 0x1_0000
    ensures |w| == 2
  {
    if ChecksumOffset(raw) + 2 <= |raw| then ToBig16(ChecksumOf(Covered(WithTransport(buf, raw, [0, 0]), raw)))
    else [0, 0]
  }

  lemma FixTransportForm(buf: bytes, raw: bytes)
    requires |buf| == |raw| && HasPorts(raw) && FixTransport(buf, raw).Ok?
    ensures !Writes(raw) ==> FixTransport(buf, raw) == Ok(buf)
    ensures Writes(raw) ==>
              TransportLength(raw) < 0x1_0000 && FixTransport(buf, raw) == Ok(WithTransport(buf, raw, Word(buf, raw)))
  {
    hide ChecksumOf, ToBig16, Covered;
    if Writes(raw) && ChecksumOffset(raw) + 2 <= |raw| {
      LengthRoom(raw);
      var b := if raw[23] == UDP then Splice(buf, Base(raw) + 4, ToBig16(TransportLength(raw))) else buf;
      SpliceTwice(b, ChecksumOffset(raw), [0, 0], Word(buf, raw));
    }
    hide Splice;
  }

  lemma WithTransportTwice(buf: bytes, raw: bytes, v: bytes, w: bytes)
    requires |buf| == |raw| && Writes(raw) && TransportLength(raw) < 0x1_0000 && |v| == 2 && |w| == 2
    ensures WithTransport(WithTransport(buf, raw, v), raw, w) == WithTransport(buf, raw, w)
  {
    hide *;
    WithTransportIs(buf, raw, v);
    WithTransportIs(buf, raw, w);
    WithTransportIs(WithTransport(buf, raw, v), raw, w);
    PortsWithin(raw);
    var base, l := Base(raw), ToBig16(TransportLength(raw));
    if raw[23] != UDP {
      SpliceTwice(buf, base + 16, v, w);
    } else if base + 8 <= |raw| {
      BothFieldsTwice(buf, base + 4, l, v, w);
    } else {
      SpliceTwice(buf, base + 4, l, l);
    }
  }

  lemma WithTransportIs(f: bytes, raw: bytes, w: bytes)
    requires |f| == |raw| && Writes(raw) && TransportLength(raw) < 0x1_0000 && |w| == 2
    ensures HasPorts(raw)
    ensures raw[23] == UDP ==>
              && ChecksumOffset(raw) == Base(raw) + 6 < |raw|
              && var b := Splice(f, Base(raw) + 4, ToBig16(TransportLength(raw)));
                 WithTransport(f, raw, w) == if Base(raw) + 8 <= |raw| then Splice(b, Base(raw) + 6, w) else b
    ensures raw[23] != UDP ==>
              && ChecksumOffset(raw) == Base(raw) + 16 && Base(raw) + 18 <= |raw|
              && WithTransport(f, raw, w) == Splice(f, Base(raw) + 16, w)
  {
    LengthRoom(raw);
    hide Splice, ToBig16, TransportLength, ChecksumDisabled, IsIpv4, Ihl;
  }

  lemma BothFieldsTwice(buf: bytes, at: nat, l: bytes, v: bytes, w: bytes)
    requires |l| == 2 && |v| == 2 && |w| == 2 && at + 4 <= |buf|
    ensures var b := Splice(buf, at, l);
            Splice(Splice(Splice(b, at + 2, v), at, l), at + 2, w) == Splice(b, at + 2, w)
  {
    hide Splice;
    var b := Splice(buf, at, l);
    SpliceTwice(buf, at, l, l);
    SplicesCommute(b, at, l, at + 2, v);
    SpliceTwice(b, at + 2, v, w);
  }

  /** Overwriting the transport fields first does not change what the transport step stores. */
  lemma WordIgnoresOldFields(buf: bytes, raw: bytes, v: bytes)
    requires |buf| == |raw| && Writes(raw) && TransportLength(raw) < 0x1_0000 && |v| == 2
    ensures Word(WithTransport(buf, raw, v), raw) == Word(buf, raw)
  {
    WithTransportTwice(buf, raw, v, [0, 0]);
    hide WithTransport, Covered, ChecksumOf, Writes;
  }

  lemma FixIpSplice(buf: bytes, raw: bytes, at: nat, p: bytes)
    requires |buf| == |raw| && IsIpv4(raw) && Base(raw) <= at && at + |p| <= |raw|
    ensures FixIp(Splice(buf, at, p), raw) == Splice(FixIp(buf, raw), at, p)
  {
    var blank := Splice(buf, 24, [0, 0]);
    SplicesCommute(buf, 24, [0, 0], at, p);
    SpliceReads(blank, at, p, 14, Base(raw));
    var w := ToBig16(ChecksumOf(blank[14..Base(raw)]));
    SplicesCommute(blank, 24, w, at, p);
    hide Splice, ChecksumOf, ToBig16;
  }

  lemma FixIpTransport(buf: bytes, raw: bytes, w: bytes)
    requires |buf| == |raw| && Writes(raw) && TransportLength(raw) < 0x1_0000 && |w| == 2
    ensures FixIp(WithTransport(buf, raw, w), raw) == WithTransport(FixIp(buf, raw), raw, w)
  {
    hide Splice, FixIp, ToBig16, TransportLength;
    LengthRoom(raw);
    var l := ToBig16(TransportLength(raw));
    var b := buf;
    if raw[23] == UDP {
      FixIpSplice(buf, raw, Base(raw) + 4, l);
      b := Splice(buf, Base(raw) + 4, l);
    }
    if ChecksumOffset(raw) + 2 <= |raw| {
      FixIpSplice(b, raw, ChecksumOffset(raw), w);
    }
  }

  /** Both transport fields lie aside of what readdressing touches, in any frame of this shape. */
  lemma TransportIsAside(buf: bytes, raw: bytes)
    requires Writes(raw) && SameShape(raw, buf)
    ensures raw[23] == UDP ==> Aside(buf, Base(raw) + 4, 2)
    ensures ChecksumOffset(raw) + 2 <= |raw| ==> Aside(buf, ChecksumOffset(raw), 2)
  {
    LengthRoom(raw);
    ShapeDecides(raw, buf);
  }

  lemma ShapeIsTransitive(a: bytes, b: bytes, c: bytes)
    requires SameShape(a, b) && SameShape(b, c)
    ensures SameShape(a, c) && SameShape(b, a)
  {
  }

  lemma ReaddressTransport(buf: bytes, raw: bytes, c: Config, w: bytes)
    requires |buf| == |raw| && Writes(raw) && TransportLength(raw) < 0x1_0000 && |w| == 2 && SameShape(raw, buf)
    ensures Readdress(WithTransport(buf, raw, w), c) == WithTransport(Readdress(buf, c), raw, w)
  {
    hide Splice, Readdress, ToBig16, SameShape, Aside, ChecksumDisabled, TransportLength;
    TransportIsAside(buf, raw);
    var l := ToBig16(TransportLength(raw));
    var b := buf;
    if raw[23] == UDP {
      ReaddressSplice(buf, c, Base(raw) + 4, l);
      SpliceAsideKeepsShape(buf, Base(raw) + 4, l);
      b := Splice(buf, Base(raw) + 4, l);
      ShapeIsTransitive(raw, buf, b);
      TransportIsAside(b, raw);
    }
    if ChecksumOffset(raw) + 2 <= |raw| {
      ReaddressSplice(b, c, ChecksumOffset(raw), w);
    }
  }

  lemma FixIpForm(buf: bytes, raw: bytes)
    requires |buf| == |raw| && IsIpv4(raw)
    ensures FixIp(buf, raw) == Splice(buf, 24, FixIp(buf, raw)[24..26])
  {
    var blank := Splice(buf, 24, [0, 0]);
    var w := ToBig16(ChecksumOf(blank[14..Base(raw)]));
    SpliceTwice(buf, 24, [0, 0], w);
    SpliceReads(blank, 24, w, 24, 26);
    hide Splice, ChecksumOf, ToBig16;
  }

  lemma FixIpIgnoresOldField(buf: bytes, raw: bytes, w: bytes)
    requires |buf| == |raw| && IsIpv4(raw) && |w| == 2
    ensures FixIp(Splice(buf, 24, w), raw) == FixIp(buf, raw)
  {
    SpliceTwice(buf, 24, w, [0, 0]);
    hide Splice, ChecksumOf, ToBig16;
  }

  // ------------------------------------------------------------ the round trip

  /** The checksums (and UDP length) that the remap will recompute are stored as it computes them. */
  ghost predicate Settled(raw: bytes, c: Config) {
    && (IpChanged(raw, c) ==> FixIp(raw, raw) == raw)
    && (FixesTransport(raw, c) ==> FixTransport(raw, raw) == Ok(raw))
  }

  /** A recomputed UDP checksum came out as zero, which later reads as "disabled". */
  ghost predicate ChecksumLost(raw: bytes, c: Config, out: bytes) {
    FixesTransport(raw, c) && !ChecksumDisabled(raw) && HasPorts(out) && ChecksumDisabled(out)
  }

  lemma FlagsComeBack(raw: bytes, c: Config, c': Config, out: bytes)
    requires Undoes(c, c') && |raw| >= 14 && Remapped(raw, c) == Ok(out)
    ensures IpChanged(out, c') == IpChanged(raw, c) && PortsChanged(out, c') == PortsChanged(raw, c)
    ensures FixesTransport(out, c') == FixesTransport(raw, c)
  {
    hide *;
    RemapKeepsShape(raw, c);
    ShapeDecides(raw, out);
    AddressesAreMapped(raw, c);
    InHeader(raw);
    if IsIpv4(raw) {
      IpUndone(c, c', raw[26..30]);
      IpUndone(c, c', raw[30..34]);
    }
    if HasPorts(raw) {
      PortsWithin(raw);
      PortsAreMapped(raw, c);
      PortUndone(c, c', Be16(raw, Base(raw)));
      PortUndone(c, c', Be16(raw, Base(raw) + 2));
    }
    IpFlag(raw, c, c', out);
    PortsFlag(raw, c, c', out);
    TransportFlag(raw, c, c', out);
  }

  lemma IpFlag(raw: bytes, c: Config, c': Config, out: bytes)
    requires IsIpv4(raw) == IsIpv4(out) && |raw| == |out|
    requires IsIpv4(raw) ==>
               && (raw[26..30] in c.ipMap <==> out[26..30] in c'.ipMap)
               && (raw[30..34] in c.ipMap <==> out[30..34] in c'.ipMap)
    ensures IpChanged(out, c') == IpChanged(raw, c)
  {
    hide Base;
  }

  lemma PortsFlag(raw: bytes, c: Config, c': Config, out: bytes)
    requires HasPorts(raw) == HasPorts(out) && |raw| == |out| && (HasPorts(raw) ==> Base(raw) == Base(out))
    requires HasPorts(raw) ==>
               && (Be16(raw, Base(raw)) in c.portMap <==> Be16(out, Base(raw)) in c'.portMap)
               && (Be16(raw, Base(raw) + 2) in c.portMap <==> Be16(out, Base(raw) + 2) in c'.portMap)
    ensures PortsChanged(out, c') == PortsChanged(raw, c)
  {
    hide HasPorts, IsIpv4, Be16, Base;
  }

  lemma TransportFlag(raw: bytes, c: Config, c': Config, out: bytes)
    requires HasPorts(raw) == HasPorts(out) && (HasPorts(raw) ==> FragmentOffset(raw) == FragmentOffset(out))
    requires IpChanged(out, c') == IpChanged(raw, c) && PortsChanged(out, c') == PortsChanged(raw, c)
    ensures FixesTransport(out, c') == FixesTransport(raw, c)
  {
    hide FragmentOffset, IpChanged, PortsChanged;
  }

  /** What readdressing back makes of the frame before its transport step. */
  lemma BackBeforeTransport(raw: bytes, c: Config, c': Config)
    requires Undoes(c, c') && |raw| >= 14 && Settled(raw, c)
    ensures var b := Readdress(raw, c);
            if IpChanged(raw, c) then
              SameShape(raw, FixIp(b, raw)) && FixIp(Readdress(FixIp(b, raw), c'), raw) == raw
            else SameShape(raw, b) && Readdress(b, c') == raw
  {
    var b := Readdress(raw, c);
    ReaddressBack(raw, c, c');
    Validate.ReaddressKeepsShape(raw, c);
    if IpChanged(raw, c) {
      ShapeDecides(raw, b);
      var f := FixIp(b, raw);
      Validate.FixIpKeepsShape(b, raw);
      ShapeIsTransitive(raw, b, f);
      FixIpForm(b, raw);
      assert Aside(b, 24, 2);
      ReaddressSplice(b, c', 24, f[24..26]);
      FixIpIgnoresOldField(raw, raw, f[24..26]);
    }
    hide Readdress, FixIp, Splice, Undoes, SameShape, FixTransport;
  }

  lemma FixIpByShape(buf: bytes, raw: bytes, out: bytes)
    requires SameShape(raw, out) && |buf| == |raw| && IsIpv4(raw)
    ensures IsIpv4(out) && FixIp(buf, out) == FixIp(buf, raw)
  {
    ShapeDecides(raw, out);
    hide SameShape, Splice, ChecksumOf, ToBig16, Base;
  }

  lemma StepsByShape(buf: bytes, raw: bytes, out: bytes)
    requires SameShape(raw, out) && |buf| == |raw| && IsIpv4(raw)
    ensures IsIpv4(out) && FixIp(buf, out) == FixIp(buf, raw)
    ensures HasPorts(raw) && ChecksumDisabled(raw) == ChecksumDisabled(out)
            ==> FixTransport(buf, out) == FixTransport(buf, raw)
    ensures HasPorts(raw) && raw[23] == UDP && ChecksumDisabled(out) ==> FixTransport(buf, out) == Ok(buf)
  {
    hide *;
    FixIpByShape(buf, raw, out);
    ShapeDecides(raw, out);
    if HasPorts(raw) {
      PortsWithin(raw);
      if ChecksumDisabled(raw) == ChecksumDisabled(out) {
        FixTransportByShape(buf, raw, out);
      }
      if raw[23] == UDP && ChecksumDisabled(out) {
        DisabledIsSkipped(buf, out);
      }
    }
  }

  /** The transport step reads the original frame's shape and whether its checksum is disabled, nothing else. */
  lemma FixTransportByShape(buf: bytes, raw: bytes, out: bytes)
    requires |buf| == |raw| == |out| && HasPorts(raw) && HasPorts(out) && |raw| > 23 && raw[23] == out[23]
    requires ChecksumDisabled(raw) == ChecksumDisabled(out) && Base(raw) == Base(out)
    requires TransportLength(raw) == TransportLength(out) && ChecksumOffset(raw) == ChecksumOffset(out)
    ensures FixTransport(buf, out) == FixTransport(buf, raw)
  {
    hide Splice, ChecksumOf, ToBig16, Base, PseudoHeader, IsIpv4, TransportLength, ChecksumOffset, ChecksumDisabled,
      HasPorts;
  }

  lemma NoTransportRoundTrip(raw: bytes, c: Config, c': Config, out: bytes)
    requires Undoes(c, c') && |raw| >= 14 && Settled(raw, c) && Core(raw, c) == Ok(out)
    requires !(FixesTransport(raw, c) && Writes(raw))
    ensures !ChecksumLost(raw, c, out) && Remapped(out, c') == Ok(raw)
  {
    CoreIsRemapped(raw, c);
    RemapKeepsShape(raw, c);
    FlagsComeBack(raw, c, c', out);
    BackBeforeTransport(raw, c, c');
    ShapeDecides(raw, out);
    CoreIsRemapped(out, c');
    var b := Readdress(raw, c);
    var f := if IpChanged(raw, c) then FixIp(b, raw) else b;
    if IsIpv4(raw) {
      StepsByShape(Readdress(out, c'), raw, out);
    }
    if FixesTransport(raw, c) {
      FixTransportForm(f, raw);
      if ChecksumDisabled(raw) {
        DisabledChecksumStays(raw, c);
      }
      StepsByShape(raw, raw, out);
    }
    hide Remapped, Readdress, FixIp, FixTransport, Undoes, SameShape, TransportLength, FragmentOffset;
  }

  /** The first remap's output, readdressed and IP-fixed on the way back: the original with word w stored. */
  lemma BackWithTransport(raw: bytes, c: Config, c': Config, out: bytes)
    requires Undoes(c, c') && |raw| >= 14 && Settled(raw, c) && Core(raw, c) == Ok(out)
    requires FixesTransport(raw, c) && Writes(raw)
    ensures TransportLength(raw) < 0x1_0000
    ensures var b := Readdress(raw, c);
            var f := if IpChanged(raw, c) then FixIp(b, raw) else b;
            var w := Word(f, raw);
            var r := Readdress(out, c');
            && out == WithTransport(f, raw, w)
            && (if IpChanged(raw, c) then FixIp(r, raw) else r) == WithTransport(raw, raw, w)
  {
    var b := Readdress(raw, c);
    var f := if IpChanged(raw, c) then FixIp(b, raw) else b;
    FixTransportForm(f, raw);
    BackBeforeTransport(raw, c, c');
    var w := Word(f, raw);
    ReaddressTransport(f, raw, c', w);
    if IpChanged(raw, c) {
      FixIpTransport(Readdress(f, c'), raw, w);
    }
    hide Readdress, FixIp, FixTransport, Undoes, SameShape, TransportLength, WithTransport, Word, Writes;
  }

  /** If the word stored reads as disabled, so does the frame that keeps it. */
  lemma StoredWordDecides(a: bytes, b: bytes, raw: bytes, w: bytes)
    requires |a| == |b| == |raw| && Writes(raw) && TransportLength(raw) < 0x1_0000 && |w| == 2 && raw[23] == UDP
    ensures ChecksumOffset(raw) + 2 <= |raw| ==>
              Slice(WithTransport(a, raw, w), Base(raw) + 6, Base(raw) + 8) == w
    ensures ChecksumOffset(raw) + 2 > |raw| ==>
              Slice(WithTransport(a, raw, w), Base(raw) + 6, Base(raw) + 8) == Slice(a, Base(raw) + 6, Base(raw) + 8)
  {
    LengthRoom(raw);
    var base, l := Base(raw), ToBig16(TransportLength(raw));
    var x := Splice(a, base + 4, l);
    if ChecksumOffset(raw) + 2 <= |raw| {
      SpliceReads(x, base + 6, w, base + 6, base + 8);
    } else {
      SpliceReads(a, base + 4, l, base + 6, |raw|);
    }
    hide Splice, ToBig16;
  }

  lemma ByteBeforeTransport(raw: bytes, c: Config, i: nat)
    requires |raw| >= 14 && HasPorts(raw) && Base(raw) + 6 <= i < |raw|
    ensures var b := Readdress(raw, c); (if IpChanged(raw, c) then FixIp(b, raw) else b)[i] == raw[i]
  {
    hide Readdress, FixIp;
    ReaddressAt(raw, c, i);
    if IpChanged(raw, c) {
      FixIpAt(Readdress(raw, c), raw, i);
    }
  }

  lemma UnroomyTailKept(raw: bytes, c: Config)
    requires |raw| >= 14 && HasPorts(raw) && raw[23] == UDP
    ensures var b := Readdress(raw, c);
            var f := if IpChanged(raw, c) then FixIp(b, raw) else b;
            Slice(f, Base(raw) + 6, Base(raw) + 8) == Slice(raw, Base(raw) + 6, Base(raw) + 8)
  {
    hide Readdress, FixIp, Slice, IpChanged;
    var b := Readdress(raw, c);
    var f := if IpChanged(raw, c) then FixIp(b, raw) else b;
    forall i | Base(raw) + 6 <= i < |raw| ensures f[i] == raw[i] {
      ByteBeforeTransport(raw, c, i);
    }
    SameSlice(f, raw, Base(raw) + 6, Base(raw) + 8);
  }

  /** A UDP frame with a checksum differs from the frame whose stored checksum word reads as disabled. */
  lemma LostMeansDifferent(raw: bytes, f: bytes, out: bytes, w: bytes)
    requires Writes(raw) && TransportLength(raw) < 0x1_0000 && |w| == 2 && |f| == |raw|
    requires Slice(f, Base(raw) + 6, Base(raw) + 8) == Slice(raw, Base(raw) + 6, Base(raw) + 8)
    requires out == WithTransport(f, raw, w) && SameShape(raw, out) && HasPorts(out) && ChecksumDisabled(out)
    ensures WithTransport(raw, raw, w) != raw
  {
    ShapeDecides(raw, out);
    var base := Base(raw);
    assert raw[23] == UDP;
    hide WithTransport, SameShape, Slice, FromBig, TransportLength, IsIpv4, Ihl, Base;
    StoredWordDecides(f, raw, raw, w);
    StoredWordDecides(raw, raw, raw, w);
  }

  lemma TransportRoundTrip(raw: bytes, c: Config, c': Config, out: bytes)
    requires Undoes(c, c') && |raw| >= 14 && Settled(raw, c) && Core(raw, c) == Ok(out)
    requires FixesTransport(raw, c) && Writes(raw)
    ensures Remapped(out, c') == Ok(raw) <==> !ChecksumLost(raw, c, out)
  {
    CoreIsRemapped(raw, c);
    RemapKeepsShape(raw, c);
    FlagsComeBack(raw, c, c', out);
    ShapeDecides(raw, out);
    CoreIsRemapped(out, c');
    BackWithTransport(raw, c, c', out);
    var b := Readdress(raw, c);
    var f := if IpChanged(raw, c) then FixIp(b, raw) else b;
    var w := Word(f, raw);
    var kept := WithTransport(raw, raw, w);
    StepsByShape(Readdress(out, c'), raw, out);
    StepsByShape(kept, raw, out);
    if ChecksumDisabled(out) {
      UnroomyTailKept(raw, c);
      LostMeansDifferent(raw, f, out, w);
    } else {
      RestoresStoredWord(raw, w);
    }
    hide Remapped, Readdress, FixIp, FixTransport, Undoes, SameShape, TransportLength, WithTransport, Word,
      FragmentOffset;
  }

  /** On a settled frame the transport step repairs whatever word stands in the checksum field. */
  lemma RestoresStoredWord(raw: bytes, w: bytes)
    requires HasPorts(raw) && Writes(raw) && TransportLength(raw) < 0x1_0000 && |w| == 2
    requires FixTransport(raw, raw) == Ok(raw)
    ensures FixTransport(WithTransport(raw, raw, w), raw) == Ok(raw)
  {
    var kept := WithTransport(raw, raw, w);
    FixTransportForm(raw, raw);
    AlwaysFits(kept, raw);
    FixTransportForm(kept, raw);
    WordIgnoresOldFields(raw, raw, w);
    WithTransportTwice(raw, raw, w, Word(raw, raw));
    hide FixTransport, WithTransport, Word, Writes, TransportLength;
  }

  lemma AlwaysFits(buf: bytes, raw: bytes)
    requires |buf| == |raw| && HasPorts(raw) && TransportLength(raw) < 0x1_0000
    ensures FixTransport(buf, raw).Ok?
  {
  }

  // ------------------------------------------------------------ telling beforehand

  /**
    * Before any call: the transport step will run on an enabled UDP checksum that fits, and the
    * checksum of the readdressed covered bytes, its own field zeroed, is zero.
    */
  predicate WillLoseChecksum(raw: bytes, c: Config) {
    && FixesTransport(raw, c) && raw[23] == UDP && Writes(raw) && ChecksumOffset(raw) + 2 <= |raw|
    && TransportLength(raw) < 0x1_0000
    && ChecksumOf(Covered(WithTransport(Readdress(raw, c), raw, [0, 0]), raw)) == 0
  }

  lemma CoveredSkipsIpChecksum(buf: bytes, raw: bytes)
    requires |buf| == |raw| && IsIpv4(raw) && TransportLength(raw) < 0x1_0000
    ensures Covered(FixIp(buf, raw), raw) == Covered(buf, raw)
  {
    hide ChecksumOf, ToBig16, TransportLength, PseudoHeader;
    FixIpForm(buf, raw);
    var w := FixIp(buf, raw)[24..26];
    SpliceReads(buf, 24, w, 26, 30);
    SpliceReads(buf, 24, w, 30, 34);
    SpliceReads(buf, 24, w, Base(raw), Base(raw) + TransportLength(raw));
    PseudoByAddresses(FixIp(buf, raw), buf, raw[23], TransportLength(raw));
    hide Splice, FixIp;
  }

  lemma PseudoByAddresses(a: bytes, b: bytes, protocol: byte, length: nat)
    requires |a| >= 34 && |b| >= 34 && length < 0x1_0000 && a[26..30] == b[26..30] && a[30..34] == b[30..34]
    ensures PseudoHeader(a, protocol, length) == PseudoHeader(b, protocol, length)
  {
  }

  /** Repairing the IPv4 checksum does not change the transport word. */
  lemma WordSkipsIpChecksum(buf: bytes, raw: bytes)
    requires |buf| == |raw| && IsIpv4(raw) && Writes(raw) && TransportLength(raw) < 0x1_0000
    ensures Word(FixIp(buf, raw), raw) == Word(buf, raw)
  {
    FixIpTransport(buf, raw, [0, 0]);
    CoveredSkipsIpChecksum(WithTransport(buf, raw, [0, 0]), raw);
    hide FixIp, WithTransport, Covered, ChecksumOf, ToBig16, TransportLength, Writes;
  }

  lemma FromBigOfTwo(w: bytes)
    requires |w| == 2
    ensures FromBig(w) == Be16(w, 0)
  {
    var one := w[..1];
    assert FromBig(one) == FromBig(one[..0]) * 256 + one[0] && one[..0] == [];
    assert FromBig(w) == FromBig(one) * 256 + w[1];
  }

  lemma ZeroWordIff(v: nat)
    requires v < 0x1_0000
    ensures FromBig(ToBig16(v)) == 0 <==> v == 0
  {
    var w := ToBig16(v);
    FromBigOfTwo(w);
    hide FromBig, ToBig16;
  }

  lemma WordIsZeroIff(buf: bytes, raw: bytes)
    requires |buf| == |raw| && Writes(raw) && TransportLength(raw) < 0x1_0000 && ChecksumOffset(raw) + 2 <= |raw|
    ensures FromBig(Word(buf, raw)) == 0 <==> ChecksumOf(Covered(WithTransport(buf, raw, [0, 0]), raw)) == 0
  {
    ZeroWordIff(ChecksumOf(Covered(WithTransport(buf, raw, [0, 0]), raw)));
    hide FromBig, ToBig16, Covered, ChecksumOf, WithTransport, Writes, TransportLength;
  }

  /** What the output's checksum field reads as, by the word stored or, without room, by the original's. */
  lemma OutputDisabledIff(raw: bytes, c: Config, f: bytes, out: bytes)
    requires |raw| >= 14 && FixesTransport(raw, c) && Writes(raw) && raw[23] == UDP && TransportLength(raw) < 0x1_0000
    requires f == (if IpChanged(raw, c) then FixIp(Readdress(raw, c), raw) else Readdress(raw, c))
    requires SameShape(raw, out) && out == WithTransport(f, raw, Word(f, raw))
    ensures HasPorts(out) &&
            (ChecksumDisabled(out) <==> ChecksumOffset(raw) + 2 <= |raw| && FromBig(Word(f, raw)) == 0)
  {
    ShapeDecides(raw, out);
    StoredWordDecides(f, f, raw, Word(f, raw));
    UnroomyTailKept(raw, c);
    hide SameShape, WithTransport, Word, FixIp, Readdress, Slice, FromBig, IpChanged, TransportLength, IsIpv4, Ihl,
      FragmentOffset, PortsChanged;
  }

  /** The frames that will lose their checksum are those whose remapped form reads as disabled. */
  lemma LossIsForeseen(raw: bytes, c: Config)
    requires Remapped(raw, c).Ok?
    ensures WillLoseChecksum(raw, c) <==> ChecksumLost(raw, c, Remapped(raw, c).value)
  {
    hide *;
    if HasPorts(raw) {
      PortsWithin(raw);
    }
    if HasPorts(raw) && FixesTransport(raw, c) && Writes(raw) && raw[23] == UDP {
      UdpLossIsForeseen(raw, c);
    } else {
      NothingToLose(raw, c);
    }
  }

  lemma NothingToLose(raw: bytes, c: Config)
    requires Remapped(raw, c).Ok? && !(HasPorts(raw) && FixesTransport(raw, c) && Writes(raw) && raw[23] == UDP)
    ensures !WillLoseChecksum(raw, c) && !ChecksumLost(raw, c, Remapped(raw, c).value)
  {
    RemapKeepsShape(raw, c);
    ShapeDecides(raw, Remapped(raw, c).value);
    hide Remapped, SameShape, Slice, FromBig, IsIpv4, Ihl, Covered, WithTransport, TransportLength, Readdress,
      FragmentOffset, IpChanged, PortsChanged;
  }

  lemma UdpLossIsForeseen(raw: bytes, c: Config)
    requires Remapped(raw, c).Ok? && FixesTransport(raw, c) && Writes(raw) && raw[23] == UDP
    ensures WillLoseChecksum(raw, c) <==> ChecksumLost(raw, c, Remapped(raw, c).value)
  {
    RemapKeepsShape(raw, c);
    CoreIsRemapped(raw, c);
    var b := Readdress(raw, c);
    var f := if IpChanged(raw, c) then FixIp(b, raw) else b;
    FixTransportForm(f, raw);
    if IpChanged(raw, c) {
      WordSkipsIpChecksum(b, raw);
    }
    OutputDisabledIff(raw, c, f, Remapped(raw, c).value);
    if ChecksumOffset(raw) + 2 <= |raw| {
      WordIsZeroIff(b, raw);
    }
    hide Remapped, SameShape, WithTransport, Word, FixIp, FixTransport, Readdress, ChecksumDisabled, IpChanged,
      TransportLength, IsIpv4, Ihl, FragmentOffset, PortsChanged, Covered, ChecksumOf, FromBig;
  }

  /**
    * Mapping a frame and then mapping back restores it byte for byte exactly when the checksum
    * to be stored is not zero: every frame whose recomputed fields were stored correctly, every
    * configuration undone by c', fragments and truncated headers included. The condition is on
    * the frame and the configuration alone.
    */
  lemma RemapRoundTrip(raw: bytes, c: Config, c': Config)
    requires Undoes(c, c') && Settled(raw, c) && Remapped(raw, c).Ok?
    ensures Remapped(Remapped(raw, c).value, c') == Ok(raw) <==> !WillLoseChecksum(raw, c)
  {
    hide *;
    LossIsForeseen(raw, c);
    LossDecides(raw, c, c');
  }

  lemma LossDecides(raw: bytes, c: Config, c': Config)
    requires Undoes(c, c') && Settled(raw, c) && Remapped(raw, c).Ok?
    ensures var out := Remapped(raw, c).value;
            Remapped(out, c') == Ok(raw) <==> !ChecksumLost(raw, c, out)
  {
    if |raw| >= 14 {
      CoreIsRemapped(raw, c);
      var out := Core(raw, c).value;
      hide Core, Remapped, Settled, ChecksumLost;
      if FixesTransport(raw, c) && Writes(raw) {
        TransportRoundTrip(raw, c, c', out);
      } else {
        NoTransportRoundTrip(raw, c, c', out);
      }
    }
  }

  /** TCP, other protocols and non-IPv4 frames always come back, under any invertible configuration. */
  lemma NonUdpAlwaysComesBack(raw: bytes, c: Config)
    requires Invertible(c) && Settled(raw, c) && Remapped(raw, c).Ok? && (HasPorts(raw) ==> raw[23] == TCP)
    ensures Remapped(Remapped(raw, c).value, Backwards(c)) == Ok(raw)
  {
    var out := Remapped(raw, c).value;
    BackwardsUndoes(c);
    RemapRoundTrip(raw, c, Backwards(c));
    RemapKeepsShape(raw, c);
    ShapeDecides(raw, out);
    hide Remapped, Settled, Undoes, SameShape;
  }

  // ------------------------------------------------------------ a frame that does not come back

  const HEADERS: bytes := [
    0, 0, 0, 0, 0, 0, 0, 0, 0, 0, 0, 0, 8, 0,
    69, 0, 0, 28, 0, 0, 0, 0, 0, 17, 0, 0, 0, 0, 0, 0, 0, 0, 0, 0]

  /** A 42-byte UDP frame without payload between zero addresses. */
  function UdpFrame(sport: bytes, dport: bytes, checksum: bytes): (f: bytes)
    requires |sport| == 2 && |dport| == 2 && |checksum| == 2
    ensures |f| == 42
  {
    HEADERS + (sport + (dport + ([0, 8] + checksum)))
  }

  /** Swaps port 1 with port 32751. */
  const SWAP_PORTS := Config(map[], map[], map[1 := 32751, 32751 := 1])

  lemma SumOfPair(a: bytes, b: bytes)
    requires |a| == 2 && |b| == 2
    ensures Sum16(a + b) == Be16(a, 0) + Be16(b, 0)
  {
    SumOfParts(a, b);
    SumOfWord(a);
    SumOfWord(b);
    hide Sum16;
  }

  lemma SumOfPseudo()
    ensures Sum16([0, 0, 0, 0, 0, 0, 0, 0, 0, 17, 0, 8]) == 25
  {
    var pseudo: bytes := [0, 0, 0, 0, 0, 0, 0, 0, 0, 17, 0, 8];
    var none: bytes, tail: bytes := [0, 0, 0, 0], [0, 17, 0, 8];
    SumOfPair([0, 0], [0, 0]);
    SumOfPair([0, 17], [0, 8]);
    assert none == [0, 0] + [0, 0] && tail == [0, 17] + [0, 8];
    SumOfParts(none, tail);
    SumOfParts(none, none + tail);
    hide Sum16;
    assert pseudo == none + (none + tail);
  }

  lemma SumOfCovered(sport: bytes, dport: bytes)
    requires |sport| == 2 && |dport| == 2
    ensures Sum16([0, 0, 0, 0, 0, 0, 0, 0, 0, 17, 0, 8] + (sport + (dport + [0, 8, 0, 0])))
         == 33 + Be16(sport, 0) + Be16(dport, 0)
  {
    var tail: bytes := [0, 8, 0, 0];
    SumOfPair([0, 8], [0, 0]);
    assert tail == [0, 8] + [0, 0];
    SumAround([], sport, dport + tail);
    SumAround([], dport, tail);
    assert [] + (sport + (dport + tail)) == sport + (dport + tail) && [] + (dport + tail) == dport + tail;
    SumOfPseudo();
    SumOfParts([0, 0, 0, 0, 0, 0, 0, 0, 0, 17, 0, 8], sport + (dport + tail));
    assert Sum16([]) == 0;
    hide Sum16;
  }

  lemma UdpFrameShape(sport: bytes, dport: bytes, checksum: bytes)
    requires |sport| == 2 && |dport| == 2 && |checksum| == 2
    ensures var f := UdpFrame(sport, dport, checksum);
            && HasPorts(f) && f[23] == UDP && Base(f) == 34 && FragmentOffset(f) == 0 && TransportLength(f) == 8
            && f[26..30] == [0, 0, 0, 0] && f[30..34] == [0, 0, 0, 0]
            && f[34..36] == sport && f[36..38] == dport && f[40..42] == checksum
            && f[34..42] == sport + (dport + ([0, 8] + checksum))
            && Be16(f, 34) == Be16(sport, 0) && Be16(f, 36) == Be16(dport, 0)
            && Slice(f, 40, 42) == checksum
  {
    var f := UdpFrame(sport, dport, checksum);
    assert f[..34] == HEADERS;
    assert f[12] == HEADERS[12] && f[13] == HEADERS[13] && f[14] == HEADERS[14] && f[16] == HEADERS[16];
    assert f[17] == HEADERS[17] && f[20] == HEADERS[20] && f[21] == HEADERS[21] && f[23] == HEADERS[23];
    assert f[34] == sport[0] && f[35] == sport[1] && f[36] == dport[0] && f[37] == dport[1];
    assert f[26..30] == HEADERS[26..30] && f[30..34] == HEADERS[30..34];
    assert f[40..42] == checksum;
  }

  lemma UdpFrameSplice(sport: bytes, dport: bytes, old': bytes, w: bytes)
    requires |sport| == 2 && |dport| == 2 && |old'| == 2 && |w| == 2
    ensures var f := UdpFrame(sport, dport, old');
            && Splice(f, 34, w) == UdpFrame(w, dport, old') && Splice(f, 36, w) == UdpFrame(sport, w, old')
            && Splice(f, 38, [0, 8]) == f && Splice(f, 40, w) == UdpFrame(sport, dport, w)
  {
    var f := UdpFrame(sport, dport, old');
    var head := HEADERS;
    hide HEADERS;
    assert f == head + sport + dport + [0, 8] + old';
    assert UdpFrame(w, dport, old') == head + w + dport + [0, 8] + old';
    assert UdpFrame(sport, w, old') == head + sport + w + [0, 8] + old';
    assert UdpFrame(sport, dport, w) == head + sport + dport + [0, 8] + w;
  }

  lemma UdpFrameCovered(sport: bytes, dport: bytes, raw: bytes)
    requires |sport| == 2 && |dport| == 2
    requires |raw| == 42 && IsIpv4(raw) && TransportLength(raw) == 8 && raw[23] == UDP && Base(raw) == 34
    ensures Covered(UdpFrame(sport, dport, [0, 0]), raw)
         == [0, 0, 0, 0, 0, 0, 0, 0, 0, 17, 0, 8] + (sport + (dport + [0, 8, 0, 0]))
  {
    var f := UdpFrame(sport, dport, [0, 0]);
    UdpFrameShape(sport, dport, [0, 0]);
    assert PseudoHeader(f, UDP, 8) == [0, 0, 0, 0, 0, 0, 0, 0, 0, 17, 0, 8];
    assert [0, 8] + [0, 0] == [0, 8, 0, 0];
    hide UdpFrame, HEADERS, IsIpv4, TransportLength;
  }

  /** The checksum step on such a frame, whatever checksum it held before. */
  lemma UdpFrameFixed(sport: bytes, dport: bytes, old': bytes, raw: bytes)
    requires |sport| == 2 && |dport| == 2 && |old'| == 2
    requires |raw| == 42 && HasPorts(raw) && TransportLength(raw) == 8 && raw[23] == UDP && Base(raw) == 34
    requires !ChecksumDisabled(raw)
    ensures FoldIsSmall(33 + Be16(sport, 0) + Be16(dport, 0))
    ensures FixTransport(UdpFrame(sport, dport, old'), raw)
         == Ok(UdpFrame(sport, dport, ToBig16(0xFFFF - Fold(33 + Be16(sport, 0) + Be16(dport, 0)))))
  {
    var n := 33 + Be16(sport, 0) + Be16(dport, 0);
    FoldIsResidue(n);
    UdpFrameSplice(sport, dport, old', [0, 0]);
    UdpFrameSplice(sport, dport, [0, 0], ToBig16(0xFFFF - Fold(n)));
    UdpFrameCovered(sport, dport, raw);
    SumOfCovered(sport, dport);
    hide UdpFrame, HEADERS, IsIpv4, TransportLength, Splice, Covered, Sum16, Fold, Be16, ChecksumDisabled;
    assert ToBig16(8) == [0, 8];
  }

  predicate FoldIsSmall(n: nat) { Fold(n) <= 0xFFFF }

  lemma SwapReaddresses(checksum: bytes)
    requires |checksum| == 2
    ensures Readdress(UdpFrame([0, 1], [0, 1], checksum), SWAP_PORTS) == UdpFrame([127, 239], [127, 239], checksum)
    ensures var f := UdpFrame([0, 1], [0, 1], checksum); !IpChanged(f, SWAP_PORTS) && FixesTransport(f, SWAP_PORTS)
  {
    var f := UdpFrame([0, 1], [0, 1], checksum);
    UdpFrameShape([0, 1], [0, 1], checksum);
    UdpFrameSplice([0, 1], [0, 1], checksum, [127, 239]);
    UdpFrameSplice([127, 239], [0, 1], checksum, [127, 239]);
    assert ToBig16(32751) == [127, 239];
    hide UdpFrame, HEADERS, Splice, TransportLength;
    assert MapMacs(f, f, SWAP_PORTS) == f && MapIps(f, f, SWAP_PORTS) == f;
  }

  lemma NotDisabled(f: bytes)
    requires HasPorts(f) && f[23] == UDP && Base(f) == 34
    ensures Slice(f, 40, 42) == [255, 220] ==> !ChecksumDisabled(f)
    ensures Slice(f, 40, 42) == [0, 0] ==> ChecksumDisabled(f)
  {
    assert [255, 220][..1] == [255] && [255][..0] == [] && [0, 0][..1] == [0] && [0][..0] == [];
    hide Slice, HasPorts;
    assert FromBig([255]) == 255 && FromBig([255, 220]) == 65500 && FromBig([0]) == 0 && FromBig([0, 0]) == 0;
  }

  lemma SwapUndoesItself()
    ensures Undoes(SWAP_PORTS, SWAP_PORTS)
  {
  }

  lemma ChecksumWords()
    ensures Fold(33 + Be16([0, 1], 0) + Be16([0, 1], 0)) == 35 && ToBig16(0xFFFF - 35) == [255, 220]
    ensures Fold(33 + Be16([127, 239], 0) + Be16([127, 239], 0)) == 65535 && ToBig16(0) == [0, 0]
  {
    assert Be16([0, 1], 0) == 1 && Be16([127, 239], 0) == 32751;
  }

  /** A frame of this form is settled when it stores the word computed from its ports. */
  lemma UdpFrameSettled(port: bytes, x: bytes, c: Config)
    requires |port| == 2 && |x| == 2
    requires var raw := UdpFrame(port, port, x); HasPorts(raw) && !ChecksumDisabled(raw) && !IpChanged(raw, c)
    requires var n := 33 + Be16(port, 0) + Be16(port, 0); Fold(n) <= 0xFFFF && x == ToBig16(0xFFFF - Fold(n))
    ensures Settled(UdpFrame(port, port, x), c)
  {
    hide UdpFrame, HEADERS, FixTransport, HasPorts, ChecksumDisabled, Fold, Be16, Slice, TransportLength,
      FixesTransport, IpChanged,
      ToBig16, Base, IsIpv4;
    UdpFrameShape(port, port, x);
    UdpFrameFixed(port, port, x, UdpFrame(port, port, x));
  }

  /** z is the checksum word of such a frame between equal ports. */
  ghost predicate Complements(z: bytes, port: bytes) {
    |port| == 2 && |z| == 2 &&
    var n := 33 + Be16(port, 0) + Be16(port, 0);
    Fold(n) <= 0xFFFF && z == ToBig16(0xFFFF - Fold(n))
  }

  /** Mapping both ports stores the word computed from the new ones. */
  lemma UdpFrameMapped(raw: bytes, from: bytes, to: bytes, x: bytes, z: bytes, c: Config)
    requires |from| == 2 && |to| == 2 && |x| == 2 && Complements(z, to) && raw == UdpFrame(from, from, x)
    requires HasPorts(raw) && !ChecksumDisabled(raw) && !IpChanged(raw, c) && FixesTransport(raw, c)
    requires Readdress(raw, c) == UdpFrame(to, to, x)
    ensures Core(raw, c) == Ok(UdpFrame(to, to, z))
  {
    hide UdpFrame, HEADERS, FixTransport, HasPorts, ChecksumDisabled, Fold, Be16, Slice, TransportLength,
      FixesTransport, IpChanged,
      Readdress, ToBig16, Base, IsIpv4;
    UdpFrameShape(from, from, x);
    UdpFrameFixed(to, to, x, raw);
  }

  /** The swap stores checksum zero in the frame, whose own checksum was correct. */
  lemma SwapLosesChecksum(one: bytes, big: bytes, x: bytes, z: bytes)
    requires one == [0, 1] && big == [127, 239] && x == [255, 220] && z == [0, 0]
    ensures var raw, out := UdpFrame(one, one, x), UdpFrame(big, big, z);
            && |raw| >= 14 && Settled(raw, SWAP_PORTS) && Core(raw, SWAP_PORTS) == Ok(out)
            && HasPorts(raw) && !ChecksumDisabled(raw) && HasPorts(out) && ChecksumDisabled(out)
  {
    hide UdpFrame, HEADERS, FixTransport, HasPorts, ChecksumDisabled, Fold, Be16, Slice, TransportLength,
      FixesTransport, IpChanged,
      Readdress, Core, Settled, IsIpv4, Base, ToBig16, FragmentOffset;
    SwapReaddresses(x);
    ChecksumWords();
    UdpFrameShape(one, one, x);
    UdpFrameShape(big, big, z);
    NotDisabled(UdpFrame(one, one, x));
    NotDisabled(UdpFrame(big, big, z));
    UdpFrameSettled(one, x, SWAP_PORTS);
    UdpFrameMapped(UdpFrame(one, one, x), one, big, x, z, SWAP_PORTS);
  }

  /**
    * "Remapping is invertible" fails for UDP: swapping ports 1 and 32751 in this correct
    * frame stores checksum zero, and swapping them back then leaves the zero in place.
    */
  lemma UdpChecksumCanBeLost()
    ensures var raw := UdpFrame([0, 1], [0, 1], [255, 220]);
            && Settled(raw, SWAP_PORTS) && Undoes(SWAP_PORTS, SWAP_PORTS) && WillLoseChecksum(raw, SWAP_PORTS)
            && Remapped(raw, SWAP_PORTS) == Ok(UdpFrame([127, 239], [127, 239], [0, 0]))
            && Remapped(UdpFrame([127, 239], [127, 239], [0, 0]), SWAP_PORTS) != Ok(raw)
  {
    hide UdpFrame, HEADERS, FixTransport, Readdress, HasPorts, ChecksumDisabled, Remapped, Core, Settled,
      FixesTransport, Undoes, WillLoseChecksum;
    var raw := UdpFrame([0, 1], [0, 1], [255, 220]);
    SwapLosesChecksum([0, 1], [127, 239], [255, 220], [0, 0]);
    SwapReaddresses([255, 220]);
    SwapUndoesItself();
    CoreIsRemapped(raw, SWAP_PORTS);
    LossIsForeseen(raw, SWAP_PORTS);
    RemapRoundTrip(raw, SWAP_PORTS, SWAP_PORTS);
  }
}
