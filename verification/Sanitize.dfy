// Sanitizing a capture: addresses become pseudonyms, in the stored rows and in the frames alike.
module Sanitize {
  import opened Wrappers
  import opened Bytes
  import opened Remap
  import opened Addresses
  import RemapTheorems

  datatype Policy = Policy(redactIps: bool, redactMacs: bool)

  datatype SanitizeError = BadAddress(text: string) | TooManyMacs | BadFrame(why: RemapError)

  /** What a packet row says about its endpoints, and its frame. */
  datatype Captured = Captured(source: string, destination: string, raw: bytes)

  /** What a flow row says about its endpoints. */
  datatype Endpoints = Endpoints(source: string, destination: string)

  /** `10.255.x.y` for the n-th address; from 65536 on that is no address any more. */
  function Pseudonym(n: nat): string {
    "10" + "." + ("255" + "." + (Decimal(n / 256) + "." + Decimal(n % 256)))
  }

  function MacPseudonym(n: nat): Mac
    requires n < 0x1_0000
  {
    [2, 0, 0, 0, n / 256, n % 256]
  }

  lemma PseudonymIsAddress(n: nat)
    requires n < 0x1_0000
    ensures Pseudonym(n) == Dotted([10, 255, n / 256, n % 256])
  {
    assert Decimal(25) == "2" + "5";
    assert Decimal(255) == "25" + "5";
    assert Decimal(10) == "1" + "0";
  }

  lemma PseudonymsDiffer(m: nat, n: nat)
    requires Pseudonym(m) == Pseudonym(n)
    ensures m == n
  {
    SplitDotted("10", "255", Decimal(m / 256), Decimal(m % 256));
    SplitDotted("10", "255", Decimal(n / 256), Decimal(n % 256));
    DecimalComesBack(m / 256);
    DecimalComesBack(n / 256);
    DecimalComesBack(m % 256);
    DecimalComesBack(n % 256);
    hide Decimal, Split, ParseDecimal;
    assert ["10", "255", Decimal(m / 256), Decimal(m % 256)][2] == ["10", "255", Decimal(n / 256), Decimal(n % 256)][2];
    assert ["10", "255", Decimal(m / 256), Decimal(m % 256)][3] == ["10", "255", Decimal(n / 256), Decimal(n % 256)][3];
  }

  /** The n-th pseudonym is an address exactly when there are no more than 65536. */
  lemma PseudonymParsesIff(n: nat)
    ensures ParseIp(Pseudonym(n)).Some? <==> n < 0x1_0000
    ensures ParseIp(Pseudonym(n)).Some? ==> Canonical(Pseudonym(n))
  {
    if n < 0x1_0000 {
      PseudonymIsAddress(n);
      DottedComesBack([10, 255, n / 256, n % 256]);
    } else {
      SplitDotted("10", "255", Decimal(n / 256), Decimal(n % 256));
      DecimalComesBack(n / 256);
      hide Decimal, Split, ParseDecimal;
    }
  }

  /** `text` is how an IPv4 address is written. */
  ghost predicate Canonical(text: string) { ParseIp(text).Some? && Dotted(ParseIp(text).value) == text }

  /** A frame whose addresses are read for pseudonyms. */
  predicate HasIps(raw: bytes) { |raw| >= 34 && EtherType(raw) == 0x0800 }

  /** The addresses in the IPv4 header, as text. */
  function HeaderSource(raw: bytes): string
    requires |raw| >= 34
  {
    Dotted(raw[26..30])
  }

  function HeaderDestination(raw: bytes): string
    requires |raw| >= 34
  {
    Dotted(raw[30..34])
  }

  lemma HeaderTextsAreCanonical(raw: bytes)
    requires |raw| >= 34
    ensures Canonical(HeaderSource(raw)) && Canonical(HeaderDestination(raw))
    ensures HeaderSource(raw) != "" && HeaderDestination(raw) != ""
  {
    DottedComesBack(raw[26..30]);
    DottedComesBack(raw[30..34]);
  }

  /** Every key has the pseudonym of the position at which it was first met. */
  ghost predicate Numbered(order: seq<string>, names: map<string, string>) {
    && (forall i, j :: 0 <= i < j < |order| ==> order[i] != order[j])
    && (forall s :: s in names <==> s in order)
    && (forall i :: 0 <= i < |order| ==> names[order[i]] == Pseudonym(i))
  }

  ghost predicate NumberedMacs(order: seq<bytes>, names: map<bytes, Mac>) {
    && |order| <= 0x1_0000
    && (forall i, j :: 0 <= i < j < |order| ==> order[i] != order[j])
    && (forall s :: s in names <==> s in order)
    && (forall i :: 0 <= i < |order| ==> names[order[i]] == MacPseudonym(i))
  }

  /** Pseudonyms identify: two texts have the same one only if they are the same text. */
  lemma PseudonymsAreInjective(order: seq<string>, names: map<string, string>, s: string, t: string)
    requires Numbered(order, names) && s in names && t in names && names[s] == names[t]
    ensures s == t
  {
    hide Pseudonym;
    var i :| 0 <= i < |order| && order[i] == s;
    var j :| 0 <= j < |order| && order[j] == t;
    PseudonymsDiffer(i, j);
  }

  /** What the redactor answers once a text is registered. */
  function Named(policy: Policy, names: map<string, string>, text: string): string {
    if text == "" || !policy.redactIps || text !in names then text else names[text]
  }

  /** The text is registered, unless it is never replaced. */
  predicate Known(policy: Policy, names: map<string, string>, text: string) {
    text == "" || !policy.redactIps || text in names
  }

  lemma {:induction false} CountKeys<T, V>(order: seq<T>, names: map<T, V>)
    requires forall i, j :: 0 <= i < j < |order| ==> order[i] != order[j]
    requires forall s :: s in names <==> s in order
    ensures |names| == |order|
  {
    if order == [] {
      assert names == map[];
    } else {
      var last, init := order[|order| - 1], order[..|order| - 1];
      var fewer := names - {last};
      forall s ensures s in fewer <==> s in init {
        assert s in order <==> s in init || s == last;
      }
      CountKeys(init, fewer);
      assert names.Keys == fewer.Keys + {last};
    }
  }

  lemma MacPseudonymsDiffer(order: seq<bytes>, names: map<bytes, Mac>, a: bytes, b: bytes)
    requires NumberedMacs(order, names) && a in names && b in names && names[a] == names[b]
    ensures a == b
  {
    var i :| 0 <= i < |order| && order[i] == a;
    var j :| 0 <= j < |order| && order[j] == b;
    assert names[a][4] == i / 256 && names[a][5] == i % 256 && names[b][4] == j / 256 && names[b][5] == j % 256;
  }

  /** Whatever is registered, equal answers mean equal questions. */
  lemma NamedIsInjective(policy: Policy, order: seq<string>, names: map<string, string>, s: string, t: string)
    requires Numbered(order, names) && "" !in names && Known(policy, names, s) && Known(policy, names, t)
    ensures Named(policy, names, s) == Named(policy, names, t) <==> s == t
  {
    if s in names && t in names && names[s] == names[t] {
      PseudonymsAreInjective(order, names, s, t);
    }
    forall x | x in names ensures names[x] != "" {
      var i :| 0 <= i < |order| && order[i] == x;
      assert names[x] == Pseudonym(i) && |Pseudonym(i)| > 0;
    }
  }

  /** A frame's MAC addresses are registered. */
  ghost predicate MacsKnown(policy: Policy, macs: map<bytes, Mac>, raw: bytes) {
    policy.redactMacs && |raw| >= 14 ==> raw[0..6] in macs && raw[6..12] in macs
  }

  ghost predicate MacOf(raw: bytes, m: bytes) { |raw| >= 14 && (m == raw[0..6] || m == raw[6..12]) }

  // ------------------------------------------------------------ first appearances

  /** A list of what was met so far, with x appended when it is new. */
  function AddNew<T(==)>(met: seq<T>, x: T): seq<T> { if x in met then met else met + [x] }

  function AddText(met: seq<string>, text: string): seq<string> { if text == "" then met else AddNew(met, text) }

  /** A frame's destination and then its source address. */
  function AddMacs(met: seq<bytes>, raw: bytes): seq<bytes> {
    if |raw| < 14 then met else AddNew(AddNew(met, raw[..6]), raw[6..12])
  }

  /** The header's addresses, source first. */
  function AddHeader(met: seq<string>, raw: bytes): seq<string> {
    if |raw| < 34 || raw[12] != 8 || raw[13] != 0 then met
    else AddText(AddText(met, Dotted(raw[26..30])), Dotted(raw[30..34]))
  }

  /** All MAC addresses of the frames in the order of their first appearance. */
  function MacsOf(packets: seq<Captured>): seq<bytes> {
    if packets == [] then [] else AddMacs(MacsOf(packets[..|packets| - 1]), packets[|packets| - 1].raw)
  }

  /** All address texts of the packets: of each its header's, then its row's. */
  function TextsOf(packets: seq<Captured>): seq<string> {
    if packets == [] then []
    else
      var p := packets[|packets| - 1];
      AddText(AddText(AddHeader(TextsOf(packets[..|packets| - 1]), p.raw), p.source), p.destination)
  }

  /** And then those of the flows. */
  function AddFlows(met: seq<string>, flows: seq<Endpoints>): seq<string> {
    if flows == [] then met
    else
      var f := flows[|flows| - 1];
      AddText(AddText(AddFlows(met, flows[..|flows| - 1]), f.source), f.destination)
  }

  lemma OneMorePacket(packets: seq<Captured>, n: nat)
    requires n < |packets|
    ensures MacsOf(packets[..n + 1]) == AddMacs(MacsOf(packets[..n]), packets[n].raw)
    ensures TextsOf(packets[..n + 1])
         == AddText(AddText(AddHeader(TextsOf(packets[..n]), packets[n].raw), packets[n].source),
                    packets[n].destination)
  {
    assert packets[..n + 1][..n] == packets[..n];
    hide AddMacs, AddHeader, AddText;
  }

  lemma NoPackets(packets: seq<Captured>)
    ensures MacsOf(packets[..0]) == [] && TextsOf(packets[..0]) == []
  {
  }

  lemma OneMoreFlowText(met: seq<string>, flows: seq<Endpoints>, n: nat)
    requires n < |flows|
    ensures AddFlows(met, flows[..n + 1])
         == AddText(AddText(AddFlows(met, flows[..n]), flows[n].source), flows[n].destination)
  {
    assert flows[..n + 1][..n] == flows[..n];
    hide AddText;
  }

  lemma NoFlows(met: seq<string>, flows: seq<Endpoints>)
    ensures AddFlows(met, flows[..0]) == met
  {
  }

  // ------------------------------------------------------------ the redactor

  class Redactor {
    const policy: Policy
    var ipOrder: seq<string>
    var ips: map<string, string>
    var macOrder: seq<bytes>
    var macs: map<bytes, Mac>

    ghost predicate Valid()
      reads this
    {
      Numbered(ipOrder, ips) && NumberedMacs(macOrder, macs) && "" !in ips
    }

    constructor (policy: Policy)
      ensures Valid() && this.policy == policy && ips == map[] && macs == map[] && ipOrder == [] && macOrder == []
    {
      this.policy := policy;
      ipOrder, ips, macOrder, macs := [], map[], [], map[];
    }

    /** The pseudonym of an address text; a new one is numbered next. */
    method Ip(text: string) returns (r: string)
      requires Valid()
      modifies this`ipOrder, this`ips
      ensures Valid() && Known(policy, ips, text) && r == Named(policy, ips, text)
      ensures Grown(old(ips), ips) && (!policy.redactIps ==> ips == old(ips))
      ensures forall s :: s in ips ==> s in old(ips) || s == text
      ensures ipOrder == if policy.redactIps then AddText(old(ipOrder), text) else old(ipOrder)
    {
      hide Pseudonym;
      if text == "" || !policy.redactIps {
        return text;
      }
      if text !in ips {
        var index := |ipOrder|;
        ipOrder, ips := ipOrder + [text], ips[text := Pseudonym(index)];
      }
      return ips[text];
    }

    /** The pseudonym of a MAC address; the 65537th cannot be written. */
    method Mac(raw: bytes) returns (ok: bool)
      requires Valid()
      modifies this`macOrder, this`macs
      ensures Valid() && (ok && policy.redactMacs ==> raw in macs)
              && old(macs.Keys) <= macs.Keys <= old(macs.Keys) + {raw}
      ensures !ok ==> policy.redactMacs && |macs| == 0x1_0000 && raw !in macs
      ensures ok ==> macOrder == if policy.redactMacs then AddNew(old(macOrder), raw) else old(macOrder)
    {
      if policy.redactMacs && raw !in macs {
        var index := |macOrder|;
        if index >= 0x1_0000 {
          CountKeys(macOrder, macs);
          return false;
        }
        macOrder, macs := macOrder + [raw], macs[raw := MacPseudonym(index)];
      }
      return true;
    }

    /** Registers the addresses found in a frame. */
    method ObserveFrame(raw: bytes) returns (ok: bool)
      requires Valid()
      modifies this
      ensures Valid() && Grown(old(ips), ips) && (!policy.redactIps ==> ips == old(ips))
      ensures forall s :: s in ips ==> s in old(ips) || Canonical(s)
      ensures (ok ==> MacsKnown(policy, macs, raw)) && old(macs.Keys) <= macs.Keys
      ensures !ok ==> |macs| == 0x1_0000 && !MacsKnown(policy, macs, raw)
      ensures forall m :: m in macs ==> m in old(macs) || MacOf(raw, m)
      ensures ok && HasIps(raw) ==> Known(policy, ips, HeaderSource(raw)) && Known(policy, ips, HeaderDestination(raw))
      ensures ok ==> macOrder == if policy.redactMacs then AddMacs(old(macOrder), raw) else old(macOrder)
      ensures ok ==> ipOrder == if policy.redactIps then AddHeader(old(ipOrder), raw) else old(ipOrder)
    {
      hide Numbered, NumberedMacs, HeaderSource, HeaderDestination, Canonical, EtherType, Valid, AddMacs, AddHeader,
        AddNew, AddText;
      FrameAdds(old(macOrder), old(ipOrder), raw);
      if |raw| < 14 {
        return true;
      }
      ok := Mac(raw[0..6]);
      if !ok {
        return;
      }
      ok := Mac(raw[6..12]);
      if !ok {
        return;
      }
      IpEtherType(raw);
      if |raw| >= 34 && raw[12..14] == [0x08, 0x00] && policy.redactIps {
        HeaderTextsAreCanonical(raw);
        var r := Ip(HeaderSource(raw));
        r := Ip(HeaderDestination(raw));
      }
    }

    /** The address maps as a remapping; an address text that does not parse is an error. */
    method RemapConfig() returns (r: Result<Config, SanitizeError>)
      requires Valid()
      ensures r.Ok? ==> r.value.portMap == map[] && Readable(ips) && |ips| <= 0x1_0000
      ensures r.Ok? ==> MapsAs(ips, r.value.ipMap) && MapsOnly(ips, r.value.ipMap)
      ensures r.Ok? ==> r.value.macMap == macs && (ips == map[] ==> r.value.ipMap == map[])
      ensures r.Err? ==>
                r.error.BadAddress? && ParseIp(r.error.text).None? && (r.error.text in ips || |ips| > 0x1_0000)
    {
      hide Pseudonym, ParseIp, Dotted, Numbered, MapsOnly;
      OrderCovers(ipOrder, ips);
      NothingMapped(ips);
      var ipMap: map<bytes, Ip4> := map[];
      for i := 0 to |ipOrder|
        invariant Parsed(ipOrder[..i], ips, ipMap) && MapsOnly(ips, ipMap) && (i == 0 ==> ipMap == map[])
      {
        assert ipOrder[i] in ips;
        KeyIsNumbered(ipOrder, ips, i);
        var key := ipOrder[i];
        var old', new' := ParseIp(key), ParseIp(ips[key]);
        if old'.None? {
          return Err(BadAddress(key));
        }
        if new'.None? {
          PseudonymParsesIff(i);
          CountNames(ipOrder, ips);
          return Err(BadAddress(ips[key]));
        }
        ParsedGrows(ipOrder[..i], key, ips, ipMap);
        MapsOnlyGrows(ips, ipMap, key);
        assert ipOrder[..i + 1] == ipOrder[..i] + [key];
        ipMap := ipMap[old'.value := new'.value];
      }
      assert ipOrder[..|ipOrder|] == ipOrder;
      assert |ipOrder| > 0 ==> ipOrder[0] in ips;
      AllParsed(ipOrder, ips, ipMap);
      FewNames(ipOrder, ips);
      return Ok(Config(macs, ipMap, map[]));
    }
  }

  /** What a frame adds, told by the tests that the redactor makes. */
  lemma FrameAdds(macs: seq<bytes>, texts: seq<string>, raw: bytes)
    ensures AddMacs(macs, raw) == if |raw| < 14 then macs else AddNew(AddNew(macs, raw[0..6]), raw[6..12])
    ensures AddHeader(texts, raw) ==
            if |raw| >= 34 && raw[12..14] == [0x08, 0x00] then
              AddText(AddText(texts, HeaderSource(raw)), HeaderDestination(raw))
            else texts
  {
    if |raw| >= 34 {
      assert raw[12..14] == [raw[12], raw[13]];
    }
    hide AddText, Dotted;
  }

  lemma IpEtherType(raw: bytes)
    requires |raw| >= 14
    ensures raw[12..14] == [0x08, 0x00] <==> EtherType(raw) == 0x0800
  {
    assert raw[12..14] == [raw[12], raw[13]];
  }

  /** Every registered text and its pseudonym are addresses. */
  ghost predicate Readable(names: map<string, string>) {
    forall s :: s in names ==> ParseIp(s).Some? && Canonical(names[s])
  }

  ghost predicate AllCanonical(names: map<string, string>) {
    forall s :: s in names ==> Canonical(s)
  }

  /** When the texts are canonical, their addresses map to those of their pseudonyms. */
  ghost predicate MapsAs(names: map<string, string>, ipMap: map<bytes, Ip4>)
    requires Readable(names)
  {
    AllCanonical(names) ==>
      forall s :: s in names ==> ParseIp(s).value in ipMap && ipMap[ParseIp(s).value] == ParseIp(names[s]).value
  }

  /** Each mapped address goes to the pseudonym of a registered text that denotes it. */
  ghost predicate MapsOnly(names: map<string, string>, ipMap: map<bytes, Ip4>) {
    forall a :: a in ipMap ==> exists s :: s in names && ParseIp(s) == Some(a) && ParseIp(names[s]) == Some(ipMap[a])
  }

  lemma NothingMapped(names: map<string, string>)
    ensures MapsOnly(names, map[])
  {
  }

  lemma MapsOnlyGrows(names: map<string, string>, ipMap: map<bytes, Ip4>, key: string)
    requires MapsOnly(names, ipMap) && key in names && ParseIp(key).Some? && ParseIp(names[key]).Some?
    ensures MapsOnly(names, ipMap[ParseIp(key).value := ParseIp(names[key]).value])
  {
    hide ParseIp;
  }

  /** Readable pseudonyms are no more than 65536. */
  lemma FewNames(order: seq<string>, names: map<string, string>)
    requires Numbered(order, names) && Readable(names)
    ensures |names| <= 0x1_0000
  {
    CountNames(order, names);
    if |order| > 0x1_0000 {
      KeyIsNumbered(order, names, 0x1_0000);
      PseudonymParsesIff(0x1_0000);
      assert false;
    }
  }

  /** The map built from the first keys. */
  ghost predicate Parsed(keys: seq<string>, names: map<string, string>, ipMap: map<bytes, Ip4>) {
    && (forall s :: s in keys ==> s in names && ParseIp(s).Some? && Canonical(names[s]))
    && (AllCanonical(names) ==>
          forall s :: s in keys ==> ParseIp(s).value in ipMap && ipMap[ParseIp(s).value] == ParseIp(names[s]).value)
  }

  lemma ParsedGrows(keys: seq<string>, key: string, names: map<string, string>, ipMap: map<bytes, Ip4>)
    requires Parsed(keys, names, ipMap) && key in names && ParseIp(key).Some? && Canonical(names[key])
    ensures Parsed(keys + [key], names, ipMap[ParseIp(key).value := ParseIp(names[key]).value])
  {
    hide ParseIp, Dotted;
    if AllCanonical(names) {
      forall s | s in keys + [key] && ParseIp(s) == ParseIp(key) ensures s == key {
        assert Canonical(s) && Canonical(key);
      }
    }
  }

  lemma KeyIsNumbered(order: seq<string>, names: map<string, string>, i: nat)
    requires Numbered(order, names) && i < |order|
    ensures order[i] in names && names[order[i]] == Pseudonym(i)
    ensures ParseIp(names[order[i]]).Some? ==> Canonical(names[order[i]])
  {
    PseudonymParsesIff(i);
    hide Pseudonym, ParseIp;
  }

  lemma CountNames(order: seq<string>, names: map<string, string>)
    requires Numbered(order, names)
    ensures |names| == |order|
  {
    hide Pseudonym;
    CountKeys(order, names);
  }

  lemma OrderCovers(order: seq<string>, names: map<string, string>)
    requires Numbered(order, names)
    ensures forall s :: s in names <==> s in order
  {
    hide Pseudonym;
  }

  lemma AllParsed(order: seq<string>, names: map<string, string>, ipMap: map<bytes, Ip4>)
    requires Parsed(order, names, ipMap) && forall s :: s in names <==> s in order
    ensures Readable(names) && MapsAs(names, ipMap)
  {
    hide ParseIp, Dotted;
  }

  /** Nothing registered is forgotten or renamed. */
  ghost predicate Grown(before: map<string, string>, after: map<string, string>) {
    forall s :: s in before ==> s in after && after[s] == before[s]
  }

  // ------------------------------------------------------------ the two passes

  /** Metadata and header of an output packet against those of its input. */
  ghost predicate StillMatches(before: Captured, after: Captured) {
    && |after.raw| == |before.raw|
    && (IsIpv4(before.raw) ==>
          && IsIpv4(after.raw)
          && (before.source == HeaderSource(before.raw) ==> after.source == HeaderSource(after.raw))
          && (before.destination == HeaderDestination(before.raw)
              ==> after.destination == HeaderDestination(after.raw)))
  }

  /** A packet whose texts are registered, with its metadata renamed. */
  ghost predicate Renamed(policy: Policy, names: map<string, string>, before: Captured, after: Captured) {
    && Known(policy, names, before.source) && after.source == Named(policy, names, before.source)
    && Known(policy, names, before.destination) && after.destination == Named(policy, names, before.destination)
    && (HasIps(before.raw) ==>
          Known(policy, names, HeaderSource(before.raw)) && Known(policy, names, HeaderDestination(before.raw)))
  }

  lemma RenamedStays(policy: Policy, names: map<string, string>, grown: map<string, string>, before: Captured,
                     after: Captured)
    requires Renamed(policy, names, before, after) && Grown(names, grown)
    ensures Renamed(policy, grown, before, after)
  {
    hide HeaderSource, HeaderDestination, EtherType;
  }

  /** Where a registered header address goes when the frame is remapped: to the address of its pseudonym. */
  lemma HeaderFollows(policy: Policy, names: map<string, string>, ipMap: map<bytes, Ip4>, old': Ip4, new': Ip4)
    requires Readable(names) && MapsAs(names, ipMap) && AllCanonical(names) && (!policy.redactIps ==> ipMap == map[])
    requires Known(policy, names, Dotted(old')) && new' == Lookup(ipMap, old')
    ensures Dotted(new') == Named(policy, names, Dotted(old'))
  {
    DottedComesBack(old');
    hide ParseIp, Dotted;
  }

  /** The header addresses of the output are the pseudonyms of the input's, whatever the row says. */
  ghost predicate HeaderRedacted(policy: Policy, names: map<string, string>, before: Captured, after: Captured) {
    IsIpv4(before.raw) ==>
      && IsIpv4(after.raw)
      && HeaderSource(after.raw) == Named(policy, names, HeaderSource(before.raw))
      && HeaderDestination(after.raw) == Named(policy, names, HeaderDestination(before.raw))
  }

  /** A frame whose addresses are read for pseudonyms but whose IPv4 header is cut short or malformed keeps them. */
  lemma MalformedHeaderStays(raw: bytes, c: Config)
    requires HasIps(raw) && !IsIpv4(raw)
    ensures Remapped(raw, c).Ok? && |Remapped(raw, c).value| == |raw|
    ensures HeaderSource(Remapped(raw, c).value) == HeaderSource(raw)
    ensures HeaderDestination(Remapped(raw, c).value) == HeaderDestination(raw)
  {
    hide Dotted, IsIpv4;
    if !c.IsEmpty() {
      RemapTheorems.MapMacsReads(raw, c, 26, 30);
      RemapTheorems.MapMacsReads(raw, c, 30, 34);
    }
    hide MapMacs;
  }

  /** A frame cut off inside the IPv4 options its header announces, from 192.0.2.7. */
  const CUT_OPTIONS: bytes := [
    0, 0, 0, 0, 0, 0, 0, 0, 0, 0, 0, 0, 8, 0,
    79, 0, 0, 60, 0, 0, 0, 0, 64, 6, 0, 0, 192, 0, 2, 7, 192, 0, 2, 8]

  /** Its source address is registered for a pseudonym and yet survives every remapping. */
  lemma CutOptionsLeak(c: Config)
    ensures HasIps(CUT_OPTIONS) && !IsIpv4(CUT_OPTIONS) && Remapped(CUT_OPTIONS, c).Ok?
    ensures |Remapped(CUT_OPTIONS, c).value| == 34
    ensures HeaderSource(Remapped(CUT_OPTIONS, c).value) == HeaderSource(CUT_OPTIONS) == Dotted([192, 0, 2, 7])
  {
    assert CUT_OPTIONS[26..30] == [192, 0, 2, 7];
    hide Remapped, Dotted;
    MalformedHeaderStays(CUT_OPTIONS, c);
  }

  /**
    * "No original identifier leaks" for header addresses: a registered one stays in the frame exactly when the
    * frame's IPv4 header is cut short or malformed, or the address is its own pseudonym.
    */
  lemma HeaderStaysIff(policy: Policy, names: map<string, string>, c: Config, before: Captured, after: Captured)
    requires Renamed(policy, names, before, after) && Readable(names) && MapsAs(names, c.ipMap) && AllCanonical(names)
    requires !policy.redactIps ==> c.ipMap == map[]
    requires Remapped(before.raw, c) == Ok(after.raw) && HasIps(before.raw)
    ensures var s := HeaderSource(before.raw);
            HeaderSource(after.raw) == s <==> !IsIpv4(before.raw) || Named(policy, names, s) == s
    ensures var d := HeaderDestination(before.raw);
            HeaderDestination(after.raw) == d <==> !IsIpv4(before.raw) || Named(policy, names, d) == d
  {
    hide *;
    if IsIpv4(before.raw) {
      SanitizedMatches(policy, names, c, before, after);
      HeaderRedactedMeans(policy, names, before, after);
    } else {
      MalformedHeaderStays(before.raw, c);
    }
  }

  lemma HeaderRedactedMeans(policy: Policy, names: map<string, string>, before: Captured, after: Captured)
    requires HeaderRedacted(policy, names, before, after) && IsIpv4(before.raw)
    ensures |before.raw| >= 34 && |after.raw| >= 34
    ensures HeaderSource(after.raw) == Named(policy, names, HeaderSource(before.raw))
    ensures HeaderDestination(after.raw) == Named(policy, names, HeaderDestination(before.raw))
  {
    hide HeaderSource, HeaderDestination, Named;
  }

  lemma SanitizedMatches(policy: Policy, names: map<string, string>, c: Config, before: Captured, after: Captured)
    requires Renamed(policy, names, before, after) && Readable(names) && MapsAs(names, c.ipMap) && AllCanonical(names)
    requires !policy.redactIps ==> c.ipMap == map[]
    requires Remapped(before.raw, c) == Ok(after.raw)
    ensures StillMatches(before, after) && HeaderRedacted(policy, names, before, after)
  {
    hide Remapped, Readable, MapsAs, AllCanonical, Known, Named, Dotted, Lookup, RemapTheorems.SameShape;
    if IsIpv4(before.raw) {
      RemapTheorems.RemapKeepsShape(before.raw, c);
      RemapTheorems.ShapeDecides(before.raw, after.raw);
      RemapTheorems.AddressesAreMapped(before.raw, c);
      HeaderFollows(policy, names, c.ipMap, before.raw[26..30], after.raw[26..30]);
      HeaderFollows(policy, names, c.ipMap, before.raw[30..34], after.raw[30..34]);
    }
  }

  ghost predicate RenamedFlow(policy: Policy, names: map<string, string>, before: Endpoints, after: Endpoints) {
    && Known(policy, names, before.source) && after.source == Named(policy, names, before.source)
    && Known(policy, names, before.destination) && after.destination == Named(policy, names, before.destination)
  }

  /** All address texts of the rows are IPv4 addresses, or empty. */
  ghost predicate Ipv4Only(packets: seq<Captured>, flows: seq<Endpoints>) {
    && (forall p :: p in packets ==> (p.source == "" || Canonical(p.source)) && (p.destination == ""
                                                                                 || Canonical(p.destination)))
    && forall f :: f in flows ==> (f.source == "" || Canonical(f.source)) && (f.destination == ""
                                                                              || Canonical(f.destination))
  }

  /** Two texts of a session are given the same name exactly when they are the same. */
  ghost predicate OneNameEach(policy: Policy, names: map<string, string>) {
    forall s, t :: Known(policy, names, s) && Known(policy, names, t) ==>
                     (Named(policy, names, s) == Named(policy, names, t) <==> s == t)
  }

  ghost predicate AllRenamed(policy: Policy, names: map<string, string>, before: seq<Captured>, after: seq<Captured>) {
    |before| == |after| && forall i :: 0 <= i < |before| ==> Renamed(policy, names, before[i], after[i])
  }

  ghost predicate AllFlowsRenamed(policy: Policy, names: map<string, string>, before: seq<Endpoints>,
                                  after: seq<Endpoints>) {
    |before| == |after| && forall i :: 0 <= i < |before| ==> RenamedFlow(policy, names, before[i], after[i])
  }

  ghost predicate FramesKept(before: seq<Captured>, after: seq<Captured>) {
    |before| == |after| && forall i :: 0 <= i < |before| ==> after[i].raw == before[i].raw
  }

  /** Every registered text was there before or is an address text of the session. */
  ghost predicate FromSession(names: map<string, string>, packets: seq<Captured>, flows: seq<Endpoints>) {
    forall s :: s in names ==>
                  || Canonical(s)
                  || (exists p :: p in packets && (s == p.source || s == p.destination))
                  || exists f :: f in flows && (s == f.source || s == f.destination)
  }

  lemma AllRenamedStays(policy: Policy, names: map<string, string>, grown: map<string, string>, before: seq<Captured>,
                        after: seq<Captured>)
    requires AllRenamed(policy, names, before, after) && Grown(names, grown)
    ensures AllRenamed(policy, grown, before, after)
  {
    hide Renamed, Grown;
    forall i | 0 <= i < |before| ensures Renamed(policy, grown, before[i], after[i]) {
      RenamedStays(policy, names, grown, before[i], after[i]);
    }
  }

  lemma AllFlowsRenamedStays(policy: Policy, names: map<string, string>, grown: map<string, string>,
                             before: seq<Endpoints>,
                             after: seq<Endpoints>)
    requires AllFlowsRenamed(policy, names, before, after) && Grown(names, grown)
    ensures AllFlowsRenamed(policy, grown, before, after)
  {
  }

  lemma OneMoreRow(policy: Policy, names: map<string, string>, grown: map<string, string>, before: seq<Captured>,
                   after: seq<Captured>,
                   n: nat, row: Captured)
    requires n < |before| && AllRenamed(policy, names, before[..n], after) && Grown(names, grown)
             && FramesKept(before[..n], after)
    requires Renamed(policy, grown, before[n], row) && row.raw == before[n].raw
    ensures AllRenamed(policy, grown, before[..n + 1], after + [row]) && FramesKept(before[..n + 1], after + [row])
  {
    AllRenamedStays(policy, names, grown, before[..n], after);
    hide Renamed, Grown;
  }

  lemma OneMoreFlow(policy: Policy, names: map<string, string>, grown: map<string, string>, before: seq<Endpoints>,
                    after: seq<Endpoints>, n: nat, flow: Endpoints)
    requires n < |before| && AllFlowsRenamed(policy, names, before[..n], after) && Grown(names, grown)
    requires RenamedFlow(policy, grown, before[n], flow)
    ensures AllFlowsRenamed(policy, grown, before[..n + 1], after + [flow])
  {
    AllFlowsRenamedStays(policy, names, grown, before[..n], after);
    hide RenamedFlow, Grown;
  }

  lemma NothingRenamed(policy: Policy, packets: seq<Captured>, flows: seq<Endpoints>)
    ensures AllRenamed(policy, map[], packets[..0], []) && FramesKept(packets[..0], [])
            && FromSession(map[], packets, flows)
  {
  }

  lemma NoFlowRenamed(policy: Policy, names: map<string, string>, flows: seq<Endpoints>)
    ensures AllFlowsRenamed(policy, names, flows[..0], [])
  {
  }

  /** Every registered MAC address is one of some frame. */
  ghost predicate MacsFrom(macs: map<bytes, Mac>, packets: seq<Captured>) {
    forall m :: m in macs ==> exists p :: p in packets && MacOf(p.raw, m)
  }

  ghost predicate MacsCovered(policy: Policy, macs: map<bytes, Mac>, packets: seq<Captured>) {
    forall p :: p in packets ==> MacsKnown(policy, macs, p.raw)
  }

  lemma NoMacs(policy: Policy, packets: seq<Captured>)
    ensures MacsFrom(map[], packets) && MacsCovered(policy, map[], packets[..0])
  {
  }

  lemma NotCovered(policy: Policy, macs: map<bytes, Mac>, packets: seq<Captured>, i: nat)
    requires i < |packets| && !MacsKnown(policy, macs, packets[i].raw)
    ensures !MacsCovered(policy, macs, packets)
  {
  }

  lemma MacsFromGrows(macs: map<bytes, Mac>, grown: map<bytes, Mac>, packets: seq<Captured>, p: Captured)
    requires MacsFrom(macs, packets) && p in packets && forall m :: m in grown ==> m in macs || MacOf(p.raw, m)
    ensures MacsFrom(grown, packets)
  {
    hide MacOf;
  }

  lemma MacsCoveredGrows(policy: Policy, macs: map<bytes, Mac>, grown: map<bytes, Mac>, packets: seq<Captured>, n: nat)
    requires n < |packets| && MacsCovered(policy, macs, packets[..n]) && macs.Keys <= grown.Keys
    requires MacsKnown(policy, grown, packets[n].raw)
    ensures MacsCovered(policy, grown, packets[..n + 1])
  {
  }

  lemma GrownTwice(a: map<string, string>, b: map<string, string>, c: map<string, string>)
    requires Grown(a, b) && Grown(b, c)
    ensures Grown(a, c)
  {
  }

  lemma FromSessionGrows(names: map<string, string>, grown: map<string, string>, packets: seq<Captured>,
                         flows: seq<Endpoints>, s: string, d: string)
    requires FromSession(names, packets, flows)
    requires forall x :: x in grown ==> x in names || Canonical(x) || x == s || x == d
    requires
      || (exists p :: p in packets && s == p.source && d == p.destination)
      || exists f :: f in flows && s == f.source && d == f.destination
    ensures FromSession(grown, packets, flows)
  {
    hide Canonical;
  }

  lemma SessionIsCanonical(names: map<string, string>, packets: seq<Captured>, flows: seq<Endpoints>)
    requires FromSession(names, packets, flows) && Ipv4Only(packets, flows) && "" !in names
    ensures AllCanonical(names)
  {
    hide Canonical;
  }

  /** One packet of the first pass. */
  method ReadRow(redactor: Redactor, p: Captured) returns (ok: bool, row: Captured)
    requires redactor.Valid()
    modifies redactor
    ensures redactor.Valid() && Grown(old(redactor.ips), redactor.ips)
    ensures !redactor.policy.redactIps ==> redactor.ips == old(redactor.ips)
    ensures ok ==> row.raw == p.raw && Renamed(redactor.policy, redactor.ips, p, row)
    ensures forall s :: s in redactor.ips ==>
                          s in old(redactor.ips) || Canonical(s) || s == p.source || s == p.destination
    ensures (ok ==> MacsKnown(redactor.policy, redactor.macs, p.raw)) && old(redactor.macs.Keys) <= redactor.macs.Keys
    ensures !ok ==> |redactor.macs| == 0x1_0000 && !MacsKnown(redactor.policy, redactor.macs, p.raw)
    ensures forall m :: m in redactor.macs ==> m in old(redactor.macs) || MacOf(p.raw, m)
    ensures ok ==> redactor.macOrder == if redactor.policy.redactMacs then AddMacs(old(redactor.macOrder), p.raw)
                                        else old(redactor.macOrder)
    ensures ok ==>
              redactor.ipOrder == if redactor.policy.redactIps then
                                    AddText(AddText(AddHeader(old(redactor.ipOrder), p.raw), p.source), p.destination)
                                  else old(redactor.ipOrder)
  {
    hide AddMacs, AddHeader, AddText, AddNew;
    hide Canonical, EtherType, HeaderSource, HeaderDestination, Numbered, NumberedMacs, MacsKnown, MacOf;
    row := p;
    ok := redactor.ObserveFrame(p.raw);
    if !ok {
      return;
    }
    var source := redactor.Ip(p.source);
    var destination := redactor.Ip(p.destination);
    row := Captured(source, destination, p.raw);
  }

  /** The first pass: every address is registered, and the metadata renamed. */
  method ReadRows(redactor: Redactor, packets: seq<Captured>, ghost flows: seq<Endpoints>)
    returns (ok: bool, rows: seq<Captured>)
    requires redactor.Valid() && redactor.ips == map[] && redactor.macs == map[]
    requires redactor.ipOrder == [] && redactor.macOrder == []
    modifies redactor
    ensures redactor.Valid() && (!redactor.policy.redactIps ==> redactor.ips == map[])
    ensures FromSession(redactor.ips, packets, flows) && MacsFrom(redactor.macs, packets)
    ensures ok <==> MacsCovered(redactor.policy, redactor.macs, packets)
    ensures !ok ==> |redactor.macs| == 0x1_0000
    ensures ok ==> AllRenamed(redactor.policy, redactor.ips, packets, rows) && FramesKept(packets, rows)
    ensures ok ==> redactor.macOrder == if redactor.policy.redactMacs then MacsOf(packets) else []
    ensures ok ==> redactor.ipOrder == if redactor.policy.redactIps then TextsOf(packets) else []
  {
    hide *;
    rows := [];
    NothingRenamed(redactor.policy, packets, flows);
    NoMacs(redactor.policy, packets);
    NoPackets(packets);
    for i := 0 to |packets|
      invariant redactor.Valid() && (!redactor.policy.redactIps ==> redactor.ips == map[])
      invariant AllRenamed(redactor.policy, redactor.ips, packets[..i], rows) && FramesKept(packets[..i], rows)
      invariant FromSession(redactor.ips, packets, flows)
      invariant MacsFrom(redactor.macs, packets) && MacsCovered(redactor.policy, redactor.macs, packets[..i])
      invariant redactor.macOrder == if redactor.policy.redactMacs then MacsOf(packets[..i]) else []
      invariant redactor.ipOrder == if redactor.policy.redactIps then TextsOf(packets[..i]) else []
    {
      OneMorePacket(packets, i);
      ghost var names, macs := redactor.ips, redactor.macs;
      var row;
      ok, row := ReadRow(redactor, packets[i]);
      assert packets[i] in packets;
      FromSessionGrows(names, redactor.ips, packets, flows, packets[i].source, packets[i].destination);
      MacsFromGrows(macs, redactor.macs, packets, packets[i]);
      if !ok {
        NotCovered(redactor.policy, redactor.macs, packets, i);
        return;
      }
      OneMoreRow(redactor.policy, names, redactor.ips, packets, rows, i, row);
      MacsCoveredGrows(redactor.policy, macs, redactor.macs, packets, i);
      rows := rows + [row];
    }
    ok := true;
    assert packets[..|packets|] == packets;
  }

  /** The flow rows are renamed by the same table, which they may still extend. */
  method ReadFlows(redactor: Redactor, flows: seq<Endpoints>, ghost packets: seq<Captured>)
    returns (rows: seq<Endpoints>)
    requires redactor.Valid() && FromSession(redactor.ips, packets, flows)
    modifies redactor
    ensures redactor.Valid() && Grown(old(redactor.ips), redactor.ips) && redactor.macs == old(redactor.macs)
    ensures !redactor.policy.redactIps ==> redactor.ips == old(redactor.ips)
    ensures FromSession(redactor.ips, packets, flows) && AllFlowsRenamed(redactor.policy, redactor.ips, flows, rows)
    ensures redactor.macOrder == old(redactor.macOrder)
    ensures redactor.ipOrder == if redactor.policy.redactIps then AddFlows(old(redactor.ipOrder), flows)
                                else old(redactor.ipOrder)
  {
    hide *;
    rows := [];
    NoFlows(redactor.ipOrder, flows);
    NoFlowRenamed(redactor.policy, redactor.ips, flows);
    GrownFromItself(redactor.ips);
    for i := 0 to |flows|
      invariant redactor.Valid() && Grown(old(redactor.ips), redactor.ips) && redactor.macs == old(redactor.macs)
      invariant !redactor.policy.redactIps ==> redactor.ips == old(redactor.ips)
      invariant FromSession(redactor.ips, packets, flows)
                && AllFlowsRenamed(redactor.policy, redactor.ips, flows[..i], rows)
      invariant redactor.macOrder == old(redactor.macOrder)
      invariant redactor.ipOrder == if redactor.policy.redactIps then AddFlows(old(redactor.ipOrder), flows[..i])
                                    else old(redactor.ipOrder)
    {
      OneMoreFlowText(old(redactor.ipOrder), flows, i);
      ghost var names := redactor.ips;
      var row := ReadFlow(redactor, flows[i]);
      assert flows[i] in flows;
      FromSessionGrows(names, redactor.ips, packets, flows, flows[i].source, flows[i].destination);
      GrownTwice(old(redactor.ips), names, redactor.ips);
      OneMoreFlow(redactor.policy, names, redactor.ips, flows, rows, i, row);
      rows := rows + [row];
    }
    assert flows[..|flows|] == flows;
  }

  lemma GrownFromItself(names: map<string, string>)
    ensures Grown(names, names)
  {
  }

  method ReadFlow(redactor: Redactor, f: Endpoints) returns (row: Endpoints)
    requires redactor.Valid()
    modifies redactor
    ensures redactor.Valid() && Grown(old(redactor.ips), redactor.ips) && redactor.macs == old(redactor.macs)
    ensures !redactor.policy.redactIps ==> redactor.ips == old(redactor.ips)
    ensures RenamedFlow(redactor.policy, redactor.ips, f, row)
    ensures forall s :: s in redactor.ips ==> s in old(redactor.ips) || Canonical(s) || s == f.source
                                              || s == f.destination
    ensures redactor.macOrder == old(redactor.macOrder)
    ensures redactor.ipOrder == if redactor.policy.redactIps then
                                  AddText(AddText(old(redactor.ipOrder), f.source), f.destination)
                                else old(redactor.ipOrder)
  {
    hide Canonical, Numbered, NumberedMacs, AddText;
    var source := redactor.Ip(f.source);
    var destination := redactor.Ip(f.destination);
    row := Endpoints(source, destination);
  }

  /** The second pass: every frame is remapped. */
  method RewriteFrames(rows: seq<Captured>, c: Config) returns (r: Result<seq<Captured>, SanitizeError>)
    ensures r.Ok? ==>
              && |r.value| == |rows|
              && forall i :: 0 <= i < |rows| ==>
                               && Remapped(rows[i].raw, c) == Ok(r.value[i].raw)
                               && r.value[i].source == rows[i].source && r.value[i].destination == rows[i].destination
    ensures r.Err? ==> r.error.BadFrame? && exists i :: 0 <= i < |rows| && Remapped(rows[i].raw, c) == Err(r.error.why)
  {
    hide Remapped;
    var out: seq<Captured> := [];
    for i := 0 to |rows|
      invariant |out| == i
      invariant forall j :: 0 <= j < i ==>
                              && Remapped(rows[j].raw, c) == Ok(out[j].raw)
                              && out[j].source == rows[j].source && out[j].destination == rows[j].destination
    {
      var frame := RemapFrame(rows[i].raw, c);
      if frame.Err? {
        return Err(BadFrame(frame.error));
      }
      out := out + [rows[i].(raw := frame.value)];
    }
    return Ok(out);
  }

  lemma AllSanitized(policy: Policy, names: map<string, string>, c: Config, packets: seq<Captured>,
                     rows: seq<Captured>, out: seq<Captured>)
    requires AllRenamed(policy, names, packets, rows) && FramesKept(packets, rows) && |out| == |rows|
    requires forall i :: 0 <= i < |rows| ==>
                           && Remapped(rows[i].raw, c) == Ok(out[i].raw)
                           && out[i].source == rows[i].source && out[i].destination == rows[i].destination
    requires Readable(names) && MapsAs(names, c.ipMap) && (!policy.redactIps ==> c.ipMap == map[])
    ensures AllRenamed(policy, names, packets, out)
    ensures AllCanonical(names) ==>
              forall i :: 0 <= i < |packets| ==>
                            StillMatches(packets[i], out[i]) && HeaderRedacted(policy, names, packets[i], out[i])
  {
    hide Readable, MapsAs, AllCanonical, Remapped, StillMatches, HeaderRedacted, Known, Named, HeaderSource,
      HeaderDestination, EtherType;
    assert AllRenamed(policy, names, packets, out);
    if AllCanonical(names) {
      forall i | 0 <= i < |packets|
        ensures StillMatches(packets[i], out[i]) && HeaderRedacted(policy, names, packets[i], out[i])
      {
        SanitizedMatches(policy, names, c, packets[i], out[i]);
      }
    }
  }

  /** The frames are those of the source, remapped. */
  ghost predicate FramesRemapped(c: Config, before: seq<Captured>, after: seq<Captured>) {
    |after| == |before| && forall i :: 0 <= i < |before| ==> Remapped(before[i].raw, c) == Ok(after[i].raw)
  }

  /** Every MAC address of every frame is mapped, each to its own pseudonym. */
  ghost predicate MacsMapped(policy: Policy, c: Config, packets: seq<Captured>) {
    && MacsCovered(policy, c.macMap, packets)
    && forall a, b :: a in c.macMap && b in c.macMap ==> (c.macMap[a] == c.macMap[b] <==> a == b)
  }

  /** Why sanitizing fails. */
  ghost predicate Refused(e: SanitizeError, policy: Policy, names: map<string, string>, c: Config,
                          packets: seq<Captured>) {
    match e
    case BadAddress(text) => ParseIp(text).None? && (text in names || |names| > 0x1_0000)
    case TooManyMacs => |c.macMap| == 0x1_0000 && !MacsCovered(policy, c.macMap, packets)
    case BadFrame(why) => exists i :: 0 <= i < |packets| && Remapped(packets[i].raw, c) == Err(why)
  }

  lemma RefusedFrame(rows: seq<Captured>, policy: Policy, packets: seq<Captured>, names: map<string, string>,
                     c: Config, why: RemapError)
    requires FramesKept(packets, rows) && exists i :: 0 <= i < |rows| && Remapped(rows[i].raw, c) == Err(why)
    ensures Refused(BadFrame(why), policy, names, c, packets)
  {
    hide Remapped;
    var i :| 0 <= i < |rows| && Remapped(rows[i].raw, c) == Err(why);
    assert Remapped(packets[i].raw, c) == Err(why);
  }

  lemma RefusedAddress(text: string, policy: Policy, names: map<string, string>, c: Config, packets: seq<Captured>)
    requires ParseIp(text).None? && (text in names || |names| > 0x1_0000)
    ensures Refused(BadAddress(text), policy, names, c, packets)
  {
  }

  lemma RefusedMac(policy: Policy, names: map<string, string>, c: Config, packets: seq<Captured>)
    requires |c.macMap| == 0x1_0000 && !MacsCovered(policy, c.macMap, packets)
    ensures Refused(TooManyMacs, policy, names, c, packets)
  {
  }

  /** Where everything is readable, covered and remapped there is no reason to fail. */
  lemma NothingRefused(e: SanitizeError, policy: Policy, names: map<string, string>, c: Config, packets: seq<Captured>,
                       out: seq<Captured>)
    requires Readable(names) && |names| <= 0x1_0000 && MacsCovered(policy, c.macMap, packets)
    requires FramesRemapped(c, packets, out)
    ensures !Refused(e, policy, names, c, packets)
  {
    hide Remapped, ParseIp, MacsCovered, Canonical;
  }

  /** Every endpoint text of the session is empty or reads as an IPv4 address. */
  ghost predicate AllRead(packets: seq<Captured>, flows: seq<Endpoints>) {
    && (forall i :: 0 <= i < |packets| ==> Reads(packets[i].source) && Reads(packets[i].destination))
    && (forall i :: 0 <= i < |flows| ==> Reads(flows[i].source) && Reads(flows[i].destination))
  }

  ghost predicate Reads(text: string) { text == "" || ParseIp(text).Some? }

  lemma KnownReads(policy: Policy, names: map<string, string>, text: string)
    requires Readable(names) && policy.redactIps && Known(policy, names, text)
    ensures Reads(text)
  {
    hide ParseIp;
  }

  lemma RenamedRead(policy: Policy, names: map<string, string>, packets: seq<Captured>, flows: seq<Endpoints>,
                    out: seq<Captured>, flowsOut: seq<Endpoints>)
    requires AllRenamed(policy, names, packets, out) && AllFlowsRenamed(policy, names, flows, flowsOut)
    requires Readable(names) && policy.redactIps
    ensures AllRead(packets, flows)
  {
    hide Readable, Known, Named, HeaderSource, HeaderDestination, EtherType, Reads;
    forall i | 0 <= i < |packets| ensures Reads(packets[i].source) && Reads(packets[i].destination) {
      assert Renamed(policy, names, packets[i], out[i]);
      KnownReads(policy, names, packets[i].source);
      KnownReads(policy, names, packets[i].destination);
    }
    forall i | 0 <= i < |flows| ensures Reads(flows[i].source) && Reads(flows[i].destination) {
      assert RenamedFlow(policy, names, flows[i], flowsOut[i]);
      KnownReads(policy, names, flows[i].source);
      KnownReads(policy, names, flows[i].destination);
    }
  }

  /** The address is 02:00:00:00 followed by the number of its first appearance among all those of the frames. */
  ghost predicate NumberedMac(packets: seq<Captured>, mac: bytes, out: bytes) {
    exists k :: && 0 <= k < |MacsOf(packets)| && MacsOf(packets)[k] == mac
                && k < 0x1_0000 && out == [2, 0, 0, 0, k / 256, k % 256]
  }

  /** Both MAC addresses of a rewritten frame, on its bytes. */
  ghost predicate MacsRedacted(policy: Policy, packets: seq<Captured>, raw: bytes, out: bytes) {
    && |out| == |raw|
    && (!policy.redactMacs || |raw| < 14 ==> forall j :: 0 <= j < 12 && j < |raw| ==> out[j] == raw[j])
    && (policy.redactMacs && |raw| >= 14 ==>
          NumberedMac(packets, raw[..6], out[..6]) && NumberedMac(packets, raw[6..12], out[6..12]))
  }

  lemma NumbersAre(redactor: Redactor)
    requires redactor.Valid()
    ensures Numbered(redactor.ipOrder, redactor.ips) && NumberedMacs(redactor.macOrder, redactor.macs)
    ensures redactor.ipOrder == [] ==> redactor.ips == map[]
  {
    hide Pseudonym;
    if redactor.ips != map[] {
      var s :| s in redactor.ips;
      assert s in redactor.ipOrder;
    }
  }

  lemma MacNumber(order: seq<bytes>, packets: seq<Captured>, macs: map<bytes, Mac>, mac: bytes)
    requires NumberedMacs(order, macs) && order == MacsOf(packets) && mac in macs
    ensures NumberedMac(packets, mac, macs[mac])
  {
    hide MacsOf;
    var k :| 0 <= k < |order| && order[k] == mac;
  }

  lemma NoMacsMapped(order: seq<bytes>, macs: map<bytes, Mac>)
    requires NumberedMacs(order, macs) && order == []
    ensures macs == map[]
  {
    forall m ensures m !in macs {
      assert m !in order;
    }
  }

  lemma FrameMacs(policy: Policy, order: seq<bytes>, c: Config, packets: seq<Captured>, out: seq<Captured>)
    requires NumberedMacs(order, c.macMap) && order == (if policy.redactMacs then MacsOf(packets) else [])
    requires MacsCovered(policy, c.macMap, packets) && FramesRemapped(c, packets, out)
    ensures |out| == |packets|
    ensures forall i :: 0 <= i < |packets| ==> MacsRedacted(policy, packets, packets[i].raw, out[i].raw)
  {
    hide NumberedMacs, Remapped, MacsRedacted, MacsKnown;
    forall i | 0 <= i < |packets| ensures MacsRedacted(policy, packets, packets[i].raw, out[i].raw) {
      assert packets[i] in packets;
      OneFrameMacs(policy, order, c, packets, packets[i].raw, out[i].raw);
    }
  }

  lemma OneFrameMacs(policy: Policy, order: seq<bytes>, c: Config, packets: seq<Captured>, raw: bytes, out: bytes)
    requires NumberedMacs(order, c.macMap) && order == (if policy.redactMacs then MacsOf(packets) else [])
    requires MacsKnown(policy, c.macMap, raw) && Remapped(raw, c) == Ok(out)
    ensures MacsRedacted(policy, packets, raw, out)
  {
    if |raw| < 14 {
      ShortFrameStays(raw, c);
    } else {
      RemapTheorems.AddressesAreMapped(raw, c);
      assert raw[..6] == raw[0..6] && out[..6] == out[0..6];
      if policy.redactMacs {
        MacNumber(order, packets, c.macMap, raw[0..6]);
        MacNumber(order, packets, c.macMap, raw[6..12]);
      } else {
        NoMacsMapped(order, c.macMap);
        SameTwelve(raw, out);
      }
    }
    hide Remapped, NumberedMacs, NumberedMac, MacsOf, IsIpv4;
  }

  lemma ShortFrameStays(raw: bytes, c: Config)
    requires |raw| < 14
    ensures Remapped(raw, c) == Ok(raw)
  {
  }

  lemma SameTwelve(raw: bytes, out: bytes)
    requires |raw| == |out| >= 14 && out[0..6] == raw[0..6] && out[6..12] == raw[6..12]
    ensures forall j :: 0 <= j < 12 ==> out[j] == raw[j]
  {
    forall j | 0 <= j < 12 ensures out[j] == raw[j] {
      if j < 6 {
        assert out[j] == out[0..6][j] && raw[j] == raw[0..6][j];
      } else {
        assert out[j] == out[6..12][j - 6] && raw[j] == raw[6..12][j - 6];
      }
    }
  }

  /**
    * A sanitized copy. Equal address texts, and only those, stay equal across packets and flows; the frames
    * are remapped and their MAC addresses stay apart; and when the session's address texts are all IPv4,
    * every well-formed IPv4 header names pseudonyms only and whatever packet row agreed with its frame's
    * header still does. It fails exactly for one of three reasons, and on any endpoint text that is not IPv4.
    */
  method SanitizeSession(packets: seq<Captured>, flows: seq<Endpoints>, policy: Policy)
    returns (r: Result<(seq<Captured>, seq<Endpoints>), SanitizeError>, ghost names: map<string, string>,
             ghost c: Config)
    ensures r.Ok? ==>
              && AllRenamed(policy, names, packets, r.value.0) && AllFlowsRenamed(policy, names, flows, r.value.1)
              && OneNameEach(policy, names) && FramesRemapped(c, packets, r.value.0) && MacsMapped(policy, c, packets)
    ensures r.Ok? && Ipv4Only(packets, flows) ==>
              forall i :: 0 <= i < |packets| ==>
                            && StillMatches(packets[i], r.value.0[i])
                            && HeaderRedacted(policy, names, packets[i], r.value.0[i])
    ensures r.Err? ==> Refused(r.error, policy, names, c, packets)
    ensures r.Ok? ==> forall e :: !Refused(e, policy, names, c, packets)
    ensures r.Ok? && policy.redactIps ==> AllRead(packets, flows)
    ensures r.Ok? ==> if policy.redactIps then Numbered(AddFlows(TextsOf(packets), flows), names) else names == map[]
    ensures r.Ok? ==> forall i :: 0 <= i < |packets| ==> MacsRedacted(policy, packets, packets[i].raw, r.value.0[i].raw)
    ensures FromSession(names, packets, flows) && MacsFrom(c.macMap, packets)
  {
    hide *;
    var redactor := new Redactor(policy);
    var ok, rows := ReadRows(redactor, packets, flows);
    names, c := redactor.ips, Config(redactor.macs, map[], map[]);
    if !ok {
      RefusedMac(policy, names, c, packets);
      return Err(TooManyMacs), names, c;
    }
    var flowRows := ReadFlows(redactor, flows, packets);
    AllRenamedStays(policy, names, redactor.ips, packets, rows);
    names := redactor.ips;
    var config := redactor.RemapConfig();
    if config.Err? {
      RefusedAddress(config.error.text, policy, names, c, packets);
      return Err(config.error), names, c;
    }
    c := config.value;
    var out := RewriteFrames(rows, config.value);
    if out.Err? {
      RefusedFrame(rows, policy, packets, names, c, out.error.why);
      return Err(out.error), names, c;
    }
    AllSanitized(policy, names, config.value, packets, rows, out.value);
    FramesAreRemapped(c, packets, rows, out.value);
    forall e ensures !Refused(e, policy, names, c, packets) {
      NothingRefused(e, policy, names, c, packets, out.value);
    }
    if policy.redactIps {
      RenamedRead(policy, names, packets, flows, out.value, flowRows);
    }
    NamesAreFaithful(redactor);
    MacsAreMapped(redactor, c, packets);
    NumbersAre(redactor);
    FrameMacs(policy, redactor.macOrder, c, packets, out.value);
    if Ipv4Only(packets, flows) {
      SessionIsCanonical(names, packets, flows);
    }
    return Ok((out.value, flowRows)), names, c;
  }

  lemma FramesAreRemapped(c: Config, packets: seq<Captured>, rows: seq<Captured>, out: seq<Captured>)
    requires FramesKept(packets, rows) && |out| == |rows|
    requires forall i :: 0 <= i < |rows| ==> Remapped(rows[i].raw, c) == Ok(out[i].raw)
    ensures FramesRemapped(c, packets, out)
  {
    hide Remapped;
  }

  lemma MacsAreMapped(redactor: Redactor, c: Config, packets: seq<Captured>)
    requires redactor.Valid() && c.macMap == redactor.macs && MacsCovered(redactor.policy, redactor.macs, packets)
    ensures MacsMapped(redactor.policy, c, packets)
  {
    hide Numbered, NumberedMacs, MacsCovered;
    forall a, b | a in c.macMap && b in c.macMap ensures c.macMap[a] == c.macMap[b] <==> a == b {
      if c.macMap[a] == c.macMap[b] {
        MacPseudonymsDiffer(redactor.macOrder, redactor.macs, a, b);
      }
    }
  }

  lemma NamesAreFaithful(redactor: Redactor)
    requires redactor.Valid()
    ensures OneNameEach(redactor.policy, redactor.ips) && "" !in redactor.ips
  {
    hide Numbered, Named, Known;
    forall s, t | Known(redactor.policy, redactor.ips, s) && Known(redactor.policy, redactor.ips, t)
      ensures Named(redactor.policy, redactor.ips, s) == Named(redactor.policy, redactor.ips, t) <==> s == t
    {
      NamedIsInjective(redactor.policy, redactor.ipOrder, redactor.ips, s, t);
    }
  }
}
