// IPv4 addresses as dotted decimal text.
module Addresses {
  import opened Wrappers
  import opened Bytes
  import opened Remap

  function Digit(d: nat): char
    requires d < 10
  {
    '0' + d as char
  }

  /** `str(n)`. */
  function Decimal(n: nat): (s: string)
    ensures s != [] && '.' !in s
  {
    if n < 10 then [Digit(n)] else Decimal(n / 10) + [Digit(n % 10)]
  }

  /** `int(s)` on a string of decimal digits. */
  function ParseDecimal(s: string): Option<nat> {
    if s == [] || !('0' <= s[|s| - 1] <= '9') then None
    else
      var last := (s[|s| - 1] - '0') as nat;
      if |s| == 1 then Some(last)
      else
        var rest := ParseDecimal(s[..|s| - 1]);
        if rest.None? then None else Some(rest.value * 10 + last)
  }

  /** `s.split(".")`. */
  function Split(s: string): (parts: seq<string>)
    ensures parts != []
  {
    if s == [] then [[]]
    else
      var parts := Split(s[1..]);
      if s[0] == '.' then [[]] + parts else [[s[0]] + parts[0]] + parts[1..]
  }

  /** `".".join(str(b) for b in raw)`. */
  function Dotted(raw: Ip4): (text: string)
    ensures text != ""
  {
    Decimal(raw[0]) + "." + (Decimal(raw[1]) + "." + (Decimal(raw[2]) + "." + Decimal(raw[3])))
  }

  function AsByte(part: string): Option<byte> {
    var n := ParseDecimal(part);
    if n.None? || n.value > 255 then None else Some(n.value)
  }

  /** `Ipv4Address.parse`: four decimal bytes. */
  function ParseIp(text: string): Option<Ip4> {
    var parts := Split(text);
    if |parts| != 4 then None
    else
      var a, b, c, d := AsByte(parts[0]), AsByte(parts[1]), AsByte(parts[2]), AsByte(parts[3]);
      if a.None? || b.None? || c.None? || d.None? then None else Some([a.value, b.value, c.value, d.value])
  }

  lemma {:induction false} DecimalComesBack(n: nat)
    ensures ParseDecimal(Decimal(n)) == Some(n)
  {
    if n >= 10 {
      DecimalComesBack(n / 10);
      var s := Decimal(n);
      assert s[..|s| - 1] == Decimal(n / 10);
    }
  }

  lemma {:induction false} SplitFirst(part: string, rest: string)
    requires '.' !in part
    ensures Split(part + "." + rest) == [part] + Split(rest)
  {
    var s := part + "." + rest;
    if part == [] {
      assert s == "." + rest && s[1..] == rest;
    } else {
      SplitFirst(part[1..], rest);
      assert s[1..] == part[1..] + "." + rest;
      assert [s[0]] + part[1..] == part;
    }
  }

  lemma {:induction false} SplitLast(part: string)
    requires '.' !in part
    ensures Split(part) == [part]
  {
    if part != [] {
      SplitLast(part[1..]);
      assert [part[0]] + part[1..] == part;
    }
  }

  lemma ByteComesBack(b: byte)
    ensures AsByte(Decimal(b)) == Some(b)
  {
    DecimalComesBack(b);
  }

  lemma SplitDotted(a: string, b: string, c: string, d: string)
    requires '.' !in a && '.' !in b && '.' !in c && '.' !in d
    ensures Split(a + "." + (b + "." + (c + "." + d))) == [a, b, c, d]
  {
    hide Split;
    SplitLast(d);
    SplitFirst(c, d);
    SplitFirst(b, c + "." + d);
    SplitFirst(a, b + "." + (c + "." + d));
  }

  /** Every address reads back from its text, so no two addresses share one. */
  lemma DottedComesBack(raw: Ip4)
    ensures ParseIp(Dotted(raw)) == Some(raw)
  {
    hide Decimal, ParseDecimal, Split, AsByte;
    SplitDotted(Decimal(raw[0]), Decimal(raw[1]), Decimal(raw[2]), Decimal(raw[3]));
    ByteComesBack(raw[0]);
    ByteComesBack(raw[1]);
    ByteComesBack(raw[2]);
    ByteComesBack(raw[3]);
    assert [raw[0], raw[1], raw[2], raw[3]] == raw;
  }
}
