// The synthetic ClientHello of the mock capture backend, naming a server
// (server_name extension of section 3 of RFC 6066).
module MockHello {
  import opened Wrappers
  import opened Bytes
  import opened TlsStream
  import opened HelloCodec

  // ------------------------------------------------------------ names

  const QUESTION: byte := 63

  /** `name.encode("ascii", errors="replace")`. */
  function Ascii(name: string): bytes {
    seq(|name|, i requires 0 <= i < |name| => if name[i] < 128 as char then name[i] as int else QUESTION)
  }

  /** Decoding bytes that are all ASCII. */
  function Text(name: bytes): string
    requires forall i :: 0 <= i < |name| ==> name[i] < 128
  {
    seq(|name|, i requires 0 <= i < |name| => name[i] as char)
  }

  lemma AsciiNamesComeBack(name: string)
    ensures forall i :: 0 <= i < |name| ==> Ascii(name)[i] < 128
    ensures (forall i :: 0 <= i < |name| ==> name[i] < 128 as char) <==> Text(Ascii(name)) == name
  {
    if Text(Ascii(name)) == name {
      forall i | 0 <= i < |name| ensures name[i] < 128 as char {
        assert Text(Ascii(name))[i] == name[i];
      }
    }
  }

  // ------------------------------------------------------------ building

  const CIPHERS: seq<Word16> := [0x1301, 0x1302, 0x1303, 0xC02F, 0xC02B]

  /** `to_bytes` on a length that does not fit its field. */
  datatype BuildError = LengthOverflow(length: nat)

  /** The longest name whose record length still fits 16 bits. */
  const MAX_NAME := 65471

  /** Version, random, no session id, the cipher suites, one null compression method. */
  function Head(): bytes {
    [3, 3] + seq(32, i requires 0 <= i < 32 => i) + [0] + ToBig16(|CIPHERS| * 2) + Words(CIPHERS) + [1, 0]
  }

  function NameExtension(name: bytes): bytes
    requires |name| <= MAX_NAME
  {
    [0, 0] + ToBig16(5 + |name|) + ToBig16(3 + |name|) + [0] + ToBig16(|name|) + name
  }

  function HelloBody(name: bytes): (body: bytes)
    requires |name| <= MAX_NAME
    ensures |body| == 60 + |name|
  {
    Head() + ToBig16(9 + |name|) + NameExtension(name)
  }

  function HelloRecord(name: bytes): Record
    requires |name| <= MAX_NAME
  {
    Record(HANDSHAKE, 0x0301, [CLIENT_HELLO] + ToBig24(60 + |name|) + HelloBody(name))
  }

  /** Refused exactly when the name is too long; otherwise the one record. */
  method TlsClientHello(sni: string) returns (r: Result<bytes, BuildError>)
    ensures if |sni| <= MAX_NAME then r == Ok(Serialize()(HelloRecord(Ascii(sni)))) else r.Err?
  {
    hide ToBig16, ToBig24, Words;
    var name := Ascii(sni);
    // the innermost 16-bit length overflows last, the record length first
    if |name| > 65535 || 3 + |name| > 65535 || 5 + |name| > 65535 || 9 + |name| > 65535 {
      return Err(LengthOverflow(|name|));
    }
    var nameEntry := [0] + ToBig16(|name|) + name;
    var payload := ToBig16(|nameEntry|) + nameEntry;
    var ext := [0, 0] + ToBig16(|payload|) + payload;
    var body := [3, 3];
    body := body + seq(32, i requires 0 <= i < 32 => i);
    body := body + [0];
    body := body + ToBig16(|CIPHERS| * 2);
    body := AppendCiphers(body);
    body := body + [1, 0];
    assert body == Head();
    body := body + ToBig16(|ext|) + ext;
    var hello := [1] + ToBig24(|body|) + body;
    if |hello| > 65535 {
      return Err(LengthOverflow(|hello|));
    }
    assert body == HelloBody(name);
    assert [22] + ToBig16(0x0301) + ToBig16(|hello|) + hello == Serialize()(HelloRecord(name));
    return Ok([22] + ToBig16(0x0301) + ToBig16(|hello|) + hello);
  }

  method AppendCiphers(start: bytes) returns (body: bytes)
    ensures body == start + Words(CIPHERS)
  {
    hide ToBig16, Words;
    body := start;
    WordsOfNone(start);
    for i := 0 to |CIPHERS|
      invariant body == start + Words(CIPHERS[..i])
    {
      OneMoreWord(CIPHERS, i);
      body := body + ToBig16(CIPHERS[i]);
    }
    assert CIPHERS[..|CIPHERS|] == CIPHERS;
  }

  lemma WordsOfNone(start: bytes)
    ensures start == start + Words(CIPHERS[..0])
  {
  }

  lemma {:induction false} OneMoreWord(vs: seq<Word16>, i: nat)
    requires i < |vs|
    ensures Words(vs[..i + 1]) == Words(vs[..i]) + ToBig16(vs[i])
    decreases i
  {
    hide ToBig16;
    if i == 0 {
      assert vs[..1] == [vs[0]] && vs[..0] == [] && [vs[0]][1..] == [];
    } else {
      OneMoreWord(vs[1..], i - 1);
      assert vs[..i + 1][1..] == vs[1..][..i] && vs[..i][1..] == vs[1..][..i - 1];
    }
  }
}
