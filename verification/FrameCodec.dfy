// IPv4 frames written field by field (section 3.1 of RFC 791), and what the frame readers say of them.
module FrameCodec {
  import opened Wrappers
  import opened Bytes
  import opened Checksum
  import opened Remap
  import opened Validate

  type Word16 = x: int | 0 <= x < 0x1_0000

  /** The fields of a frame; options and transport part follow the fixed header in one piece. */
  datatype Frame = Frame(
    macs: bytes, etherType: Word16, version: nat, words: nat, service: byte, total: Word16, id: Word16,
    flags: nat, offset: nat, ttl: byte, protocol: byte, checksum: Word16, source: Ip4, destination: Ip4, rest: bytes)
  {
    /** Every field fits where it is written. */
    predicate Fits() { |macs| == 12 && version < 16 && words < 16 && flags < 8 && offset < 0x2000 }

    function Fixed(): (b: bytes)
      requires Fits()
      ensures |b| == 20
    {
      [version * 16 + words, service] + ToBig16(total) + ToBig16(id) + ToBig16(flags * 0x2000 + offset)
      + [ttl, protocol] + ToBig16(checksum) + source + destination
    }

    function Written(): bytes
      requires Fits()
    {
      macs + ToBig16(etherType) + Fixed() + rest
    }

    /** The header as the words field delimits it is a whole one. */
    predicate Whole() { words >= 5 && 4 * words - 20 <= |rest| }

    /** Fixed header and options with a blank checksum field. */
    function BlankHeader(): bytes
      requires Fits() && Whole()
    {
      this.(checksum := 0).Fixed() + rest[..4 * words - 20]
    }
  }

  lemma WrittenBytes(f: Frame)
    requires f.Fits()
    ensures var raw, b := f.Written(), f.Fixed();
            |raw| == 34 + |f.rest| && raw[14..34] == b && (forall i :: 14 <= i < 34 ==> raw[i] == b[i - 14])
            && raw[34..] == f.rest && Be16(raw, 12) == f.etherType && raw[..12] == f.macs
  {
    hide Frame.Fixed;
    var raw, b := f.Written(), f.Fixed();
    assert raw == f.macs + (ToBig16(f.etherType) + b + f.rest);
    assert raw[12] == ToBig16(f.etherType)[0] && raw[13] == ToBig16(f.etherType)[1];
  }

  lemma FixedBytes(f: Frame)
    requires f.Fits()
    ensures var b := f.Fixed();
            && At(b, 0) == f.version * 16 + f.words && Be16(b, 2) == f.total
            && Be16(b, 6) == f.flags * 0x2000 + f.offset && b[9] == f.protocol && Be16(b, 10) == f.checksum
            && b[12..16] == f.source && b[16..20] == f.destination
  {
  }

  /** What the readers of a frame find in a written one: the fields, and nothing but the fields. */
  lemma FieldsReadBack(f: Frame)
    requires f.Fits()
    ensures var raw := f.Written();
            && EtherType(raw) == f.etherType && Ihl(raw) == 4 * f.words && At(raw, 14) / 16 == f.version
            && Be16(raw, 16) == f.total && raw[23] == f.protocol && Be16(raw, 24) == f.checksum
            && raw[26..30] == f.source && raw[30..34] == f.destination && raw[34..] == f.rest
            && (IsIpv4(raw) <==> f.etherType == 0x0800 && f.Whole())
            && (IsIpv4(raw) ==> Base(raw) == 14 + 4 * f.words && FragmentOffset(raw) == f.offset)
            && (HasPorts(raw)
                <==> IsIpv4(raw) && f.protocol in {6, 17} && 4 * f.words - 20 + 4 <= |f.rest|)
  {
    WrittenBytes(f);
    FixedBytes(f);
    var raw, b := f.Written(), f.Fixed();
    hide Frame.Written, Frame.Fixed;
    assert raw[26..30] == b[12..16] by {
      assert raw[26..30] == raw[14..34][12..16];
    }
    assert raw[30..34] == b[16..20] by {
      assert raw[30..34] == raw[14..34][16..20];
    }
    Nibbles(f.version, f.words);
    Flags(f.flags, f.offset);
  }

  lemma Nibbles(high: nat, low: nat)
    requires high < 16 && low < 16
    ensures (high * 16 + low) / 16 == high && (high * 16 + low) % 16 == low
  {
  }

  lemma Flags(flags: nat, offset: nat)
    requires flags < 8 && offset < 0x2000
    ensures (flags * 0x2000 + offset) % 0x2000 == offset
  {
  }

  /** The field that the validator blanks is the written checksum, and the rest stays. */
  lemma HeaderMatchesIff(f: Frame)
    requires f.Fits() && f.Whole() && f.etherType == 0x0800
    ensures IsIpv4(f.Written())
    ensures HeaderChecksumMatches(f.Written()) <==> f.checksum == ChecksumOf(f.BlankHeader())
  {
    FieldsReadBack(f);
    WrittenBytes(f);
    var raw, options := f.Written(), f.rest[..4 * f.words - 20];
    var header := raw[14..14 + 4 * f.words];
    hide Frame.Written, Frame.Fixed, ChecksumOf, IsIpv4, HasPorts, FragmentOffset;
    assert raw[34..14 + 4 * f.words] == raw[34..][..4 * f.words - 20];
    assert header == f.Fixed() + options;
    BlankField(f, options);
  }

  lemma BlankField(f: Frame, options: bytes)
    requires f.Fits()
    ensures Splice(f.Fixed() + options, 10, [0, 0]) == f.(checksum := 0).Fixed() + options
  {
    var b, z := f.Fixed(), f.(checksum := 0).Fixed();
    assert ToBig16(0) == [0, 0];
    assert b[..10] == z[..10] && b[12..] == z[12..] && z[10..12] == [0, 0];
    hide Frame.Fixed;
    assert (b + options)[..10] == b[..10] && (b + options)[12..] == b[12..] + options;
    assert z == z[..10] + z[10..12] + z[12..];
  }

  /**
    * Which written frames a replay lets through: those that are not IPv4, and the IPv4 frames of version 4
    * with a whole header, a total length between header and frame, four transport bytes for TCP and UDP,
    * and, when checksums count and the protocol is neither UDP nor zero, the right header checksum.
    */
  lemma WrittenIsAcceptedIff(f: Frame, verifyChecksums: bool)
    requires f.Fits()
    ensures Acceptable(f.Written(), verifyChecksums)
       <==> f.etherType != 0x0800
            || (&& f.version == 4 && f.Whole()
                && 4 * f.words <= f.total <= 20 + |f.rest|
                && (f.protocol in {6, 17} ==> 4 * f.words + 4 <= f.total)
                && (verifyChecksums && f.protocol !in {0, 17} ==> f.checksum == ChecksumOf(f.BlankHeader())))
  {
    FieldsReadBack(f);
    assert |f.Written()| == 34 + |f.rest| by { WrittenBytes(f); }
    hide Frame.Written, Frame.BlankHeader, ChecksumOf, HeaderChecksumMatches, HasPorts, FragmentOffset, IsIpv4;
    if f.Whole() && f.etherType == 0x0800 {
      HeaderMatchesIff(f);
    }
  }

  /** Frames without a fixed IPv4 header: accepted just when another type is written behind the addresses. */
  lemma HeaderlessIsAcceptedIff(macs: bytes, etherType: Word16, rest: bytes, verifyChecksums: bool)
    requires |macs| == 12 && |rest| < 20
    ensures Acceptable(macs + ToBig16(etherType) + rest, verifyChecksums) <==> etherType != 0x0800
    ensures forall k :: 0 <= k < 14 ==> !Acceptable((macs + ToBig16(etherType))[..k], verifyChecksums)
  {
    var raw, w := macs + ToBig16(etherType) + rest, ToBig16(etherType);
    assert raw[12] == w[0] && raw[13] == w[1];
  }
}
