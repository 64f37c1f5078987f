// Writing a capture as pcapng (sections 3.1 and 4 of draft-ietf-opsawg-pcapng), and a reader of it.
module Pcapng {
  import opened Wrappers
  import opened Bytes
  import opened Framing
  import opened Lists

  // ------------------------------------------------------------ little-endian fields

  /** `struct.pack("<H", v)`. */
  function Little16(v: nat): (b: bytes)
    requires v < 0x1_0000
    ensures |b| == 2
  {
    [v % 256, v / 256]
  }

  /** `struct.pack("<I", v)`. */
  function Little32(v: nat): (b: bytes)
    requires v < 0x1_0000_0000
    ensures |b| == 4
  {
    Little16(v % 0x1_0000) + Little16(v / 0x1_0000)
  }

  /** The 32-bit little-endian field at `off`. */
  function Read32(data: bytes, off: nat): (v: nat)
    requires off + 4 <= |data|
    ensures v < 0x1_0000_0000
  {
    var low := (data[off] as int) + (data[off + 1] as int) * 0x100;
    low + (data[off + 2] as int) * 0x1_0000 + (data[off + 3] as int) * 0x100_0000
  }

  /** The 16-bit little-endian field at `off`. */
  function Read16(data: bytes, off: nat): (v: nat)
    requires off + 2 <= |data|
    ensures v < 0x1_0000
  {
    (data[off] as int) + (data[off + 1] as int) * 0x100
  }

  lemma ReadsLittle32(v: nat, data: bytes, off: nat)
    requires v < 0x1_0000_0000 && off + 4 <= |data| && data[off..off + 4] == Little32(v)
    ensures Read32(data, off) == v
  {
    var b := Little32(v);
    assert data[off] == b[0] && data[off + 1] == b[1] && data[off + 2] == b[2] && data[off + 3] == b[3];
  }

  function Zeros(n: nat): (b: bytes)
    ensures |b| == n
  {
    seq(n, i requires 0 <= i < n => 0)
  }

  /** `-n % 4` in Python: how many bytes fill up to a multiple of four. */
  function Pad(n: nat): (p: nat)
    ensures p < 4 && (n + p) % 4 == 0
  {
    var length: int := n;
    -length % 4
  }

  function Padded(data: bytes): (b: bytes)
    ensures |b| % 4 == 0
  {
    data + Zeros(Pad(|data|))
  }

  // ------------------------------------------------------------ writing

  datatype PcapngError = FieldOverflow(length: nat)

  /** A block as it lies in a file; the body is already filled up. */
  datatype Block = Block(kind: nat, body: bytes)

  function Fits(): Block -> bool {
    (b: Block) => b.kind < 0x1_0000_0000 && |b.body| % 4 == 0 && 12 + |b.body| < 0x1_0000_0000
  }

  /** A block on file: type, length, body, length again. */
  function Encode(): Block -> bytes {
    (b: Block) =>
      if b.kind < 0x1_0000_0000 && 12 + |b.body| < 0x1_0000_0000
      then Little32(b.kind) + Little32(12 + |b.body|) + b.body + Little32(12 + |b.body|)
      else []
  }

  const SECTION_HEADER := 0x0A0D_0D0A
  const INTERFACE := 1
  const ENHANCED_PACKET := 6
  const SNAPLEN := 65535

  datatype Packet = Packet(micros: int, raw: bytes)

  /** Byte order magic, version 1.0, unknown section length. */
  function SectionBody(): bytes {
    Little32(0x1A2B_3C4D) + Little16(1) + Little16(0) + [255, 255, 255, 255, 255, 255, 255, 255]
  }

  /** Ethernet, no options. */
  function InterfaceBody(): bytes { Little16(1) + Little16(0) + Little32(SNAPLEN) }

  /** The timestamp's two words, taken modulo 2^64, the captured and original length, the filled-up frame. */
  function PacketBody(p: Packet): bytes
    requires |p.raw| < 0x1_0000_0000
  {
    Little32(0) + Little32(p.micros / 0x1_0000_0000 % 0x1_0000_0000) + Little32(p.micros % 0x1_0000_0000)
    + Little32(|p.raw|) + Little32(|p.raw|) + Padded(p.raw)
  }

  /** Filling up appends fewer than four zero bytes. */
  lemma PaddingIsZeros(data: bytes)
    ensures var b := Padded(data); b[..|data|] == data && |b| - |data| < 4 && |b| % 4 == 0
    ensures forall i :: |data| <= i < |Padded(data)| ==> Padded(data)[i] == 0
  {
  }

  /** Every length field of the packet's block has 32 bits. */
  predicate Writable(p: Packet) { 32 + |p.raw| + Pad(|p.raw|) < 0x1_0000_0000 }

  function PacketBlock(p: Packet): Block
    requires Writable(p)
  {
    Block(ENHANCED_PACKET, PacketBody(p))
  }

  function PacketBlocks(packets: seq<Packet>): seq<Block>
    requires forall p :: p in packets ==> Writable(p)
  {
    seq(|packets|, i requires 0 <= i < |packets| => PacketBlock(packets[i]))
  }

  function FileBlocks(packets: seq<Packet>): seq<Block>
    requires forall p :: p in packets ==> Writable(p)
  {
    [Block(SECTION_HEADER, SectionBody()), Block(INTERFACE, InterfaceBody())] + PacketBlocks(packets)
  }

  method PcapngBlock(kind: nat, body: bytes) returns (r: Result<bytes, PcapngError>)
    requires kind < 0x1_0000_0000
    ensures r == if 12 + |Padded(body)| < 0x1_0000_0000 then Ok(Encode()(Block(kind, Padded(body))))
                 else Err(FieldOverflow(12 + |Padded(body)|))
  {
    var pad := Pad(|body|);
    var filled := body + Zeros(pad);
    var total := 12 + |filled|;
    if total >= 0x1_0000_0000 {
      return Err(FieldOverflow(total));
    }
    return Ok(Little32(kind) + Little32(total) + filled + Little32(total));
  }

  lemma AlreadyPadded(body: bytes)
    requires |body| % 4 == 0
    ensures Padded(body) == body
  {
    assert Pad(|body|) == 0;
  }

  /** The whole file; refused at the first packet whose block does not fit its length fields. */
  method ExportPcapng(packets: seq<Packet>) returns (r: Result<bytes, PcapngError>, count: nat)
    ensures r.Ok? <==> forall p :: p in packets ==> Writable(p)
    ensures r.Ok? ==> count == |packets| && r.value == Encoded(Encode(), FileBlocks(packets))
  {
    hide Little16, Little32, Encode, Padded, Encoded, Pad;
    count := 0;
    HeaderBodies();
    AlreadyPadded(SectionBody());
    AlreadyPadded(InterfaceBody());
    var section := PcapngBlock(SECTION_HEADER, SectionBody());
    var header := PcapngBlock(INTERFACE, InterfaceBody());
    var file := section.value + header.value;
    TwoBlocks(Block(SECTION_HEADER, SectionBody()), Block(INTERFACE, InterfaceBody()));
    assert PacketBlocks([]) == [] && packets[..0] == [];
    while count < |packets|
      invariant count <= |packets| && forall p :: p in packets[..count] ==> Writable(p)
      invariant file == Encoded(Encode(), FileBlocks(packets[..count]))
    {
      var p := packets[count];
      assert p in packets && packets[..count + 1] == packets[..count] + [p];
      if |p.raw| >= 0x1_0000_0000 {
        assert !Writable(p);
        return Err(FieldOverflow(|p.raw|)), count;
      }
      PacketBodyShape(p);
      AlreadyPadded(PacketBody(p));
      var block := PcapngBlock(ENHANCED_PACKET, PacketBody(p));
      if block.Err? {
        return Err(block.error), count;
      }
      OneMoreBlock(packets[..count], p);
      file := file + block.value;
      count := count + 1;
    }
    assert packets[..count] == packets;
    return Ok(file), count;
  }

  lemma HeaderBodies()
    ensures |SectionBody()| == 16 && |InterfaceBody()| == 8
  {
  }

  lemma PacketBodyShape(p: Packet)
    requires |p.raw| < 0x1_0000_0000
    ensures |PacketBody(p)| == 20 + |p.raw| + Pad(|p.raw|) && |PacketBody(p)| % 4 == 0
  {
    hide Little32, Zeros, Pad;
  }

  lemma TwoBlocks(a: Block, b: Block)
    ensures Encode()(a) + Encode()(b) == Encoded(Encode(), [a, b] + [])
  {
    hide Encode;
    assert [a, b] + [] == [a, b] && [a, b][1..] == [b] && [b][1..] == [];
    assert Encoded(Encode(), [b]) == Encode()(b) + [];
  }

  lemma {:induction false} EncodedAppends(blocks: seq<Block>, last: Block)
    ensures Encoded(Encode(), blocks + [last]) == Encoded(Encode(), blocks) + Encode()(last)
  {
    hide Encode;
    if blocks == [] {
      assert [] + [last] == [last] && [last][1..] == [];
      assert Encode()(last) + [] == Encode()(last) && [] + Encode()(last) == Encode()(last);
    } else {
      EncodedAppends(blocks[1..], last);
      assert (blocks + [last])[1..] == blocks[1..] + [last];
      Reassociate(Encode()(blocks[0]), Encoded(Encode(), blocks[1..]), Encode()(last));
    }
  }

  lemma OneMoreBlock(packets: seq<Packet>, p: Packet)
    requires (forall q :: q in packets ==> Writable(q)) && Writable(p)
    ensures Encoded(Encode(), FileBlocks(packets + [p])) == Encoded(Encode(),
                                                                    FileBlocks(packets)) + Encode()(PacketBlock(p))
  {
    hide Encode, Encoded, PacketBlock;
    EncodedAppends(FileBlocks(packets), PacketBlock(p));
    assert FileBlocks(packets + [p]) == FileBlocks(packets) + [PacketBlock(p)];
  }

  // ------------------------------------------------------------ reading

  /** A well-formed block at the front of a file, by its leading length. */
  function FirstBlock(data: bytes): Option<(Block, nat)> {
    if |data| < 12 then None
    else
      var total := Read32(data, 4);
      if total < 12 || total % 4 != 0 || total > |data| || Read32(data, total - 4) != total then None
      else Some((Block(Read32(data, 0), data[8..total - 4]), total))
  }

  /** A well-formed block at the back of a file, by its trailing length. */
  function LastBlock(data: bytes): Option<(Block, nat)> {
    if |data| < 12 then None
    else
      var total := Read32(data, |data| - 4);
      if total < 12 || total % 4 != 0 || total > |data| || Read32(data, |data| - total + 4) != total then None
      else Some((Block(Read32(data, |data| - total), data[|data| - total + 8..|data| - 4]), total))
  }

  /** The blocks of a file walked backwards, in file order, and what is left in front of them. */
  function WalkBack(data: bytes): Framed<Block>
    decreases |data|
  {
    match LastBlock(data)
    case None => Framed([], data)
    case Some((b, n)) =>
      var f := WalkBack(data[..|data| - n]);
      Framed(f.items + [b], f.rest)
  }

  /** What an enhanced packet block says: its interface, the frame and its time, and how long the frame was. */
  datatype PacketRead = PacketRead(interfaceId: nat, packet: Packet, originalLength: nat)

  function ReadPacket(b: Block): Option<PacketRead> {
    if b.kind != ENHANCED_PACKET || |b.body| < 20 || 20 + Read32(b.body, 12) > |b.body| then None
    else
      var micros := Read32(b.body, 4) * 0x1_0000_0000 + Read32(b.body, 8);
      var raw := b.body[20..20 + Read32(b.body, 12)];
      Some(PacketRead(Read32(b.body, 0), Packet(micros, raw), Read32(b.body, 16)))
  }

  /** What a reader must find in a block of this packet: interface zero, the frame in full length. */
  function AsRead(p: Packet): PacketRead {
    PacketRead(0, Packet(p.micros % 0x1_0000_0000_0000_0000, p.raw), |p.raw|)
  }

  /** The byte-order magic, major and minor version of a section header block. */
  function ReadSection(b: Block): Option<(nat, nat, nat)> {
    if b.kind != SECTION_HEADER || |b.body| < 16 then None
    else Some((Read32(b.body, 0), Read16(b.body, 4), Read16(b.body, 6)))
  }

  /** The link type and the snapshot length of an interface block. */
  function ReadInterface(b: Block): Option<(nat, nat)> {
    if b.kind != INTERFACE || |b.body| < 8 then None else Some((Read16(b.body, 0), Read32(b.body, 4)))
  }

  /** The first two blocks: the writer's byte order, version 1.0, one Ethernet interface with frames of up to 64 KiB. */
  lemma HeadersReadBack()
    ensures ReadSection(Block(SECTION_HEADER, SectionBody())) == Some((0x1A2B_3C4D, 1, 0))
    ensures SectionBody()[8..] == [255, 255, 255, 255, 255, 255, 255, 255]
    ensures ReadInterface(Block(INTERFACE, InterfaceBody())) == Some((1, 65535))
    ensures InterfaceBody()[2..4] == [0, 0]
    ensures Little32(SECTION_HEADER) == [0x0A, 0x0D, 0x0D, 0x0A]
  {
    HeaderBodies();
    ReadsLittle32(0x1A2B_3C4D, SectionBody(), 0);
    ReadsLittle32(SNAPLEN, InterfaceBody(), 4);
  }

  lemma FirstBlockProgresses()
    ensures Progresses(FirstBlock)
  {
  }

  lemma BlockFields(b: Block, before: bytes, after: bytes)
    requires Fits()(b)
    ensures var e := Encode()(b);
            var data := before + e + after;
            && |e| == 12 + |b.body|
            && Read32(data, |before|) == b.kind && Read32(data, |before| + 4) == |e|
            && Read32(data, |before| + |e| - 4) == |e| && data[|before| + 8..|before| + |e| - 4] == b.body
  {
    EncodeParts(b);
    hide *;
    var e := Encode()(b);
    var data, n := before + e + after, |before|;
    WithinData(before, e, after, 0, 4);
    WithinData(before, e, after, 4, 8);
    WithinData(before, e, after, 8, |e| - 4);
    WithinData(before, e, after, |e| - 4, |e|);
    ReadsLittle32(b.kind, data, n);
    ReadsLittle32(|e|, data, n + 4);
    ReadsLittle32(|e|, data, n + |e| - 4);
  }

  lemma EncodeParts(b: Block)
    requires Fits()(b)
    ensures var e := Encode()(b);
            && 12 + |b.body| == |e| < 0x1_0000_0000 && b.kind < 0x1_0000_0000
            && e[0..4] == Little32(b.kind) && e[4..8] == Little32(|e|) && e[8..|e| - 4] == b.body
            && e[|e| - 4..|e|] == Little32(|e|)
  {
    hide Little32;
  }

  lemma WithinData(before: bytes, e: bytes, after: bytes, lo: nat, hi: nat)
    requires lo <= hi <= |e|
    ensures (before + e + after)[|before| + lo..|before| + hi] == e[lo..hi]
  {
  }

  lemma BlocksReadBack()
    ensures ReadsBack(FirstBlock, Encode(), Fits())
  {
    forall b: Block, tail: bytes | Fits()(b) ensures FirstBlock(Encode()(b) + tail) == Some((b, |Encode()(b)|)) {
      FirstBlockReadsBack(b, tail);
    }
  }

  lemma FirstBlockReadsBack(b: Block, tail: bytes)
    requires Fits()(b)
    ensures FirstBlock(Encode()(b) + tail) == Some((b, |Encode()(b)|))
  {
    hide Encode, Read32;
    BlockFields(b, [], tail);
    assert [] + Encode()(b) + tail == Encode()(b) + tail;
  }

  lemma LastBlockReadsBack(before: bytes, b: Block)
    requires Fits()(b)
    ensures LastBlock(before + Encode()(b)) == Some((b, |Encode()(b)|))
  {
    hide Encode, Read32;
    BlockFields(b, before, []);
    var e := Encode()(b);
    assert before + e + [] == before + e;
    var data, n := before + e, |before|;
    assert |data| - |e| == n && |data| - 4 == n + |e| - 4;
  }

  lemma {:induction false} WalkBackVisits(blocks: seq<Block>)
    requires forall b :: b in blocks ==> Fits()(b)
    ensures WalkBack(Encoded(Encode(), blocks)) == Framed(blocks, [])
  {
    hide Encode, Fits, LastBlock;
    if blocks == [] {
      NoBlocks();
    } else {
      var init, last := blocks[..|blocks| - 1], blocks[|blocks| - 1];
      WalkBackVisits(init);
      EncodedAppends(init, last);
      assert init + [last] == blocks;
      var e := Encode()(last);
      LastBlockReadsBack(Encoded(Encode(), init), last);
      BlockFields(last, [], []);
      assert (Encoded(Encode(), init) + e)[..|Encoded(Encode(), init)|] == Encoded(Encode(), init);
    }
  }

  lemma NoBlocks()
    ensures WalkBack(Encoded(Encode(), [])) == Framed([], [])
  {
  }

  lemma FileBlocksFit(packets: seq<Packet>)
    requires forall p :: p in packets ==> Writable(p)
    ensures forall b :: b in FileBlocks(packets) ==> Fits()(b)
  {
    HeaderBodies();
    hide SectionBody, InterfaceBody, PacketBody;
    forall p | p in packets ensures Fits()(PacketBlock(p)) {
      PacketBodyShape(p);
    }
  }

  /** A reader of a packet's block gets interface zero, its frame, its time modulo the field's 64 bits, its length. */
  lemma PacketReadsBack(p: Packet)
    requires Writable(p)
    ensures ReadPacket(PacketBlock(p)) == Some(AsRead(p))
  {
    hide *;
    PacketWords(p);
    TwoWords(p.micros);
    WordsAreRead(p, PacketBody(p));
  }

  function HighWord(t: int): nat { t / 0x1_0000_0000 % 0x1_0000_0000 }

  function LowWord(t: int): nat { t % 0x1_0000_0000 }

  lemma PacketWords(p: Packet)
    requires Writable(p)
    ensures var body := PacketBody(p);
            && |body| >= 20 + |p.raw| && body[20..20 + |p.raw|] == p.raw
            && Read32(body, 0) == 0 && Read32(body, 4) == HighWord(p.micros) && Read32(body, 8) == LowWord(p.micros)
            && Read32(body, 12) == |p.raw| && Read32(body, 16) == |p.raw|
  {
    var body := PacketBody(p);
    var high, low := HighWord(p.micros), LowWord(p.micros);
    PacketBodyShape(p);
    assert body[4..8] == Little32(high) && body[8..12] == Little32(low) && body[12..16] == Little32(|p.raw|)
           && body[20..20 + |p.raw|] == p.raw && body[0..4] == Little32(0) && body[16..20] == Little32(|p.raw|);
    hide *;
    assert |p.raw| < 0x1_0000_0000 by { WritableIsShort(p); }
    ReadsLittle32(0, body, 0);
    ReadsLittle32(high, body, 4);
    ReadsLittle32(low, body, 8);
    ReadsLittle32(|p.raw|, body, 12);
    ReadsLittle32(|p.raw|, body, 16);
  }

  lemma WritableIsShort(p: Packet)
    requires Writable(p)
    ensures |p.raw| < 0x1_0000_0000
  {
  }

  lemma WordsAreRead(p: Packet, body: bytes)
    requires Writable(p) && body == PacketBody(p)
    requires |body| >= 20 + |p.raw| && body[20..20 + |p.raw|] == p.raw
    requires Read32(body, 0) == 0 && Read32(body, 4) == HighWord(p.micros) && Read32(body, 8) == LowWord(p.micros)
    requires Read32(body, 12) == |p.raw| && Read32(body, 16) == |p.raw|
    requires HighWord(p.micros) * 0x1_0000_0000 + LowWord(p.micros) == p.micros % 0x1_0000_0000_0000_0000
    ensures ReadPacket(PacketBlock(p)) == Some(AsRead(p))
  {
    hide PacketBody, Read32, HighWord, LowWord, Writable;
  }

  lemma TwoWords(t: int)
    ensures HighWord(t) * 0x1_0000_0000 + LowWord(t) == t % 0x1_0000_0000_0000_0000
  {
  }

  /**
    * The file is self-delimiting: walked forwards by leading lengths or backwards by trailing ones it
    * is the same 2 + n aligned blocks with nothing left over, and header, interface and every packet read back.
    */
  lemma FileIsSelfDelimiting(packets: seq<Packet>)
    requires forall p :: p in packets ==> Writable(p)
    ensures var file, blocks := Encoded(Encode(), FileBlocks(packets)), FileBlocks(packets);
            && Progresses(FirstBlock) && Extract(FirstBlock, file) == Framed(blocks, [])
            && WalkBack(file) == Framed(blocks, [])
            && |blocks| == 2 + |packets| && (forall b :: b in blocks ==> |Encode()(b)| % 4 == 0)
            && ReadSection(blocks[0]) == Some((0x1A2B_3C4D, 1, 0)) && ReadInterface(blocks[1]) == Some((1, 65535))
            && forall i :: 0 <= i < |packets| ==> ReadPacket(blocks[2 + i]) == Some(AsRead(packets[i]))
  {
    hide *;
    FileBlocksFit(packets);
    FirstBlockProgresses();
    BlocksReadBack();
    EncodedItemsComeBack(FirstBlock, Encode(), Fits(), FileBlocks(packets), []);
    NothingFirst();
    assert Encoded(Encode(), FileBlocks(packets)) + [] == Encoded(Encode(), FileBlocks(packets));
    assert FileBlocks(packets) + [] == FileBlocks(packets);
    WalkBackVisits(FileBlocks(packets));
    BlocksAligned(FileBlocks(packets));
    PacketsReadBack(packets);
    FirstTwo(packets);
    HeadersReadBack();
  }

  lemma FirstTwo(packets: seq<Packet>)
    requires forall p :: p in packets ==> Writable(p)
    ensures FileBlocks(packets)[0] == Block(SECTION_HEADER, SectionBody())
    ensures FileBlocks(packets)[1] == Block(INTERFACE, InterfaceBody())
  {
  }

  lemma BlocksAligned(blocks: seq<Block>)
    requires forall b :: b in blocks ==> Fits()(b)
    ensures forall b :: b in blocks ==> |Encode()(b)| % 4 == 0
  {
    hide *;
    forall b | b in blocks ensures |Encode()(b)| % 4 == 0 {
      BlockAligned(b);
    }
  }

  lemma BlockAligned(b: Block)
    requires Fits()(b)
    ensures |Encode()(b)| % 4 == 0
  {
  }

  lemma PacketsReadBack(packets: seq<Packet>)
    requires forall p :: p in packets ==> Writable(p)
    ensures |FileBlocks(packets)| == 2 + |packets|
    ensures forall i :: 0 <= i < |packets| ==>
                          ReadPacket(FileBlocks(packets)[2 + i]) == Some(AsRead(packets[i]))
  {
    hide PacketBlock, Writable, SectionBody, InterfaceBody, ReadPacket;
    forall i | 0 <= i < |packets|
      ensures ReadPacket(FileBlocks(packets)[2 + i]) == Some(AsRead(packets[i]))
    {
      assert packets[i] in packets && FileBlocks(packets)[2 + i] == PacketBlock(packets[i]);
      PacketReadsBack(packets[i]);
    }
  }

  lemma NothingFirst()
    ensures Progresses(FirstBlock) && Extract(FirstBlock, []) == Framed([], [])
  {
    FirstBlockProgresses();
  }
}
