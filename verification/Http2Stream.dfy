// HTTP/2 frames read from a reassembled stream: the connection preface of section 3.5
// and the frame header of section 4.1 of RFC 7540.
module Http2Stream {
  import opened Wrappers
  import opened Bytes
  import opened Framing
  import opened Lists

  const MAX_FRAME := 0x10_0000

  /** `PRI * HTTP/2.0`, an empty line, `SM`, an empty line. */
  const PREFACE: bytes := [
    80, 82, 73, 32, 42, 32, 72, 84, 84, 80, 47, 50, 46, 48, 13, 10, 13, 10, 83, 77, 13, 10, 13, 10]

  type Word32 = x: int | 0 <= x < 0x1_0000_0000

  /** A whole frame on the wire; `word` is the stream id with its reserved top bit. */
  datatype Frame = Frame(kind: byte, flags: byte, word: Word32, payload: bytes)

  /** What the parser reports of a frame. */
  datatype FrameInfo = FrameInfo(kind: byte, length: nat, flags: byte, streamId: nat)

  function Info(f: Frame): FrameInfo { FrameInfo(f.kind, |f.payload|, f.flags, f.word % 0x8000_0000) }

  /** A frame of a stream is reported with the stream's id, whether or not the reserved bit is set. */
  lemma ReservedBitIsIgnored(kind: byte, flags: byte, streamId: nat, payload: bytes)
    requires streamId < 0x8000_0000
    ensures Info(Frame(kind, flags, streamId, payload)) == FrameInfo(kind, |payload|, flags, streamId)
    ensures Info(Frame(kind, flags, 0x8000_0000 + streamId, payload)) == FrameInfo(kind, |payload|, flags, streamId)
  {
  }

  function Infos(fs: seq<Frame>): seq<FrameInfo> {
    if fs == [] then [] else [Info(fs[0])] + Infos(fs[1..])
  }

  function Be24(data: bytes, off: nat): (v: nat)
    requires off + 3 <= |data|
    ensures v < 0x100_0000
  {
    At(data, off) * 0x1_0000 + At(data, off + 1) * 0x100 + At(data, off + 2)
  }

  function Be32(data: bytes, off: nat): Word32
    requires off + 4 <= |data|
  {
    At(data, off) * 0x100_0000 + Be24(data, off + 1)
  }

  function ToBig32(v: Word32): bytes {
    [v / 0x100_0000] + ToBig24(v % 0x100_0000)
  }

  /** The first whole frame; None on a partial frame and, for good, on an oversized one. */
  function NextFrame(buf: bytes): Option<(Frame, nat)> {
    if |buf| < 9 then None
    else
      var length := Be24(buf, 0);
      if length > MAX_FRAME || |buf| < 9 + length then None
      else Some((Frame(buf[3], buf[4], Be32(buf, 5), buf[9..9 + length]), 9 + length))
  }

  function Fits(): Frame -> bool { (f: Frame) => |f.payload| <= MAX_FRAME }

  function Serialize(): Frame -> bytes {
    (f: Frame) =>
      if |f.payload| <= MAX_FRAME then ToBig24(|f.payload|) + [f.kind, f.flags] + ToBig32(f.word) + f.payload else []
  }

  lemma FramesProgress()
    ensures Progresses(NextFrame)
  {
  }

  lemma FramesArePrefixStable()
    ensures PrefixStable(NextFrame)
  {
    forall a: bytes, b: bytes | NextFrame(a).Some? ensures NextFrame(a + b) == NextFrame(a) {
      var size := 9 + Be24(a, 0);
      assert (a + b)[9..size] == a[9..size];
    }
  }

  lemma HeaderReadsBack(f: Frame, tail: bytes)
    requires Fits()(f)
    ensures var buf := Serialize()(f) + tail;
            && |buf| >= 9 && Be24(buf, 0) == |f.payload| && buf[3] == f.kind && buf[4] == f.flags
            && Be32(buf, 5) == f.word
            && buf[9..9 + |f.payload|] == f.payload && |Serialize()(f)| == 9 + |f.payload|
  {
    var head := ToBig24(|f.payload|) + [f.kind, f.flags] + ToBig32(f.word);
    var buf := Serialize()(f) + tail;
    assert |head| == 9 && buf[..9] == head;
    assert forall i :: 0 <= i < 9 ==> buf[i] == head[i];
  }

  lemma FramesReadBack()
    ensures ReadsBack(NextFrame, Serialize(), Fits())
  {
    forall f: Frame, tail: bytes | Fits()(f)
      ensures NextFrame(Serialize()(f) + tail) == Some((f, |Serialize()(f)|))
    {
      HeaderReadsBack(f, tail);
    }
  }

  lemma LengthFromBytes(b: bytes, off: nat)
    requires off + 3 <= |b|
    ensures ToBig24(Be24(b, off)) == b[off..off + 3]
  {
    var v := Be24(b, off);
    assert v / 65536 == At(b, off) && v / 256 == At(b, off) * 256 + At(b, off + 1) && v % 256 == At(b, off + 2);
  }

  lemma WordFromBytes(b: bytes, off: nat)
    requires off + 4 <= |b|
    ensures ToBig32(Be32(b, off)) == b[off..off + 4]
  {
    LengthFromBytes(b, off + 1);
    var v := Be32(b, off);
    hide Be24, ToBig24;
    assert v / 0x100_0000 == At(b, off) && v % 0x100_0000 == Be24(b, off + 1);
    assert b[off..off + 4] == [b[off]] + b[off + 1..off + 4];
  }

  lemma FramesReadOnlyEncodings()
    ensures ReadsOnlyEncodings(NextFrame, Serialize(), Fits())
  {
    forall b | NextFrame(b).Some?
      ensures var (f, n) := NextFrame(b).value; 0 < n <= |b| && Fits()(f) && Serialize()(f) == b[..n]
    {
      var (f, n) := NextFrame(b).value;
      WordFromBytes(b, 5);
      LengthFromBytes(b, 0);
      hide ToBig32, ToBig24, Be32, Be24;
      assert b[0..3] + [b[3], b[4]] + b[5..9] + b[9..n] == b[..n];
    }
  }

  // ------------------------------------------------------------ the parser

  datatype SessionState = SessionState(prefaceOk: bool, buf: bytes)

  function Frames(buf: bytes): Framed<Frame> {
    FramesProgress();
    Extract(NextFrame, buf)
  }

  /** One call of `feed`: nothing before the preface and one frame header; then every whole frame. */
  function FeedStep(s: SessionState, data: bytes): (SessionState, seq<Frame>) {
    var all := s.buf + data;
    if s.prefaceOk then
      var f := Frames(all);
      (SessionState(true, f.rest), f.items)
    else if |all| >= |PREFACE| + 9 && all[..|PREFACE|] == PREFACE then
      var f := Frames(all[|PREFACE|..]);
      (SessionState(true, f.rest), f.items)
    else (SessionState(false, all), [])
  }

  lemma {:induction false} InfosAppend(a: seq<Frame>, b: seq<Frame>)
    ensures Infos(a + b) == Infos(a) + Infos(b)
    decreases |a|
  {
    hide Info;
    if a == [] {
      assert a + b == b;
    } else {
      InfosAppend(a[1..], b);
      assert (a + b)[1..] == a[1..] + b;
      Reassociate([Info(a[0])], Infos(a[1..]), Infos(b));
    }
  }

  lemma OneMoreInfo(fs: seq<Frame>, f: Frame)
    ensures Infos(fs + [f]) == Infos(fs) + [Info(f)]
  {
    InfosAppend(fs, [f]);
    assert [f][1..] == [] && Infos([f]) == [Info(f)];
    hide Info;
  }

  lemma NoInfos()
    ensures Infos([]) == []
  {
  }

  lemma FramesStep(buf: bytes)
    requires NextFrame(buf).Some?
    ensures var (r, n) := NextFrame(buf).value;
            var f := Frames(buf[n..]);
            Frames(buf) == Framed([r] + f.items, f.rest)
  {
  }

  lemma FramesStuck(buf: bytes)
    requires NextFrame(buf).None?
    ensures Frames(buf) == Framed([], buf)
  {
  }

  class Http2Parser {
    var buf: bytes
    var frames: seq<FrameInfo>
    var prefaceOk: bool

    ghost function State(): SessionState
      reads this
    {
      SessionState(prefaceOk, buf)
    }

    constructor ()
      ensures State() == SessionState(false, []) && frames == []
    {
      buf, frames, prefaceOk := [], [], false;
    }

    method Feed(data: bytes) returns (out: seq<FrameInfo>)
      modifies this
      ensures State() == FeedStep(old(State()), data).0
      ensures out == Infos(FeedStep(old(State()), data).1) && frames == old(frames) + out
    {
      hide Frames, Infos;
      NoInfos();
      buf := buf + data;
      out := [];
      if !prefaceOk {
        if |buf| >= |PREFACE| + 9 {
          if buf[..|PREFACE|] != PREFACE {
            return;
          }
          prefaceOk := true;
          buf := buf[|PREFACE|..];
        } else {
          return;
        }
      }
      ghost var whole, taken: seq<Frame> := Frames(buf), [];
      while |buf| >= 9
        invariant prefaceOk
        invariant var f := Frames(buf); whole == Framed(taken + f.items, f.rest)
        invariant out == Infos(taken) && frames == old(frames) + out
        decreases |buf|
      {
        var length := Be24(buf, 0);
        var kind, flags, streamId := buf[3], buf[4], Be32(buf, 5) % 0x8000_0000;
        if length > MAX_FRAME {
          FramesStuck(buf);
          assert taken + [] == taken;
          return;
        }
        if |buf| < 9 + length {
          break;
        }
        FramesStep(buf);
        ghost var f := NextFrame(buf).value.0;
        OneMoreInfo(taken, f);
        Reassociate(taken, [f], Frames(buf[9 + length..]).items);
        taken := taken + [f];
        buf := buf[9 + length..];
        var frame := FrameInfo(kind, length, flags, streamId);
        out := out + [frame];
        frames := frames + [frame];
      }
      FramesStuck(buf);
      assert taken + [] == taken;
    }
  }

  // ------------------------------------------------------------ what the parser promises

  /** Feeding a and then b, preface included, is feeding a + b: same frames, same state. */
  lemma Http2CutDoesNotMatter(s: SessionState, a: bytes, b: bytes)
    ensures var (s1, first) := FeedStep(s, a);
            var (s2, second) := FeedStep(s1, b);
            FeedStep(s, a + b) == (s2, first + second)
  {
    FramesProgress();
    FramesArePrefixStable();
    hide Progresses, PrefixStable, Extract;
    var all := s.buf + a;
    assert s.buf + (a + b) == all + b;
    if s.prefaceOk {
      ExtractTwice(NextFrame, all, b);
    } else if |all| >= |PREFACE| + 9 {
      assert (all + b)[..|PREFACE|] == all[..|PREFACE|];
      assert (all + b)[|PREFACE|..] == all[|PREFACE|..] + b;
      if all[..|PREFACE|] == PREFACE {
        ExtractTwice(NextFrame, all[|PREFACE|..], b);
      }
    } else {
      assert [] + FeedStep(SessionState(false, all), b).1 == FeedStep(SessionState(false, all), b).1;
    }
  }

  lemma SplitAfter(head: bytes, wire: bytes, tail: bytes)
    ensures var all := [] + (head + wire + tail);
            all[..|head|] == head && all[|head|..] == wire + tail && |all| == |head| + |wire| + |tail|
  {
  }

  lemma WireIsAFrameLong(fs: seq<Frame>)
    requires fs != [] && Fits()(fs[0])
    ensures |Encoded(Serialize(), fs)| >= 9
  {
    HeaderReadsBack(fs[0], []);
  }

  function Wire(fs: seq<Frame>): bytes { Encoded(Serialize(), fs) }

  lemma NoFramesInNothing()
    ensures Frames([]).items == []
  {
    FramesProgress();
  }

  /** After the preface, serialised frames come back one for one, whatever follows them. */
  lemma Http2FramesComeBack(fs: seq<Frame>, tail: bytes)
    requires fs != [] && forall f :: f in fs ==> Fits()(f)
    ensures FeedStep(SessionState(false, []), PREFACE + Encoded(Serialize(), fs) + tail)
         == (SessionState(true, Frames(tail).rest), fs + Frames(tail).items)
  {
    FramesProgress();
    FramesReadBack();
    EncodedItemsComeBack(NextFrame, Serialize(), Fits(), fs, tail);
    WireIsAFrameLong(fs);
    hide ReadsBack, Progresses, Extract, Encoded, PREFACE;
    SplitAfter(PREFACE, Encoded(Serialize(), fs), tail);
  }
}
