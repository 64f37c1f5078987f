// One direction of a TCP byte stream over 32-bit sequence numbers
// (serial arithmetic of section 3.2 of RFC 1982).
module Reassembly {
  import opened Wrappers
  import opened Bytes
  import opened Lists

  const REORDER_LIMIT := 64

  type Seq32 = x: int | 0 <= x < 0x1_0000_0000

  /** How far `b` lies after `a` on the sequence circle: `(b - a) & 0xFFFFFFFF`. */
  function Ahead(a: int, b: int): Seq32 { (b - a) % 0x1_0000_0000 }

  predicate SeqLt(a: Seq32, b: Seq32) { Ahead(b, a) > 0x7FFF_FFFF }

  predicate SeqGt(a: Seq32, b: Seq32) { Ahead(a, b) > 0x7FFF_FFFF }

  predicate SeqLe(a: Seq32, b: Seq32) { a == b || SeqLt(a, b) }

  predicate SeqGe(a: Seq32, b: Seq32) { a == b || SeqGt(a, b) }

  function SeqAdd(a: Seq32, delta: int): Seq32 { (a + delta) % 0x1_0000_0000 }

  datatype Segment = Segment(start: Seq32, data: bytes, ts: real) {
    function End(): Seq32 { SeqAdd(start, |data|) }
  }

  /** What an issue reports; the numbers are the ones its detail text prints. */
  datatype Finding =
    | Retransmission(resent: nat)
    | Overlap(known: nat, added: nat)
    | Gap(missing: nat)
    | FlushGap(missing: nat)

  datatype Issue = Issue(finding: Finding, at: Seq32, ts: real)

  datatype StreamOutput = StreamOutput(data: bytes, issue: Option<Issue>, synced: bool)

  const NO_OUTPUT := StreamOutput([], None, false)

  datatype StreamState = StreamState(
    base: Option<Seq32>,
    next: Option<Seq32>,
    buffer: seq<Segment>,
    synced: bool,
    issues: seq<Issue>,
    bytesWritten: nat,
    segments: nat,
    gaps: nat,
    retransmissions: nat,
    overlaps: nat)

  function Fresh(base: Option<Seq32>): StreamState {
    StreamState(base, None, [], false, [], 0, 0, 0, 0, 0)
  }

  /** The order of the buffer sort: nearest after `nxt` first. */
  function NearestAfter(nxt: Seq32): (Segment, Segment) -> bool {
    (a: Segment, b: Segment) => Ahead(nxt, a.start) <= Ahead(nxt, b.start)
  }

  // ------------------------------------------------------------ specification

  /** Progress of one pass over buffered segments: bytes emitted, position reached, segments kept. */
  datatype Pass = Pass(data: bytes, next: Seq32, keep: seq<Segment>) {
    /** One segment of a drain: emit what lies at or beyond `next`, keep what lies ahead, drop the rest. */
    function Take(seg: Segment): Pass {
      if SeqLe(seg.start, next) then
        if SeqGt(seg.End(), next) then
          Pass(data + DropFirst(seg.data, Ahead(seg.start, next)), seg.End(), keep)
        else this
      else Pass(data, next, keep + [seg])
    }
  }

  function Absorb(p: Pass, segs: seq<Segment>): Pass
    decreases |segs|
  {
    if segs == [] then p else Absorb(p.Take(segs[0]), segs[1..])
  }

  datatype Drained = Drained(data: bytes, next: Seq32, buffer: seq<Segment>, gap: Option<Issue>)

  function Drain(head: bytes, buffer: seq<Segment>, nxt: Seq32, ts: real): Drained {
    var sorted := Sort(NearestAfter(nxt), buffer);
    if sorted != [] && SeqGt(sorted[0].start, nxt) then
      if |sorted| < 2 && |sorted| < REORDER_LIMIT then Drained(head, nxt, sorted, None)
      else
        var p := Absorb(Pass(head, sorted[0].start, []), sorted);
        Drained(p.data, p.next, p.keep, Some(Issue(Gap(Ahead(nxt, sorted[0].start)), nxt, ts)))
    else
      var p := Absorb(Pass(head, nxt, []), sorted);
      Drained(p.data, p.next, p.keep, None)
  }

  /** Where a data segment leaves the stream: position, buffer, counter increments and findings. */
  datatype Fed = Fed(next: Seq32, buffer: seq<Segment>, gaps: nat, retransmissions: nat, overlaps: nat,
                     data: bytes, issue: Option<Issue>)

  function Classify(nxt: Seq32, buffer: seq<Segment>, seg: Segment, ts: real): Fed {
    if SeqLt(seg.start, nxt) then
      var known := Ahead(seg.start, nxt);
      var added := DropFirst(seg.data, known);
      if added == [] then
        Fed(nxt, buffer, 0, 1, 0, [], Some(Issue(Retransmission(|seg.data|), seg.start, ts)))
      else
        Fed(seg.End(), buffer, 0, 0, 1, added, Some(Issue(Overlap(known, |added|), seg.start, ts)))
    else
      var d := if SeqGt(seg.start, nxt) then Drain([], buffer + [seg], nxt, ts)
               else Drain(seg.data, buffer, seg.End(), ts);
      Fed(d.next, d.buffer, if d.gap.Some? then 1 else 0, 0, 0, d.data, d.gap)
  }

  function Noted(issues: seq<Issue>, issue: Option<Issue>): seq<Issue> {
    if issue.Some? then issues + [issue.value] else issues
  }

  /** One call of `feed`: the new state and the returned output. */
  function FeedStep(s: StreamState, start: Seq32, data: bytes, ts: real): (StreamState, StreamOutput) {
    var base := if s.base.None? then Some(start) else s.base;
    if data == [] then (s.(base := base), NO_OUTPUT)
    else
      var f := Classify(if s.next.None? then start else s.next.value, s.buffer, Segment(start, data, ts), ts);
      (StreamState(base, Some(f.next), f.buffer, true, Noted(s.issues, f.issue), s.bytesWritten + |f.data|,
       s.segments + 1, s.gaps + f.gaps, s.retransmissions + f.retransmissions, s.overlaps + f.overlaps),
       StreamOutput(f.data, f.issue, true))
  }

  /** Progress of a flush; the issue is the last gap's. */
  datatype Flushed = Flushed(data: bytes, next: Seq32, gaps: nat, issue: Option<Issue>) {
    /** One segment of a flush: declare the hole before it, if any, then emit what is new. */
    function Take(seg: Segment): Flushed {
      var f := if SeqGt(seg.start, next) then
                 this.(issue := Some(Issue(FlushGap(Ahead(next, seg.start)), next, seg.ts)),
                 gaps := gaps + 1, next := seg.start)
               else this;
      if SeqGe(seg.End(), f.next) then
        f.(data := data + DropFirst(seg.data, Ahead(seg.start, f.next)), next := seg.End())
      else f
    }
  }

  function FlushAll(f: Flushed, segs: seq<Segment>): Flushed
    decreases |segs|
  {
    if segs == [] then f else FlushAll(f.Take(segs[0]), segs[1..])
  }

  function FlushStep(s: StreamState): (StreamState, StreamOutput) {
    if s.buffer == [] then (s, NO_OUTPUT)
    else
      var nxt := if s.next.Some? then s.next.value else s.buffer[0].start;
      var f := FlushAll(Flushed([], nxt, 0, None), Sort(NearestAfter(nxt), s.buffer));
      (s.(next := Some(f.next), buffer := [], gaps := s.gaps + f.gaps, bytesWritten := s.bytesWritten + |f.data|,
       issues := Noted(s.issues, f.issue)),
       StreamOutput(f.data, f.issue, false))
  }

  lemma FlushTakes(f: Flushed, segs: seq<Segment>, i: nat)
    requires i < |segs|
    ensures FlushAll(f, segs[i..]) == FlushAll(f.Take(segs[i]), segs[i + 1..])
  {
    hide SeqGt, SeqGe, Ahead, SeqAdd;
    assert segs[i..][1..] == segs[i + 1..];
  }

  lemma FlushEnds(f: Flushed, segs: seq<Segment>)
    requires segs == []
    ensures FlushAll(f, segs) == f
  {
  }

  lemma NothingFed(s: StreamState, start: Seq32, ts: real)
    ensures FeedStep(s, start, [], ts) == (s.(base := if s.base.None? then Some(start) else s.base), NO_OUTPUT)
  {
  }

  lemma DataFed(s: StreamState, start: Seq32, data: bytes, ts: real)
    requires data != []
    ensures var f := Classify(if s.next.None? then start else s.next.value, s.buffer, Segment(start, data, ts), ts);
            FeedStep(s, start, data, ts)
            == (StreamState(if s.base.None? then Some(start) else s.base, Some(f.next), f.buffer, true,
                if f.issue.Some? then s.issues + [f.issue.value] else s.issues, s.bytesWritten + |f.data|,
                s.segments + 1, s.gaps + f.gaps, s.retransmissions + f.retransmissions,
                s.overlaps + f.overlaps),
                StreamOutput(f.data, f.issue, true))
  {
    hide Classify;
  }

  // ------------------------------------------------------------ the machine

  class TcpStream {
    var base: Option<Seq32>
    var next: Option<Seq32>
    var buffer: seq<Segment>
    var synced: bool
    var issues: seq<Issue>
    var bytesWritten: nat
    var segments: nat
    var gaps: nat
    var retransmissions: nat
    var overlaps: nat

    ghost function State(): StreamState
      reads this
    {
      StreamState(base, next, buffer, synced, issues, bytesWritten, segments, gaps, retransmissions, overlaps)
    }

    constructor (baseSeq: Option<Seq32>)
      ensures State() == Fresh(baseSeq)
    {
      base, next, buffer, synced, issues := baseSeq, None, [], false, [];
      bytesWritten, segments, gaps, retransmissions, overlaps := 0, 0, 0, 0, 0;
    }

    method Feed(start: Seq32, data: bytes, ts: real) returns (o: StreamOutput)
      modifies this
      ensures State() == FeedStep(old(State()), start, data, ts).0
      ensures o == FeedStep(old(State()), start, data, ts).1
    {
      hide *;
      ghost var before := State();
      StateIs();
      NothingFed(before, start, ts);
      if data != [] {
        synced := true;
      } else {
        if base.None? {
          base := Some(start);
        }
        StateIs();
        return NO_OUTPUT;
      }
      if base.None? {
        base := Some(start);
      }
      if next.None? {
        next := Some(start);
      }
      segments := segments + 1;
      var out, issue := Place(Segment(start, data, ts), ts);
      if out != [] {
        bytesWritten := bytesWritten + |out|;
      }
      if issue.Some? {
        issues := issues + [issue.value];
      }
      o := StreamOutput(out, issue, synced);
      DataFed(before, start, data, ts);
      StateIs();
    }

    lemma StateIs()
      ensures State() == StreamState(base, next, buffer, synced, issues, bytesWritten, segments, gaps,
                                     retransmissions, overlaps)
    {
    }

    /** The three-way branch of `feed` on where the segment starts. */
    method Place(seg: Segment, ts: real) returns (out: bytes, issue: Option<Issue>)
      requires next.Some?
      modifies this`next, this`buffer, this`gaps, this`retransmissions, this`overlaps
      ensures var f := Classify(old(next).value, old(buffer), seg, ts);
              && next == Some(f.next) && buffer == f.buffer && gaps == old(gaps) + f.gaps
              && retransmissions == old(retransmissions) + f.retransmissions
              && overlaps == old(overlaps) + f.overlaps && out == f.data && issue == f.issue
    {
      hide Drain, Sort, Ahead;
      out, issue := [], None;
      if SeqLt(seg.start, next.value) {
        var known := Ahead(seg.start, next.value);
        var suffix := DropFirst(seg.data, known);
        if suffix == [] {
          retransmissions := retransmissions + 1;
          issue := Some(Issue(Retransmission(|seg.data|), seg.start, ts));
        } else {
          overlaps := overlaps + 1;
          issue := Some(Issue(Overlap(known, |suffix|), seg.start, ts));
          out := out + suffix;
          assert out == suffix;
          next := Some(seg.End());
        }
      } else if SeqGt(seg.start, next.value) {
        buffer := buffer + [seg];
        out, issue := DrainInto(out, ts);
      } else {
        out := out + seg.data;
        assert out == seg.data;
        next := Some(seg.End());
        out, issue := DrainInto(out, ts);
      }
    }

    method DrainInto(head: bytes, ts: real) returns (out: bytes, issue: Option<Issue>)
      requires next.Some?
      modifies this`next, this`buffer, this`gaps
      ensures var d := Drain(head, old(buffer), old(next).value, ts);
              && out == d.data && next == Some(d.next) && buffer == d.buffer && issue == d.gap
              && gaps == old(gaps) + if d.gap.Some? then 1 else 0
    {
      hide Ahead, SeqAdd, SeqGt, SeqLe, Sort;
      out, issue := head, None;
      var nxt: Seq32 := next.value;
      buffer := Sort(NearestAfter(nxt), buffer);
      if buffer != [] && SeqGt(buffer[0].start, nxt) {
        if |buffer| < 2 && |buffer| < REORDER_LIMIT {
          return;
        }
        issue := Some(Issue(Gap(Ahead(nxt, buffer[0].start)), nxt, ts));
        gaps := gaps + 1;
        nxt := buffer[0].start;
      }
      var keep: seq<Segment> := [];
      ghost var sorted, whole := buffer, Absorb(Pass(out, nxt, []), buffer);
      for i := 0 to |buffer|
        invariant buffer == sorted
        invariant whole == Absorb(Pass(out, nxt, keep), sorted[i..])
      {
        var seg := buffer[i];
        assert sorted[i..][1..] == sorted[i + 1..];
        if SeqLe(seg.start, nxt) {
          if SeqGt(seg.End(), nxt) {
            out := out + DropFirst(seg.data, Ahead(seg.start, nxt));
            nxt := seg.End();
          }
        } else {
          keep := keep + [seg];
        }
      }
      next := Some(nxt);
      buffer := keep;
    }

    method Flush() returns (o: StreamOutput)
      modifies this
      ensures State() == FlushStep(old(State())).0
      ensures o == FlushStep(old(State())).1
    {
      hide Ahead, SeqAdd, SeqGt, SeqGe, Sort, FlushAll;
      if buffer == [] {
        return NO_OUTPUT;
      }
      var nxt: Seq32 := if next.Some? then next.value else buffer[0].start;
      buffer := Sort(NearestAfter(nxt), buffer);
      var out: bytes, issue: Option<Issue> := [], None;
      ghost var sorted, before, nxt0 := buffer, gaps, nxt;
      for i := 0 to |buffer|
        modifies this`gaps
        invariant gaps >= before
        invariant FlushAll(Flushed([], nxt0, 0, None), sorted)
               == FlushAll(Flushed(out, nxt, gaps - before, issue), sorted[i..])
      {
        var seg := buffer[i];
        FlushTakes(Flushed(out, nxt, gaps - before, issue), sorted, i);
        if SeqGt(seg.start, nxt) {
          issue := Some(Issue(FlushGap(Ahead(nxt, seg.start)), nxt, seg.ts));
          gaps := gaps + 1;
          nxt := seg.start;
        }
        if SeqGe(seg.End(), nxt) {
          out := out + DropFirst(seg.data, Ahead(seg.start, nxt));
          nxt := seg.End();
        }
      }
      FlushEnds(Flushed(out, nxt, gaps - before, issue), sorted[|sorted|..]);
      next := Some(nxt);
      buffer := [];
      bytesWritten := bytesWritten + |out|;
      if issue.Some? {
        issues := issues + [issue.value];
      }
      o := StreamOutput(out, issue, false);
    }
  }
}
