// The reassembler over unbounded stream offsets, and the proof that the 32-bit
// machine of module Reassembly follows it across wraparound.
module ReassemblyIdeal {
  import opened Wrappers
  import opened Bytes
  import opened Lists
  import opened Reassembly

  const HALF := 0x8000_0000

  /** A received payload at its absolute stream offset. */
  datatype Piece = Piece(lo: int, data: bytes) {
    function Hi(): int { lo + |data| }

    ghost predicate Covers(k: int) { lo <= k < Hi() }

    ghost predicate SliceOf(source: bytes) {
      data != [] && 0 <= lo && Hi() <= |source| && data == source[lo..Hi()]
    }
  }

  /** Next offset to deliver, and the one piece that may wait behind a hole. */
  datatype Position = Position(next: int, held: Option<Piece>)

  datatype Verdict = Verdict(finding: Finding, at: int)

  datatype Outcome = Outcome(pos: Position, data: bytes, verdict: Option<Verdict>)

  /** `head` ends at `next`; the waiting piece follows if it now touches. */
  function Settle(head: bytes, next: int, held: Option<Piece>, verdict: Option<Verdict>): (o: Outcome)
    ensures o.verdict == verdict && head <= o.data && o.pos.next >= next
  {
    if held.None? || held.value.lo > next then Outcome(Position(next, held), head, verdict)
    else if held.value.Hi() > next then
      Outcome(Position(held.value.Hi(), None), head + held.value.data[next - held.value.lo..], verdict)
    else Outcome(Position(next, None), head, verdict)
  }

  /** The gap that skipping from `next` to x declares, if there is one. */
  function HoleBefore(next: int, x: Piece): Option<Verdict> {
    if x.lo > next then Some(Verdict(Gap(x.lo - next), next)) else None
  }

  /** One arrival, with no sorting and no modular arithmetic. */
  function Receive(p: Position, x: Piece): Outcome {
    if x.lo < p.next then
      if x.Hi() <= p.next then Outcome(p, [], Some(Verdict(Retransmission(|x.data|), x.lo)))
      else
        Outcome(Position(x.Hi(), p.held), x.data[p.next - x.lo..],
                Some(Verdict(Overlap(p.next - x.lo, x.Hi() - p.next), x.lo)))
    else if x.lo == p.next then Settle(x.data, x.Hi(), p.held, None)
    else if p.held.None? then Outcome(Position(p.next, Some(x)), [], None)
    else
      var h := p.held.value;
      var (near, far) := if p.next <= h.lo <= x.lo then (h, x) else (x, h);
      Settle(near.data, near.Hi(), Some(far), HoleBefore(p.next, near))
  }

  // ------------------------------------------------------------ simulation

  function Wrap(x: int): Seq32 { x % 0x1_0000_0000 }

  /**
    * All offsets the arrival can involve lie within 2^31 of each other; a pure retransmission involves only its
    * own start and the position.
    */
  ghost predicate Window(p: Position, x: Piece) {
    if x.Hi() <= p.next then p.next - x.lo < HALF else AllClose(p, x)
  }

  ghost predicate AllClose(p: Position, x: Piece) {
    var points := {p.next, x.lo, x.Hi()} + if p.held.Some? then {p.held.value.lo, p.held.value.Hi()} else {};
    forall a, b :: a in points && b in points ==> a - b < HALF
  }

  ghost predicate Shows(isn: int, seg: Segment, x: Piece) {
    seg.start == Wrap(isn + x.lo) && seg.data == x.data && x.data != []
  }

  /** A 32-bit position and buffer show the ideal ones, offset by the initial sequence number. */
  ghost predicate Images(isn: int, nxt: Seq32, buffer: seq<Segment>, p: Position) {
    && nxt == Wrap(isn + p.next)
    && if p.held.Some? then |buffer| == 1 && Shows(isn, buffer[0], p.held.value) else buffer == []
  }

  ghost predicate Mirrors(isn: int, s: StreamState, p: Position) {
    s.next.Some? && Images(isn, s.next.value, s.buffer, p)
  }

  function Reported(isn: int, v: Option<Verdict>, ts: real): Option<Issue> {
    if v.None? then None else Some(Issue(v.value.finding, Wrap(isn + v.value.at), ts))
  }

  lemma AheadIsDifference(isn: int, a: int, b: int)
    ensures Ahead(Wrap(isn + a), Wrap(isn + b)) == (b - a) % 0x1_0000_0000
  {
  }

  lemma SerialOrder(isn: int, a: int, b: int)
    requires -HALF < b - a < HALF
    ensures Ahead(Wrap(isn + a), Wrap(isn + b)) == if b >= a then b - a else b - a + 0x1_0000_0000
    ensures SeqLt(Wrap(isn + a), Wrap(isn + b)) <==> a < b
    ensures SeqGt(Wrap(isn + a), Wrap(isn + b)) <==> a > b
    ensures Wrap(isn + a) == Wrap(isn + b) <==> a == b
  {
    AheadIsDifference(isn, a, b);
    AheadIsDifference(isn, b, a);
    assert Wrap(isn + a) == Wrap(isn + b) ==> Ahead(Wrap(isn + a), Wrap(isn + b)) == 0;
    hide Wrap, Ahead;
  }

  /** Numbers exactly 2^31 apart come before and after each other; all others in one way only. */
  lemma OppositeNumbers(a: Seq32, b: Seq32)
    ensures a != b ==> ((SeqLt(a, b) && SeqGt(a, b)) <==> Ahead(a, b) == 0x8000_0000)
    ensures a != b ==> SeqLt(a, b) || SeqGt(a, b)
    ensures SeqGt(a, b) <==> SeqLt(b, a)
    ensures a == b ==> !SeqLt(a, b) && !SeqGt(a, b)
  {
  }

  lemma EndWraps(isn: int, x: Piece, seg: Segment)
    requires seg.start == Wrap(isn + x.lo) && seg.data == x.data
    ensures seg.End() == Wrap(isn + x.Hi())
  {
  }

  ghost predicate Near(a: int, b: int) { -HALF < b - a < HALF }

  lemma TakeMirrors(isn: int, head: bytes, next: int, keep: seq<Segment>, seg: Segment, h: Piece)
    requires Shows(isn, seg, h) && Near(h.lo, next) && Near(h.Hi(), next) && |h.data| < HALF
    ensures Pass(head, Wrap(isn + next), keep).Take(seg) ==
            if h.lo > next then Pass(head, Wrap(isn + next), keep + [seg])
            else if h.Hi() > next then Pass(head + h.data[next - h.lo..], Wrap(isn + h.Hi()), keep)
            else Pass(head, Wrap(isn + next), keep)
  {
    SerialOrder(isn, h.lo, next);
    SerialOrder(isn, next, h.lo);
    SerialOrder(isn, h.Hi(), next);
    EndWraps(isn, h, seg);
  }

  lemma SortOne(leq: (Segment, Segment) -> bool, seg: Segment)
    ensures Sort(leq, [seg]) == [seg]
  {
    assert [seg][1..] == [];
    assert Sort(leq, [seg]) == Insert(leq, seg, []) == [seg];
  }

  /** A drain over one waiting segment that does not start a gap. */
  lemma DrainOneMirrors(isn: int, head: bytes, next: int, seg: Segment, h: Piece, ts: real)
    requires Shows(isn, seg, h) && Near(h.lo, next) && Near(h.Hi(), next) && |h.data| < HALF
    ensures var d := Drain(head, [seg], Wrap(isn + next), ts);
            DrainedAs(isn, d, Settle(head, next, Some(h), None), ts)
  {
    SerialOrder(isn, h.lo, next);
    TakeMirrors(isn, head, next, [], seg, h);
    SortOne(NearestAfter(Wrap(isn + next)), seg);
    var sorted := [seg];
    var p := Pass(head, Wrap(isn + next), []);
    assert Absorb(p, sorted) == Absorb(p.Take(seg), []) by {
      assert sorted[1..] == [];
    }
  }

  /** Two waiting segments in delivery order: the nearer one is emitted whole, then the other settles. */
  lemma AbsorbPairMirrors(isn: int, a: Segment, b: Segment, x: Piece, y: Piece, v: Option<Verdict>)
    requires Shows(isn, a, x) && Shows(isn, b, y) && |x.data| < HALF && |y.data| < HALF
    requires Near(y.lo, x.lo) && Near(y.Hi(), x.lo) && Near(y.lo, x.Hi()) && Near(y.Hi(), x.Hi())
    ensures var p := Absorb(Pass([], Wrap(isn + x.lo), []), [a, b]);
            var o := Settle(x.data, x.Hi(), Some(y), v);
            && p.data == o.data && p.next == Wrap(isn + o.pos.next)
            && p.keep == if o.pos.held.Some? then [b] else []
  {
    var p := Pass([], Wrap(isn + x.lo), []);
    TakeMirrors(isn, [], x.lo, [], a, x);
    assert x.data[0..] == x.data && [] + x.data == x.data;
    var q := Pass(x.data, Wrap(isn + x.Hi()), []);
    assert p.Take(a) == q;
    TakeMirrors(isn, x.data, x.Hi(), [], b, y);
    assert [a, b][1..] == [b] && [b][1..] == [];
    assert Absorb(p, [a, b]) == Absorb(q, [b]) == Absorb(q.Take(b), []);
  }

  /** The buffer sort puts the piece at or nearest after `next` first, and a stale one last. */
  lemma SortPair(isn: int, next: int, a: Segment, b: Segment, h: Piece, x: Piece)
    requires Shows(isn, a, h) && Shows(isn, b, x) && Near(next, h.lo) && Near(next, x.lo) && x.lo > next
    ensures Sort(NearestAfter(Wrap(isn + next)), [a, b]) == if next <= h.lo <= x.lo then [a, b] else [b, a]
  {
    SerialOrder(isn, next, h.lo);
    SerialOrder(isn, next, x.lo);
    var leq := NearestAfter(Wrap(isn + next));
    assert [a, b][1..] == [b] && [b][1..] == [];
    assert Sort(leq, [b]) == Insert(leq, b, []) == [b];
    assert Sort(leq, [a, b]) == Insert(leq, a, [b]);
    if !leq(a, b) {
      assert Insert(leq, a, [b]) == [b] + Insert(leq, a, []);
    }
  }

  lemma InWindow(p: Position, x: Piece)
    requires Window(p, x) && x.Hi() > p.next
    ensures Near(p.next, x.lo) && Near(p.next, x.Hi()) && Near(x.lo, p.next) && Near(x.Hi(), p.next) && |x.data| < HALF
    ensures p.held.Some? ==>
              var h := p.held.value;
              && Near(p.next, h.lo) && Near(p.next, h.Hi()) && Near(h.lo, p.next) && Near(h.Hi(), p.next)
              && Near(h.lo, x.lo) && Near(h.lo, x.Hi()) && Near(h.Hi(), x.lo) && Near(h.Hi(), x.Hi())
              && Near(x.lo, h.lo) && Near(x.lo, h.Hi()) && Near(x.Hi(), h.lo) && Near(x.Hi(), h.Hi())
              && |h.data| < HALF
  {
  }

  lemma StartInWindow(p: Position, x: Piece)
    requires Window(p, x) && x.lo < p.next
    ensures Near(x.lo, p.next)
  {
    if x.Hi() > p.next {
      InWindow(p, x);
    }
  }

  /** A drain that reports, emits and leaves what the ideal outcome says. */
  ghost predicate DrainedAs(isn: int, d: Drained, o: Outcome, ts: real) {
    d.data == o.data && d.gap == Reported(isn, o.verdict, ts) && Images(isn, d.next, d.buffer, o.pos)
  }

  /** A drain whose sorted buffer is a, b: skip to a if it lies ahead, emit it, and let b settle. */
  lemma DrainSortedPair(isn: int, next: int, buffer: seq<Segment>, a: Segment, b: Segment, x: Piece, y: Piece, ts: real)
    requires Sort(NearestAfter(Wrap(isn + next)), buffer) == [a, b]
    requires Shows(isn, a, x) && Shows(isn, b, y) && |x.data| < HALF && |y.data| < HALF
    requires Near(y.lo, x.lo) && Near(y.Hi(), x.lo) && Near(y.lo, x.Hi()) && Near(y.Hi(), x.Hi())
    requires Near(next, x.lo) && Near(x.lo, next) && next <= x.lo
    ensures var d := Drain([], buffer, Wrap(isn + next), ts);
            DrainedAs(isn, d, Settle(x.data, x.Hi(), Some(y), HoleBefore(next, x)), ts)
  {
    SerialOrder(isn, next, x.lo);
    SerialOrder(isn, x.lo, next);
    AbsorbPairMirrors(isn, a, b, x, y, HoleBefore(next, x));
    var o := Settle(x.data, x.Hi(), Some(y), HoleBefore(next, x));
    assert a.start == Wrap(isn + x.lo);
    assert o.pos.held.Some? ==> o.pos.held == Some(y);
    hide Sort, Absorb, Settle, Wrap, Ahead, SeqGt, Near, Shows;
  }

  /** What `feed` computes for the segment showing x mirrors the arrival of x. */
  ghost predicate ClassifiedAs(isn: int, buffer: seq<Segment>, p: Position, x: Piece, ts: real) {
    var f := Classify(Wrap(isn + p.next), buffer, Segment(Wrap(isn + x.lo), x.data, ts), ts);
    var r := Receive(p, x);
    f.data == r.data && f.issue == Reported(isn, r.verdict, ts) && Images(isn, f.next, f.buffer, r.pos)
  }

  lemma BehindMirrors(isn: int, buffer: seq<Segment>, p: Position, x: Piece, ts: real)
    requires Images(isn, Wrap(isn + p.next), buffer, p) && Near(x.lo, p.next) && x.data != [] && x.lo < p.next
    ensures ClassifiedAs(isn, buffer, p, x, ts)
  {
    var seg := Segment(Wrap(isn + x.lo), x.data, ts);
    SerialOrder(isn, x.lo, p.next);
    EndWraps(isn, x, seg);
    hide Drain, Ahead, Wrap, Shows, Near, SeqLt, SeqGt;
    assert Ahead(seg.start, Wrap(isn + p.next)) == p.next - x.lo;
  }

  lemma InPlaceMirrors(isn: int, buffer: seq<Segment>, p: Position, x: Piece, ts: real)
    requires Images(isn, Wrap(isn + p.next), buffer, p) && Window(p, x) && x.data != [] && x.lo == p.next
    ensures ClassifiedAs(isn, buffer, p, x, ts)
  {
    hide Drain, Ahead, Wrap, SeqLt, SeqGt, Shows;
    var seg := Segment(Wrap(isn + x.lo), x.data, ts);
    InWindow(p, x);
    EndWraps(isn, x, seg);
    SerialOrder(isn, x.lo, p.next);
    if p.held.None? {
      DrainNone(x.data, Wrap(isn + x.Hi()), ts);
    } else {
      assert buffer == [buffer[0]];
      DrainOneMirrors(isn, x.data, x.Hi(), buffer[0], p.held.value, ts);
    }
    assert DrainedAs(isn, Drain(x.data, buffer, seg.End(), ts), Receive(p, x), ts);
    assert !SeqLt(seg.start, Wrap(isn + p.next)) && !SeqGt(seg.start, Wrap(isn + p.next));
    hide Drain, Ahead, Wrap, Window, SeqLt, SeqGt, Near, Receive, Shows;
  }

  lemma AheadMirrors(isn: int, buffer: seq<Segment>, p: Position, x: Piece, ts: real)
    requires Images(isn, Wrap(isn + p.next), buffer, p) && Window(p, x) && x.data != [] && x.lo > p.next
    ensures ClassifiedAs(isn, buffer, p, x, ts)
  {
    HeldIsOne(isn, buffer, p);
    ShowsItself(isn, x, ts);
    AheadIsReceived(p, x);
    assert x.Hi() > p.next;
    hide *;
    var seg := Segment(Wrap(isn + x.lo), x.data, ts);
    InWindow(p, x);
    SerialOrder(isn, x.lo, p.next);
    if p.held.None? {
      assert buffer + [seg] == [seg];
      DrainOneMirrors(isn, [], p.next, seg, x, ts);
    } else {
      assert buffer + [seg] == [buffer[0], seg];
      DrainWithHeld(isn, p, buffer[0], seg, x, ts);
    }
    AheadClassified(isn, buffer, p, x, ts);
  }

  lemma HeldIsOne(isn: int, buffer: seq<Segment>, p: Position)
    requires Images(isn, Wrap(isn + p.next), buffer, p)
    ensures if p.held.Some? then |buffer| == 1 && Shows(isn, buffer[0], p.held.value) else buffer == []
  {
    hide Shows, Wrap;
  }

  lemma ShowsItself(isn: int, x: Piece, ts: real)
    requires x.data != []
    ensures Shows(isn, Segment(Wrap(isn + x.lo), x.data, ts), x)
  {
  }

  /** With nothing waiting, an early piece waits. */
  lemma AheadIsReceived(p: Position, x: Piece)
    requires x.lo > p.next && x.data != []
    ensures x.Hi() > p.next && (p.held.None? ==> Receive(p, x) == Settle([], p.next, Some(x), None))
  {
  }

  lemma AheadClassified(isn: int, buffer: seq<Segment>, p: Position, x: Piece, ts: real)
    requires var seg := Segment(Wrap(isn + x.lo), x.data, ts);
             && DrainedAs(isn, Drain([], buffer + [seg], Wrap(isn + p.next), ts), Receive(p, x), ts)
             && !SeqLt(seg.start, Wrap(isn + p.next)) && SeqGt(seg.start, Wrap(isn + p.next))
    ensures ClassifiedAs(isn, buffer, p, x, ts)
  {
    hide Drain, Wrap, SeqLt, SeqGt, Receive;
  }

  lemma DrainWithHeld(isn: int, p: Position, a: Segment, seg: Segment, x: Piece, ts: real)
    requires p.held.Some? && Shows(isn, a, p.held.value) && Shows(isn, seg, x) && Window(p, x) && x.lo > p.next
    ensures DrainedAs(isn, Drain([], [a, seg], Wrap(isn + p.next), ts), Receive(p, x), ts)
  {
    var h := p.held.value;
    InWindow(p, x);
    hide Drain, Ahead, Wrap, Window, Sort, Settle, Images;
    SortPair(isn, p.next, a, seg, h, x);
    if p.next <= h.lo <= x.lo {
      DrainSortedPair(isn, p.next, [a, seg], a, seg, h, x, ts);
    } else {
      DrainSortedPair(isn, p.next, [a, seg], seg, a, x, h, ts);
    }
  }

  /**
    * The 32-bit machine simulates the unbounded one: same bytes, same finding, and the
    * new state mirrors the new position, wherever the sequence numbers wrap.
    */
  lemma FeedMirrors(isn: int, s: StreamState, p: Position, x: Piece, ts: real)
    requires Mirrors(isn, s, p) && Window(p, x) && x.data != []
    ensures var (s', o) := FeedStep(s, Wrap(isn + x.lo), x.data, ts);
            var r := Receive(p, x);
            && Mirrors(isn, s', r.pos) && o.data == r.data && o.issue == Reported(isn, r.verdict, ts)
            && s'.issues == Noted(s.issues, o.issue)
  {
    hide Classify, Receive, Window, Wrap;
    if x.lo < p.next {
      StartInWindow(p, x);
      BehindMirrors(isn, s.buffer, p, x, ts);
    } else if x.lo == p.next {
      InPlaceMirrors(isn, s.buffer, p, x, ts);
    } else {
      AheadMirrors(isn, s.buffer, p, x, ts);
    }
  }

  lemma DrainNone(head: bytes, nxt: Seq32, ts: real)
    ensures Drain(head, [], nxt, ts) == Drained(head, nxt, [], None)
  {
  }

  // ------------------------------------------------------------ whole runs

  /** An arrival and its capture time. */
  datatype Arrival = Arrival(piece: Piece, ts: real)

  function After(p: Position, xs: seq<Arrival>): Position
    decreases |xs|
  {
    if xs == [] then p else After(Receive(p, xs[0].piece).pos, xs[1..])
  }

  function Delivered(p: Position, xs: seq<Arrival>): bytes
    decreases |xs|
  {
    if xs == [] then []
    else
      var r := Receive(p, xs[0].piece);
      r.data + Delivered(r.pos, xs[1..])
  }

  function Verdicts(p: Position, xs: seq<Arrival>): seq<Verdict>
    decreases |xs|
  {
    if xs == [] then []
    else
      var r := Receive(p, xs[0].piece);
      var rest := Verdicts(r.pos, xs[1..]);
      if r.verdict.Some? then [r.verdict.value] + rest else rest
  }

  /** The 32-bit machine fed with the same arrivals. */
  function FeedAll(s: StreamState, isn: int, xs: seq<Arrival>): (StreamState, bytes)
    decreases |xs|
  {
    if xs == [] then (s, [])
    else
      var (s1, o) := FeedStep(s, Wrap(isn + xs[0].piece.lo), xs[0].piece.data, xs[0].ts);
      var (s2, rest) := FeedAll(s1, isn, xs[1..]);
      (s2, o.data + rest)
  }

  ghost predicate InReach(p: Position, xs: seq<Arrival>)
    decreases |xs|
  {
    xs != [] ==>
      var x := xs[0].piece;
      x.data != [] && Window(p, x) && InReach(Receive(p, x).pos, xs[1..])
  }

  /** The issues those verdicts become, in order. */
  function Log(isn: int, p: Position, xs: seq<Arrival>): seq<Issue>
    decreases |xs|
  {
    if xs == [] then []
    else
      var r := Receive(p, xs[0].piece);
      var rest := Log(isn, r.pos, xs[1..]);
      if r.verdict.Some? then [Reported(isn, r.verdict, xs[0].ts).value] + rest else rest
  }

  /** Over a whole run the two machines deliver the same bytes and record the same issues. */
  lemma {:induction false} RunMirrors(isn: int, s: StreamState, p: Position, xs: seq<Arrival>)
    requires Mirrors(isn, s, p) && InReach(p, xs)
    ensures var (s', out) := FeedAll(s, isn, xs);
            Mirrors(isn, s', After(p, xs)) && out == Delivered(p, xs) && s'.issues == s.issues + Log(isn, p, xs)
    decreases |xs|
  {
    hide FeedStep, Receive, Mirrors, Wrap, Window;
    if xs != [] {
      var x := xs[0].piece;
      FeedMirrors(isn, s, p, x, xs[0].ts);
      var (s1, o) := FeedStep(s, Wrap(isn + x.lo), x.data, xs[0].ts);
      RunMirrors(isn, s1, Receive(p, x).pos, xs[1..]);
      if o.issue.Some? {
        var rest := Log(isn, Receive(p, x).pos, xs[1..]);
        assert s.issues + ([o.issue.value] + rest) == (s.issues + [o.issue.value]) + rest;
      }
    }
  }

  // ------------------------------------------------------------ soundness

  ghost predicate Holds(source: bytes, p: Position) {
    0 <= p.next <= |source| && (p.held.Some? ==> p.held.value.SliceOf(source))
  }

  /** Where the bytes of this arrival's output start: after the gap it declares, if any. */
  function From(p: Position, r: Outcome): int {
    p.next + if r.verdict.Some? && r.verdict.value.finding.Gap? then r.verdict.value.finding.missing else 0
  }

  lemma SettleIsSound(source: bytes, from: int, head: bytes, next: int, held: Option<Piece>, v: Option<Verdict>)
    requires 0 <= from <= next <= |source| && head == source[from..next]
    requires held.Some? ==> held.value.SliceOf(source)
    ensures var o := Settle(head, next, held, v);
            Holds(source, o.pos) && next <= o.pos.next && o.data == source[from..o.pos.next]
  {
    if held.Some? && held.value.lo <= next < held.value.Hi() {
      var h := held.value;
      assert h.data[next - h.lo..] == source[next..h.Hi()];
      assert source[from..next] + source[next..h.Hi()] == source[from..h.Hi()];
    }
  }

  /** What one arrival delivers is exactly the source between that start and the new position. */
  lemma ReceiveIsSound(source: bytes, p: Position, x: Piece)
    requires Holds(source, p) && x.SliceOf(source)
    ensures var r := Receive(p, x);
            && Holds(source, r.pos) && p.next <= From(p, r) <= r.pos.next
            && r.data == source[From(p, r)..r.pos.next]
  {
    hide Settle;
    if x.lo < p.next {
      if x.Hi() > p.next {
        assert x.data[p.next - x.lo..] == source[p.next..x.Hi()];
      }
    } else if x.lo == p.next {
      SettleIsSound(source, x.lo, x.data, x.Hi(), p.held, None);
    } else if p.held.Some? {
      var h := p.held.value;
      var (near, far) := if p.next <= h.lo <= x.lo then (h, x) else (x, h);
      SettleIsSound(source, near.lo, near.data, near.Hi(), Some(far), HoleBefore(p.next, near));
    }
  }
}
