// What a flush emits: the waiting piece, with the hole before it declared, so that a run and
// its flush together account for the whole source.
module ReassemblyFlush {
  import opened Wrappers
  import opened Bytes
  import opened Lists
  import opened Reassembly
  import opened ReassemblyIdeal
  import opened ReassemblyTheorems

  /** A flush over unbounded offsets: the waiting piece follows, after a gap if it lies ahead. */
  function Release(p: Position): Outcome {
    if p.held.None? then Outcome(p, [], None)
    else
      var h := p.held.value;
      if h.lo > p.next then Outcome(Position(h.Hi(), None), h.data, Some(Verdict(FlushGap(h.lo - p.next), p.next)))
      else if h.Hi() > p.next then Outcome(Position(h.Hi(), None), h.data[p.next - h.lo..], None)
      else Outcome(Position(p.next, None), [], None)
  }

  /** The waiting piece lies within 2^31 of the position. */
  ghost predicate HeldNear(p: Position) {
    p.held.Some? ==>
      var h := p.held.value;
      Near(h.lo, p.next) && Near(h.Hi(), p.next) && |h.data| < HALF
  }

  /** One segment of a flush, in unbounded offsets. */
  lemma FlushTakeMirrors(isn: int, next: int, seg: Segment, h: Piece)
    requires Shows(isn, seg, h) && Near(h.lo, next) && Near(h.Hi(), next) && |h.data| < HALF
    ensures Flushed([], Wrap(isn + next), 0, None).Take(seg) ==
            if h.lo > next then
              Flushed(h.data, Wrap(isn + h.Hi()), 1, Some(Issue(FlushGap(h.lo - next), Wrap(isn + next), seg.ts)))
            else if h.Hi() >= next then Flushed(h.data[next - h.lo..], Wrap(isn + h.Hi()), 0, None)
            else Flushed([], Wrap(isn + next), 0, None)
  {
    SerialOrder(isn, h.lo, next);
    SerialOrder(isn, next, h.lo);
    SerialOrder(isn, h.Hi(), next);
    SerialOrder(isn, h.Hi(), h.lo);
    SerialOrder(isn, h.lo, h.lo);
    EndWraps(isn, h, seg);
    hide Wrap, Ahead, SeqLt, SeqGt;
    assert [] + h.data == h.data && h.data[0..] == h.data;
  }

  /** The 32-bit flush emits what the unbounded one does, empties the buffer and reports the same hole. */
  lemma FlushMirrors(isn: int, s: StreamState, p: Position)
    requires Mirrors(isn, s, p) && HeldNear(p)
    ensures var (s', o) := FlushStep(s);
            var r := Release(p);
            && Mirrors(isn, s', r.pos) && s'.buffer == [] && o.data == r.data
            && o.issue.Some? == r.verdict.Some?
            && (o.issue.Some? ==>
                  && o.issue.value.finding == r.verdict.value.finding
                  && o.issue.value.at == Wrap(isn + r.verdict.value.at))
  {
    hide Wrap, SeqGt, SeqGe, Near, FlushStep, Ahead;
    if p.held.Some? {
      var seg := s.buffer[0];
      FlushOfOne(s, seg);
      FlushTakeMirrors(isn, p.next, seg, p.held.value);
    } else {
      FlushOfNone(s);
    }
  }

  lemma FlushOfNone(s: StreamState)
    requires s.buffer == []
    ensures FlushStep(s) == (s, NO_OUTPUT)
  {
  }

  lemma FlushOfOne(s: StreamState, seg: Segment)
    requires s.next.Some? && |s.buffer| == 1 && s.buffer[0] == seg
    ensures var (s', o) := FlushStep(s);
            var f := Flushed([], s.next.value, 0, None).Take(seg);
            s'.next == Some(f.next) && s'.buffer == [] && o.data == f.data && o.issue == f.issue
  {
    assert s.buffer == [seg] && [seg][0..] == [seg] && [seg][1..] == [];
    SortOne(NearestAfter(s.next.value), seg);
    var f := Flushed([], s.next.value, 0, None);
    FlushTakes(f, [seg], 0);
    FlushEnds(f.Take(seg), []);
    hide SeqGt, SeqGe, SeqAdd, Ahead, Sort, FlushAll;
  }

  /** What a flush emits is the source between the end of its gap and the new position. */
  lemma ReleaseIsSound(source: bytes, p: Position)
    requires Holds(source, p)
    ensures var r := Release(p);
            var from := p.next + if r.verdict.Some? then r.verdict.value.finding.missing else 0;
            && Holds(source, r.pos) && r.pos.held.None? && p.next <= from <= r.pos.next
            && r.data == source[from..r.pos.next]
            && (r.verdict.Some? ==> r.verdict.value == Verdict(FlushGap(from - p.next), p.next) && from > p.next)
  {
    if p.held.Some? && p.held.value.lo <= p.next < p.held.value.Hi() {
      var h := p.held.value;
      assert h.data[p.next - h.lo..] == source[p.next..h.Hi()];
    }
  }

  lemma {:induction false} LastGap(source: bytes, gaps: seq<(int, nat)>, g: (int, nat), from: int, to: int)
    requires 0 <= from <= g.0 && to <= |source| && GapsWithin(gaps, from, g.0) && g.0 + g.1 <= to
    ensures GapsWithin(gaps + [g], from, to) && g.0 <= |source|
    ensures Without(source, gaps + [g], from, to) == Without(source, gaps, from, g.0) + source[g.0 + g.1..to]
    decreases |gaps|
  {
    GapsWithinOrdered(gaps, from, g.0);
    if gaps == [] {
      assert [] + [g] == [g] && [g][1..] == [];
    } else {
      var rest := gaps[1..];
      GapsWithinOrdered(rest, gaps[0].0 + gaps[0].1, g.0);
      LastGap(source, rest, g, gaps[0].0 + gaps[0].1, to);
      assert (gaps + [g])[1..] == rest + [g] && (gaps + [g])[0] == gaps[0];
      Reassociate(source[from..gaps[0].0], Without(source, rest, gaps[0].0 + gaps[0].1, g.0), source[g.0 + g.1..to]);
    }
  }

  lemma {:induction false} LastStretch(source: bytes, gaps: seq<(int, nat)>, from: int, mid: int, to: int)
    requires 0 <= from <= mid <= to <= |source| && GapsWithin(gaps, from, mid)
    ensures GapsWithin(gaps, from, to)
    ensures Without(source, gaps, from, to) == Without(source, gaps, from, mid) + source[mid..to]
    decreases |gaps|
  {
    GapsWithinOrdered(gaps, from, mid);
    if gaps == [] {
      SliceJoin(source, from, mid, to);
    } else {
      GapsWithinOrdered(gaps[1..], gaps[0].0 + gaps[0].1, mid);
      LastStretch(source, gaps[1..], gaps[0].0 + gaps[0].1, mid, to);
      Reassociate(source[from..gaps[0].0], Without(source, gaps[1..], gaps[0].0 + gaps[0].1, mid), source[mid..to]);
    }
  }

  /** The gap a flush declares, as (start, length). */
  function HoleOf(r: Outcome): seq<(int, nat)> {
    if r.verdict.Some? && r.verdict.value.finding.FlushGap?
    then [(r.verdict.value.at, r.verdict.value.finding.missing)] else []
  }

  lemma Bounds(source: bytes, p: Position)
    requires Holds(source, p)
    ensures 0 <= p.next <= |source|
  {
  }

  /** A run and its flush: the source up to the last position, with exactly the declared gaps cut out. */
  lemma FlushedRunIsTheSource(source: bytes, p: Position, xs: seq<Arrival>)
    requires Holds(source, p) && AllSlices(source, xs)
    ensures var r := Release(After(p, xs));
            var gaps := Gaps(Verdicts(p, xs)) + HoleOf(r);
            && Holds(source, r.pos) && GapsWithin(gaps, p.next, r.pos.next)
            && Delivered(p, xs) + r.data == Without(source, gaps, p.next, r.pos.next)
  {
    RunDeliversSource(source, p, xs);
    var end := After(p, xs);
    ReleaseIsSound(source, end);
    var r, gaps := Release(end), Gaps(Verdicts(p, xs));
    GapsWithinOrdered(gaps, p.next, end.next);
    Bounds(source, p);
    Bounds(source, r.pos);
    hide Release, Holds, Delivered, Gaps, Without, GapsWithin, After, Verdicts;
    if r.verdict.Some? {
      LastGap(source, gaps, (end.next, r.verdict.value.finding.missing), p.next, r.pos.next);
    } else {
      LastStretch(source, gaps, p.next, end.next, r.pos.next);
      assert gaps + [] == gaps;
    }
  }

  /** Every arrival in reach leaves what waits within reach. */
  lemma ArrivalKeepsNear(p: Position, x: Piece)
    requires Window(p, x) && x.data != [] && HeldNear(p)
    ensures HeldNear(Receive(p, x).pos)
  {
    var points := {p.next, x.lo, x.Hi()} + if p.held.Some? then {p.held.value.lo, p.held.value.Hi()} else {};
    assert p.next in points && x.lo in points && x.Hi() in points;
    if p.held.Some? {
      assert p.held.value.lo in points && p.held.value.Hi() in points;
    }
  }

  lemma {:induction false} RunKeepsNear(p: Position, xs: seq<Arrival>)
    requires InReach(p, xs) && HeldNear(p)
    ensures HeldNear(After(p, xs))
    decreases |xs|
  {
    hide HeldNear, Receive, Window;
    if xs != [] {
      ArrivalKeepsNear(p, xs[0].piece);
      RunKeepsNear(Receive(p, xs[0].piece).pos, xs[1..]);
    }
  }

  /**
    * Feeding slices of one source in reach and then flushing: nothing waits any more, and what was output
    * is the source up to the final position without exactly the gaps that were declared, the flush's included.
    */
  lemma FlushCompletesTheRun(source: bytes, isn: int, base: Option<Seq32>, xs: seq<Arrival>)
    requires xs != [] && xs[0].piece.lo == 0 && InReach(Position(0, None), xs) && AllSlices(source, xs)
    ensures var (s, out) := FeedAll(Fresh(base), isn, xs);
            var (s', o) := FlushStep(s);
            var start := Position(0, None);
            var r := Release(After(start, xs));
            var gaps := Gaps(Verdicts(start, xs)) + HoleOf(r);
            && s'.buffer == [] && s'.next == Some(Wrap(isn + r.pos.next))
            && Holds(source, r.pos) && GapsWithin(gaps, 0, r.pos.next)
            && out + o.data == Without(source, gaps, 0, r.pos.next)
  {
    var start := Position(0, None);
    assert Holds(source, start) && HeldNear(start);
    hide *;
    StartedRunMirrors(isn, base, xs);
    RunKeepsNear(start, xs);
    var (s, out) := FeedAll(Fresh(base), isn, xs);
    FlushMirrors(isn, s, After(start, xs));
    FlushedRunIsTheSource(source, start, xs);
    MirroredNext(isn, FlushStep(s).0, Release(After(start, xs)).pos);
  }

  lemma MirroredNext(isn: int, s: StreamState, p: Position)
    requires Mirrors(isn, s, p)
    ensures s.next == Some(Wrap(isn + p.next))
  {
  }
}
