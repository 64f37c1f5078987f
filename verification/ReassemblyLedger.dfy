// Byte and issue accounting of the 32-bit machine, for every sequence of feed and
// flush calls: no source stream and no window is assumed, only segment lengths below 2^31.
module ReassemblyLedger {
  import opened Wrappers
  import opened Bytes
  import opened Lists
  import opened Reassembly
  import opened ReassemblyIdeal

  datatype Call = FeedCall(start: Seq32, data: bytes, ts: real) | FlushCall

  function Step(s: StreamState, c: Call): (StreamState, StreamOutput) {
    match c
    case FeedCall(start, data, ts) => FeedStep(s, start, data, ts)
    case FlushCall => FlushStep(s)
  }

  function Run(s: StreamState, calls: seq<Call>): (StreamState, bytes) {
    if calls == [] then (s, [])
    else
      var (s1, out) := Run(s, calls[..|calls| - 1]);
      var (s2, o) := Step(s1, calls[|calls| - 1]);
      (s2, out + o.data)
  }

  /** Issues of each kind, and the bytes all gaps skipped. */
  datatype Tally = Tally(gaps: nat, retransmissions: nat, overlaps: nat, missing: nat) {
    function Add(f: Finding): Tally {
      match f
      case Gap(n) => this.(gaps := gaps + 1, missing := missing + n)
      case FlushGap(n) => this.(gaps := gaps + 1, missing := missing + n)
      case Retransmission(_) => this.(retransmissions := retransmissions + 1)
      case Overlap(_, _) => this.(overlaps := overlaps + 1)
    }
  }

  function Count(issues: seq<Issue>): Tally {
    if issues == [] then Tally(0, 0, 0, 0)
    else Count(issues[..|issues| - 1]).Add(issues[|issues| - 1].finding)
  }

  /** The first data segment fed: it fixes where the stream starts. */
  function FirstStart(calls: seq<Call>): Option<Seq32> {
    if calls == [] then None
    else if calls[0].FeedCall? && calls[0].data != [] then Some(calls[0].start)
    else FirstStart(calls[1..])
  }

  ghost predicate Sound(seg: Segment) { 0 < |seg.data| < HALF }

  ghost predicate AllSound(segs: seq<Segment>) { forall seg :: seg in segs ==> Sound(seg) }

  /** The books of one stream that started at `first`. */
  ghost predicate Balanced(s: StreamState, first: Option<Seq32>) {
    && |s.buffer| <= 1 && AllSound(s.buffer)
    && var t := Count(s.issues);
    && s.gaps == t.gaps && s.retransmissions == t.retransmissions && s.overlaps == t.overlaps
    && if first.None? then s.next.None? && s.buffer == [] && s.issues == [] && s.bytesWritten == 0
       else s.next == Some(Wrap(first.value + s.bytesWritten + t.missing))
  }

  lemma CountSums(issues: seq<Issue>)
    ensures var t := Count(issues); t.gaps + t.retransmissions + t.overlaps == |issues|
  {
  }

  lemma NotedCounts(issues: seq<Issue>, issue: Option<Issue>)
    ensures Count(Noted(issues, issue)) == if issue.None? then Count(issues) else Count(issues).Add(issue.value.finding)
  {
    if issue.Some? {
      assert Noted(issues, issue)[..|issues|] == issues;
    }
  }

  // ------------------------------------------------------------ one pass

  lemma WrapAdds(x: int, n: int)
    ensures (Wrap(x) + n) % 0x1_0000_0000 == Wrap(x + n)
  {
  }

  lemma EndFrom(seg: Segment, nxt: Seq32)
    ensures seg.End() == (nxt + (|seg.data| - Ahead(seg.start, nxt))) % 0x1_0000_0000
    ensures Ahead(seg.End(), nxt) == (Ahead(seg.start, nxt) - |seg.data|) % 0x1_0000_0000
  {
  }

  lemma BehindIsNear(a: Seq32, nxt: Seq32)
    requires SeqLe(a, nxt) || !SeqGt(a, nxt)
    ensures Ahead(a, nxt) <= HALF
  {
  }

  /** A segment that starts at or behind a position and ends ahead of it reaches beyond it. */
  lemma ReachesBeyond(seg: Segment, nxt: Seq32)
    requires Sound(seg) && Ahead(seg.start, nxt) <= HALF && SeqGt(seg.End(), nxt)
    ensures Ahead(seg.start, nxt) < |seg.data|
  {
    EndFrom(seg, nxt);
    hide Ahead, SeqAdd;
  }

  /** Emitting part of a segment moves the position by exactly the bytes emitted. */
  lemma TakeBalances(p: Pass, seg: Segment, origin: int)
    requires Sound(seg) && p.next == Wrap(origin + |p.data|)
    ensures var q := p.Take(seg); q.next == Wrap(origin + |q.data|)
  {
    if SeqLe(seg.start, p.next) && SeqGt(seg.End(), p.next) {
      BehindIsNear(seg.start, p.next);
      ReachesBeyond(seg, p.next);
      EndFrom(seg, p.next);
      WrapAdds(origin + |p.data|, |seg.data| - Ahead(seg.start, p.next));
      hide Ahead, Wrap, SeqAdd;
    }
  }

  lemma {:induction false} AbsorbBalances(p: Pass, segs: seq<Segment>, origin: int)
    requires AllSound(segs) && p.next == Wrap(origin + |p.data|)
    ensures var q := Absorb(p, segs);
            && q.next == Wrap(origin + |q.data|)
            && |q.keep| <= |p.keep| + |segs| && (AllSound(p.keep) ==> AllSound(q.keep))
    decreases |segs|
  {
    if segs != [] {
      TakeBalances(p, segs[0], origin);
      AbsorbBalances(p.Take(segs[0]), segs[1..], origin);
      hide Wrap, Ahead, SeqLe, SeqGt, SeqAdd;
    }
  }

  lemma NotAheadIsBehind(a: Seq32, nxt: Seq32)
    requires !SeqGt(a, nxt)
    ensures SeqLe(a, nxt)
  {
  }

  lemma SortSound(leq: (Segment, Segment) -> bool, segs: seq<Segment>)
    requires AllSound(segs)
    ensures AllSound(Sort(leq, segs)) && |Sort(leq, segs)| == |segs|
  {
    SortKeepsContents(leq, segs);
    var sorted := Sort(leq, segs);
    assert |multiset(sorted)| == |sorted| && |multiset(segs)| == |segs|;
    forall seg | seg in sorted ensures Sound(seg) {
      assert seg in multiset(sorted);
    }
  }

  /** When the first segment is at or behind the position, the pass does not keep it. */
  lemma AbsorbTakesFirst(p: Pass, segs: seq<Segment>, origin: int)
    requires segs != [] && AllSound(segs) && p.next == Wrap(origin + |p.data|) && SeqLe(segs[0].start, p.next)
    ensures var q := Absorb(p, segs);
            && q.next == Wrap(origin + |q.data|)
            && |q.keep| < |p.keep| + |segs| && (AllSound(p.keep) ==> AllSound(q.keep))
  {
    TakeBalances(p, segs[0], origin);
    AbsorbBalances(p.Take(segs[0]), segs[1..], origin);
    hide Wrap, Ahead, SeqGt, SeqAdd;
  }

  function Missing(gap: Option<Issue>): nat {
    if gap.Some? && gap.value.finding.Gap? then gap.value.finding.missing else 0
  }

  /** A drain moves the position by the bytes emitted plus the gap skipped and leaves at most one segment. */
  lemma DrainBalances(head: bytes, buffer: seq<Segment>, nxt: Seq32, ts: real, origin: int)
    requires AllSound(buffer) && |buffer| <= 2 && nxt == Wrap(origin + |head|)
    ensures var d := Drain(head, buffer, nxt, ts);
            && d.next == Wrap(origin + Missing(d.gap) + |d.data|)
            && |d.buffer| <= 1 && AllSound(d.buffer) && (d.gap.Some? ==> d.gap.value.finding.Gap?)
  {
    var sorted := Sort(NearestAfter(nxt), buffer);
    SortSound(NearestAfter(nxt), buffer);
    hide Wrap, Ahead, SeqGt, Sort, Absorb, SeqLe;
    if sorted != [] {
      var front := sorted[0].start;
      if SeqGt(front, nxt) {
        if |sorted| == 2 {
          var gap := Ahead(nxt, front);
          JumpsBy(nxt, front, origin + |head|);
          SelfBehind(front);
          assert front == Wrap(origin + gap + |head|);
          AbsorbTakesFirst(Pass(head, front, []), sorted, origin + gap);
        }
      } else {
        NotAheadIsBehind(front, nxt);
        AbsorbTakesFirst(Pass(head, nxt, []), sorted, origin);
      }
    }
  }

  lemma JumpsBy(nxt: Seq32, front: Seq32, at: int)
    requires nxt == Wrap(at)
    ensures front == Wrap(at + Ahead(nxt, front))
  {
  }

  lemma SelfBehind(a: Seq32)
    ensures SeqLe(a, a)
  {
  }

  lemma ClassifyBalances(nxt: Seq32, buffer: seq<Segment>, seg: Segment, ts: real, origin: int)
    requires AllSound(buffer) && |buffer| <= 1 && Sound(seg) && nxt == Wrap(origin)
    ensures var f := Classify(nxt, buffer, seg, ts);
            && f.next == Wrap(origin + Missing(f.issue) + |f.data|)
            && |f.buffer| <= 1 && AllSound(f.buffer)
            && (f.gaps, f.retransmissions, f.overlaps) ==
               (if f.issue.None? then (0, 0, 0)
                else var t := Tally(0, 0, 0, 0).Add(f.issue.value.finding); (t.gaps, t.retransmissions, t.overlaps))
            && (f.issue.Some? ==> !f.issue.value.finding.FlushGap?)
  {
    if SeqLt(seg.start, nxt) {
      EndFrom(seg, nxt);
      if Ahead(seg.start, nxt) < |seg.data| {
        WrapAdds(origin, |seg.data| - Ahead(seg.start, nxt));
      }
    } else if SeqGt(seg.start, nxt) {
      DrainBalances([], buffer + [seg], nxt, ts, origin);
    } else {
      EndFrom(seg, nxt);
      InPlaceEnd(seg, nxt);
      WrapAdds(origin, |seg.data|);
      DrainBalances(seg.data, buffer, seg.End(), ts, origin);
    }
    hide Wrap, Ahead, Drain, SeqAdd, SeqLt, SeqGt;
  }

  lemma InPlaceEnd(seg: Segment, nxt: Seq32)
    requires !SeqLt(seg.start, nxt) && !SeqGt(seg.start, nxt)
    ensures Ahead(seg.start, nxt) == 0
  {
  }

  /** What a flush emits of a segment at or behind the position moves it by as much. */
  lemma FlushEmits(from: Seq32, seg: Segment, origin: int)
    requires Sound(seg) && from == Wrap(origin) && Ahead(seg.start, from) <= HALF && SeqGe(seg.End(), from)
    ensures seg.End() == Wrap(origin + |DropFirst(seg.data, Ahead(seg.start, from))|)
  {
    EndFrom(seg, from);
    if seg.End() == from {
      EndsHere(seg, from);
    } else {
      ReachesBeyond(seg, from);
    }
    WrapAdds(origin, |seg.data| - Ahead(seg.start, from));
    hide Wrap, Ahead, SeqAdd, SeqGt;
  }

  lemma FlushBalances(nxt: Seq32, seg: Segment, origin: int)
    requires Sound(seg) && nxt == Wrap(origin)
    ensures var f := Flushed([], nxt, 0, None).Take(seg);
            && f.next == Wrap(origin + |f.data| + if f.issue.Some? then f.issue.value.finding.missing else 0)
            && (f.issue.Some? ==> f.issue.value.finding.FlushGap?)
            && f.gaps == if f.issue.Some? then 1 else 0
  {
    var skip := SeqGt(seg.start, nxt);
    var gap := if skip then Ahead(nxt, seg.start) else 0;
    var from := if skip then seg.start else nxt;
    if skip {
      JumpsBy(nxt, seg.start, origin);
      SelfNear(seg.start);
    } else {
      BehindIsNear(seg.start, nxt);
    }
    hide Wrap, Ahead, SeqAdd, SeqGt;
    if SeqGe(seg.End(), from) {
      FlushEmits(from, seg, origin + gap);
    }
  }

  lemma SelfNear(a: Seq32)
    ensures Ahead(a, a) == 0
  {
  }

  lemma EndsHere(seg: Segment, nxt: Seq32)
    requires Sound(seg) && seg.End() == nxt
    ensures Ahead(seg.start, nxt) == |seg.data|
  {
  }

  // ------------------------------------------------------------ one call, then every run

  ghost predicate Fits(c: Call) { c.FeedCall? ==> |c.data| < HALF }

  function StartAfter(first: Option<Seq32>, c: Call): Option<Seq32> {
    if first.None? && c.FeedCall? && c.data != [] then Some(c.start) else first
  }

  lemma FeedKeepsBooks(s: StreamState, first: Option<Seq32>, c: Call)
    requires Balanced(s, first) && c.FeedCall? && Fits(c)
    ensures var (s', o) := Step(s, c);
            Balanced(s', StartAfter(first, c)) && s'.bytesWritten == s.bytesWritten + |o.data|
  {
    if c.data != [] {
      var t := Count(s.issues);
      var origin := StartAfter(first, c).value + s.bytesWritten + t.missing;
      var nxt := if s.next.None? then c.start else s.next.value;
      assert s.issues == [] ==> t == Tally(0, 0, 0, 0);
      assert nxt == Wrap(origin);
      var seg := Segment(c.start, c.data, c.ts);
      ClassifyBalances(nxt, s.buffer, seg, c.ts, origin);
      NotedCounts(s.issues, Classify(nxt, s.buffer, seg, c.ts).issue);
      hide Wrap, Classify, Count, Sound;
    }
  }

  lemma FlushOne(nxt: Seq32, seg: Segment)
    ensures FlushAll(Flushed([], nxt, 0, None), Sort(NearestAfter(nxt), [seg])) == Flushed([], nxt, 0, None).Take(seg)
  {
    hide NearestAfter, Sort;
    SortOne(NearestAfter(nxt), seg);
    var start := Flushed([], nxt, 0, None);
    assert [seg][1..] == [];
    assert FlushAll(start, [seg]) == FlushAll(start.Take(seg), []);
  }

  lemma FlushKeepsBooks(s: StreamState, first: Option<Seq32>)
    requires Balanced(s, first)
    ensures var (s', o) := Step(s, FlushCall);
            Balanced(s', first) && s'.bytesWritten == s.bytesWritten + |o.data|
  {
    hide Wrap, FlushAll, Sort, Count, Sound, NearestAfter;
    if s.buffer != [] {
      var nxt, seg := s.next.value, s.buffer[0];
      assert s.buffer == [seg];
      FlushOne(nxt, seg);
      FlushBalances(nxt, seg, first.value + s.bytesWritten + Count(s.issues).missing);
      NotedCounts(s.issues, Flushed([], nxt, 0, None).Take(seg).issue);
    }
  }

  lemma {:induction false} FirstStartStep(calls: seq<Call>, c: Call)
    ensures FirstStart(calls + [c]) == StartAfter(FirstStart(calls), c)
    decreases |calls|
  {
    if calls == [] {
      assert (calls + [c])[1..] == [];
    } else {
      FirstStartStep(calls[1..], c);
      assert (calls + [c])[1..] == calls[1..] + [c];
    }
  }

  /**
    * For every sequence of feed and flush calls with segments below 2^31 bytes: at most one
    * segment waits, each counter is the number of recorded issues of its kind (so together
    * they count all issues), `bytesWritten` is what was output, and the position is the
    * first sequence number plus the bytes output plus the bytes skipped, modulo 2^32.
    */
  lemma {:induction false} BooksBalance(base: Option<Seq32>, calls: seq<Call>)
    requires forall c :: c in calls ==> Fits(c)
    ensures var (s, out) := Run(Fresh(base), calls);
            && Balanced(s, FirstStart(calls)) && s.bytesWritten == |out|
            && s.gaps + s.retransmissions + s.overlaps == |s.issues|
    decreases |calls|
  {
    hide Step, Balanced;
    var (s, out) := Run(Fresh(base), calls);
    if calls == [] {
      FreshBalances(base);
    } else {
      var c, before := calls[|calls| - 1], calls[..|calls| - 1];
      BooksBalance(base, before);
      var s1 := Run(Fresh(base), before).0;
      match c {
        case FeedCall(_, _, _) => FeedKeepsBooks(s1, FirstStart(before), c);
        case FlushCall => FlushKeepsBooks(s1, FirstStart(before));
      }
      FirstStartStep(before, c);
      assert before + [c] == calls;
      StartAfterFlush(FirstStart(before), c);
    }
    BalancedSums(s, FirstStart(calls));
  }

  /** The feeds among the calls that carried data. */
  function Carrying(calls: seq<Call>): seq<Call> {
    if calls == [] then []
    else
      var c := calls[|calls| - 1];
      Carrying(calls[..|calls| - 1]) + if c.FeedCall? && c.data != [] then [c] else []
  }

  /** The sequence number of the first feed, with data or without. */
  function FirstFed(calls: seq<Call>): Option<Seq32> {
    if calls == [] then None
    else
      var before, c := FirstFed(calls[..|calls| - 1]), calls[|calls| - 1];
      if before.Some? then before else if c.FeedCall? then Some(c.start) else None
  }

  /**
    * Over every sequence of calls exactly the feeds with data are counted as segments, any of them makes the
    * stream synchronised, and the base, unless given, is the first feed's number.
    */
  lemma {:induction false} SegmentsAreCounted(base: Option<Seq32>, calls: seq<Call>)
    ensures var s := Run(Fresh(base), calls).0;
            && s.segments == |Carrying(calls)| && (s.synced <==> Carrying(calls) != [])
            && s.base == if base.Some? then base else FirstFed(calls)
    decreases |calls|
  {
    if calls != [] {
      var before, c := calls[..|calls| - 1], calls[|calls| - 1];
      SegmentsAreCounted(base, before);
      StepCounts(Run(Fresh(base), before).0, c);
      hide Step;
    }
  }

  lemma StepCounts(s: StreamState, c: Call)
    ensures var t, more := Step(s, c).0, c.FeedCall? && c.data != [];
            && t.segments == s.segments + (if more then 1 else 0) && t.synced == (s.synced || more)
            && t.base == if s.base.None? && c.FeedCall? then Some(c.start) else s.base
  {
    hide Classify, FlushAll;
  }

  lemma FreshBalances(base: Option<Seq32>)
    ensures Balanced(Fresh(base), None)
  {
  }

  lemma StartAfterFlush(first: Option<Seq32>, c: Call)
    ensures c.FlushCall? ==> StartAfter(first, c) == first
  {
  }

  lemma BalancedSums(s: StreamState, first: Option<Seq32>)
    requires Balanced(s, first)
    ensures s.gaps + s.retransmissions + s.overlaps == |s.issues|
  {
    CountSums(s.issues);
  }
}
