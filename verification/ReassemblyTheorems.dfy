// What the reassembler promises over whole runs: which source bytes come out, when a hole is
// declared, when a received byte is lost, and which reorderings lose nothing.
module ReassemblyTheorems {
  import opened Wrappers
  import opened Bytes
  import opened Lists
  import opened Reassembly
  import opened ReassemblyIdeal

  // ------------------------------------------------------------ the source, minus the gaps

  ghost predicate AllSlices(source: bytes, xs: seq<Arrival>) {
    forall i :: 0 <= i < |xs| ==> xs[i].piece.SliceOf(source)
  }

  /** The gaps among the verdicts, as (start, length). */
  function Gaps(vs: seq<Verdict>): seq<(int, nat)> {
    if vs == [] then []
    else if vs[0].finding.Gap? then [(vs[0].at, vs[0].finding.missing)] + Gaps(vs[1..])
    else Gaps(vs[1..])
  }

  /** The gaps lie in order between `from` and `to`. */
  ghost predicate GapsWithin(gaps: seq<(int, nat)>, from: int, to: int)
    decreases |gaps|
  {
    if gaps == [] then from <= to
    else from <= gaps[0].0 && GapsWithin(gaps[1..], gaps[0].0 + gaps[0].1, to)
  }

  lemma {:induction false} GapsWithinOrdered(gaps: seq<(int, nat)>, from: int, to: int)
    requires GapsWithin(gaps, from, to)
    ensures from <= to
    decreases |gaps|
  {
    if gaps != [] {
      GapsWithinOrdered(gaps[1..], gaps[0].0 + gaps[0].1, to);
    }
  }

  /** The source from `from` to `to` with the gaps cut out. */
  ghost function Without(source: bytes, gaps: seq<(int, nat)>, from: int, to: int): bytes
    requires 0 <= from && to <= |source| && GapsWithin(gaps, from, to)
    decreases |gaps|
  {
    if gaps == [] then source[from..to]
    else
      GapsWithinOrdered(gaps[1..], gaps[0].0 + gaps[0].1, to);
      source[from..gaps[0].0] + Without(source, gaps[1..], gaps[0].0 + gaps[0].1, to)
  }

  lemma SliceJoin(source: bytes, from: int, mid: int, to: int)
    requires 0 <= from <= mid <= to <= |source|
    ensures source[from..mid] + source[mid..to] == source[from..to]
  {
  }

  lemma {:induction false} WithoutFrom(source: bytes, gaps: seq<(int, nat)>, from: int, mid: int, to: int)
    requires 0 <= from <= mid && to <= |source| && GapsWithin(gaps, mid, to)
    ensures GapsWithin(gaps, from, to) && mid <= to
    ensures source[from..mid] + Without(source, gaps, mid, to) == Without(source, gaps, from, to)
  {
    GapsWithinOrdered(gaps, mid, to);
    if gaps == [] {
      SliceJoin(source, from, mid, to);
    } else {
      var rest := Without(source, gaps[1..], gaps[0].0 + gaps[0].1, to);
      GapsWithinOrdered(gaps[1..], gaps[0].0 + gaps[0].1, to);
      SliceJoin(source, from, mid, gaps[0].0);
      assert source[from..mid] + (source[mid..gaps[0].0] + rest) == (source[from..mid] + source[mid..gaps[0].0]) + rest;
    }
  }

  /**
    * For every run over slices of one source, the delivered bytes are the source from the
    * starting position to the final one with exactly the declared gaps cut out.
    */
  lemma {:induction false} RunDeliversSource(source: bytes, p: Position, xs: seq<Arrival>)
    requires Holds(source, p) && AllSlices(source, xs)
    ensures var gaps := Gaps(Verdicts(p, xs));
            var end := After(p, xs);
            && Holds(source, end) && GapsWithin(gaps, p.next, end.next)
            && Delivered(p, xs) == Without(source, gaps, p.next, end.next)
    decreases |xs|
  {
    hide *;
    if xs == [] {
      NothingDelivered(source, p);
    } else {
      var x := xs[0].piece;
      var r := Receive(p, x);
      HeadIsSlice(source, xs);
      ReceiveIsSound(source, p, x);
      RunDeliversSource(source, r.pos, xs[1..]);
      RunSteps(p, xs);
      var gaps := Gaps(Verdicts(r.pos, xs[1..]));
      StartsInside(source, p);
      StartsInside(source, After(p, xs));
      WithoutFrom(source, gaps, From(p, r), r.pos.next, After(p, xs).next);
      assert [] + gaps == gaps;
      if From(p, r) > p.next {
        GapCutOut(source, gaps, p.next, From(p, r), After(p, xs).next);
      }
    }
  }

  lemma NothingDelivered(source: bytes, p: Position)
    requires Holds(source, p)
    ensures After(p, []) == p && Delivered(p, []) == [] && Verdicts(p, []) == [] && Gaps([]) == []
    ensures GapsWithin([], p.next, p.next) && Without(source, [], p.next, p.next) == []
  {
  }

  lemma HeadIsSlice(source: bytes, xs: seq<Arrival>)
    requires AllSlices(source, xs) && xs != []
    ensures xs[0].piece.SliceOf(source) && AllSlices(source, xs[1..])
  {
  }

  lemma StartsInside(source: bytes, p: Position)
    requires Holds(source, p)
    ensures 0 <= p.next <= |source|
  {
  }

  /** What one arrival adds to the run: its output, and its gap if it declares one. */
  lemma RunSteps(p: Position, xs: seq<Arrival>)
    requires xs != []
    ensures var r := Receive(p, xs[0].piece);
            && After(p, xs) == After(r.pos, xs[1..]) && Delivered(p, xs) == r.data + Delivered(r.pos, xs[1..])
            && From(p, r) >= p.next
            && Gaps(Verdicts(p, xs)) == (if From(p, r) > p.next then [(p.next, From(p, r) - p.next)] else [])
                                        + Gaps(Verdicts(r.pos, xs[1..]))
  {
    VerdictAt(p, xs[0].piece);
    hide Receive, Gaps;
    var r := Receive(p, xs[0].piece);
    var rest := Verdicts(r.pos, xs[1..]);
    if r.verdict.Some? {
      assert Verdicts(p, xs) == [r.verdict.value] + rest;
      FirstGap(r.verdict.value, rest);
    }
  }

  lemma FirstGap(v: Verdict, rest: seq<Verdict>)
    ensures Gaps([v] + rest) == (if v.finding.Gap? then [(v.at, v.finding.missing)] else []) + Gaps(rest)
  {
    assert ([v] + rest)[1..] == rest;
  }

  /** A gap at the very start cuts out nothing before it. */
  lemma GapCutOut(source: bytes, gaps: seq<(int, nat)>, at: int, to: int, end: int)
    requires 0 <= at < to && end <= |source| && GapsWithin(gaps, to, end)
    ensures var all := [(at, to - at)] + gaps;
            GapsWithin(all, at, end) && Without(source, all, at, end) == Without(source, gaps, to, end)
  {
    var all := [(at, to - at)] + gaps;
    assert all[1..] == gaps;
    GapsWithinOrdered(gaps, to, end);
  }

  /** A gap is always declared at the position reached so far. */
  lemma VerdictAt(p: Position, x: Piece)
    ensures var v := Receive(p, x).verdict;
            v.Some? && v.value.finding.Gap? ==> v.value.at == p.next && v.value.finding.missing > 0
    ensures var v := Receive(p, x).verdict;
            v.Some? ==> !v.value.finding.FlushGap?
  {
  }

  // ------------------------------------------------------------ when a hole is declared

  /** One arrival declares a gap exactly when it comes early while another piece waits that is not next. */
  lemma GapDeclaredIff(p: Position, x: Piece)
    requires x.data != []
    ensures var v := Receive(p, x).verdict;
            (v.Some? && v.value.finding.Gap?)
            <==> x.lo > p.next && p.held.Some? && p.held.value.lo != p.next
  {
  }

  // ------------------------------------------------------------ when a received byte is lost

  ghost predicate Received(p: Position, x: Piece, k: int) {
    x.Covers(k) || (p.held.Some? && p.held.value.Covers(k))
  }

  /** Byte k was in hand, not yet delivered, and this arrival neither delivers it nor keeps it. */
  ghost predicate Loses(p: Position, x: Piece, k: int) {
    var r := Receive(p, x);
    && k >= p.next && Received(p, x, k)
    && !(From(p, r) <= k < r.pos.next)
    && !(k >= r.pos.next && r.pos.held.Some? && r.pos.held.value.Covers(k))
  }

  /** The waiting piece is stale: an overlap moved the position into its middle without draining it. */
  ghost predicate Stale(p: Position) {
    p.held.Some? && p.held.value.lo < p.next < p.held.value.Hi()
  }

  /** An arrival loses bytes exactly when it comes early while a stale piece waits. */
  lemma LosesByteIff(p: Position, x: Piece)
    requires x.data != []
    ensures (exists k :: Loses(p, x, k)) <==> x.lo > p.next && Stale(p)
  {
    if x.lo > p.next && Stale(p) {
      assert Loses(p, x, p.next);
    } else {
      forall k ensures !Loses(p, x, k) {
        KeepsByte(p, x, k);
      }
    }
  }

  lemma KeepsByte(p: Position, x: Piece, k: int)
    requires x.data != [] && !(x.lo > p.next && Stale(p))
    ensures !Loses(p, x, k)
  {
  }

  // ------------------------------------------------------------ what a whole run loses

  /** Byte k waits behind the hole. */
  ghost predicate InHand(p: Position, k: int) { k >= p.next && p.held.Some? && p.held.value.Covers(k) }

  /** Some arrival outputs byte k. */
  ghost predicate Emitted(p: Position, xs: seq<Arrival>, k: int)
    decreases |xs|
  {
    xs != [] &&
    var r := Receive(p, xs[0].piece);
    From(p, r) <= k < r.pos.next || Emitted(r.pos, xs[1..], k)
  }

  /** Byte k is received before the position has passed it. */
  ghost predicate InTime(p: Position, xs: seq<Arrival>, k: int)
    decreases |xs|
  {
    || InHand(p, k)
    || (xs != [] && k >= p.next && xs[0].piece.Covers(k))
    || (xs != [] && InTime(Receive(p, xs[0].piece).pos, xs[1..], k))
  }

  /** No piece comes early while a stale one waits. */
  ghost predicate NeverEarlyOnStale(p: Position, xs: seq<Arrival>)
    decreases |xs|
  {
    xs != [] ==>
      && !(xs[0].piece.lo > p.next && Stale(p))
      && NeverEarlyOnStale(Receive(p, xs[0].piece).pos, xs[1..])
  }

  ghost predicate NonEmpty(xs: seq<Arrival>) { forall i :: 0 <= i < |xs| ==> xs[i].piece.data != [] }

  lemma PositionGrows(p: Position, x: Piece)
    requires x.data != []
    ensures p.next <= From(p, Receive(p, x)) && p.next <= Receive(p, x).pos.next
  {
  }

  /** A byte behind the position is never output any more, nor does it wait. */
  lemma {:induction false} NeverBack(p: Position, xs: seq<Arrival>, k: int)
    requires NonEmpty(xs) && k < p.next
    ensures !Emitted(p, xs, k) && !InHand(After(p, xs), k)
    decreases |xs|
  {
    if xs != [] {
      PositionGrows(p, xs[0].piece);
      hide Receive, From, InHand;
      assert NonEmpty(xs[1..]);
      NeverBack(Receive(p, xs[0].piece).pos, xs[1..], k);
    }
  }

  /** Without such an arrival every byte received in time is output or still waits. */
  lemma {:induction false} InTimeIsKept(p: Position, xs: seq<Arrival>, k: int)
    requires NonEmpty(xs) && NeverEarlyOnStale(p, xs) && InTime(p, xs, k)
    ensures Emitted(p, xs, k) || InHand(After(p, xs), k)
    decreases |xs|
  {
    if xs != [] {
      var x := xs[0].piece;
      var r := Receive(p, x);
      KeepsByte(p, x, k);
      hide Receive, Stale, From;
      if !(From(p, r) <= k < r.pos.next) {
        assert NonEmpty(xs[1..]);
        assert InTime(r.pos, xs[1..], k);
        InTimeIsKept(r.pos, xs[1..], k);
      }
    }
  }

  /** After such an arrival a byte received in time is gone. */
  lemma {:induction false} LostByte(p: Position, xs: seq<Arrival>) returns (k: int)
    requires NonEmpty(xs) && !NeverEarlyOnStale(p, xs)
    ensures k >= p.next && InTime(p, xs, k) && !Emitted(p, xs, k) && !InHand(After(p, xs), k)
    decreases |xs|
  {
    var x := xs[0].piece;
    var r := Receive(p, x);
    PositionGrows(p, x);
    assert NonEmpty(xs[1..]);
    if x.lo > p.next && Stale(p) {
      k := p.next;
      EarlyOnStale(p, x);
      hide Receive, From;
      NeverBack(r.pos, xs[1..], k);
    } else {
      hide Receive, Stale, From;
      k := LostByte(r.pos, xs[1..]);
    }
  }

  lemma EarlyOnStale(p: Position, x: Piece)
    requires x.data != [] && x.lo > p.next && Stale(p)
    ensures InHand(p, p.next) && p.next < From(p, Receive(p, x)) <= Receive(p, x).pos.next
  {
  }

  /**
    * "No received byte is lost", for whole runs: every byte received in time is output or still waits at the
    * end if and only if no piece ever came early while a stale one waited.
    */
  lemma NothingIsLostIff(p: Position, xs: seq<Arrival>)
    requires NonEmpty(xs)
    ensures (forall k :: InTime(p, xs, k) ==> Emitted(p, xs, k) || InHand(After(p, xs), k))
       <==> NeverEarlyOnStale(p, xs)
  {
    hide *;
    if NeverEarlyOnStale(p, xs) {
      forall k | InTime(p, xs, k) ensures Emitted(p, xs, k) || InHand(After(p, xs), k) {
        InTimeIsKept(p, xs, k);
      }
    } else {
      var k := LostByte(p, xs);
    }
  }

  /** Only an overlap that ends inside the waiting piece makes it stale. */
  lemma StaleOnlyByOverlap(p: Position, x: Piece)
    requires x.data != [] && !Stale(p)
    ensures Stale(Receive(p, x).pos)
       <==> x.lo < p.next < x.Hi() && p.held.Some? && p.held.value.lo < x.Hi() < p.held.value.Hi()
  {
  }

  /**
    * "No received byte is lost" fails: after bytes 0-1, an early piece 5-7, an overlap 1-5
    * that ends inside it, and an early piece 10-11, bytes 6 and 7 are skipped as part of
    * the declared gap 6-9 although they were received.
    */
  lemma ReceivedBytesCanBeLost()
    ensures var a := Piece(0, [0, 1]);
            var b := Piece(5, [5, 6, 7]);
            var c := Piece(1, [1, 2, 3, 4, 5]);
            var d := Piece(10, [10, 11]);
            var xs := [Arrival(a, 0.0), Arrival(b, 1.0), Arrival(c, 2.0), Arrival(d, 3.0)];
            && Delivered(Position(0, None), xs) == [0, 1, 2, 3, 4, 5, 10, 11]
            && Gaps(Verdicts(Position(0, None), xs)) == [(6, 4)]
            && Loses(After(Position(0, None), xs[..3]), d, 6) && Loses(After(Position(0, None), xs[..3]), d, 7)
  {
    var p0 := Position(0, None);
    var a, b := Piece(0, [0, 1]), Piece(5, [5, 6, 7]);
    var c, d := Piece(1, [1, 2, 3, 4, 5]), Piece(10, [10, 11]);
    var xs := [Arrival(a, 0.0), Arrival(b, 1.0), Arrival(c, 2.0), Arrival(d, 3.0)];
    var ra, rb := Receive(p0, a), Receive(Position(2, None), b);
    var rc, rd := Receive(Position(2, Some(b)), c), Receive(Position(6, Some(b)), d);
    assert ra == Outcome(Position(2, None), [0, 1], None);
    assert rb == Outcome(Position(2, Some(b)), [], None);
    assert rc.data == [2, 3, 4, 5] && rc.pos == Position(6, Some(b));
    assert rd == Outcome(Position(12, None), [10, 11], Some(Verdict(Gap(4), 6)));
    assert xs[1..] == [Arrival(b, 1.0), Arrival(c, 2.0), Arrival(d, 3.0)];
    assert xs[1..][1..] == [Arrival(c, 2.0), Arrival(d, 3.0)];
    assert xs[1..][1..][1..] == [Arrival(d, 3.0)];
    assert xs[1..][1..][1..][1..] == [];
    hide Receive, Loses;
    var ys := xs[..3];
    assert ys[0] == Arrival(a, 0.0) && ys[1..] == [Arrival(b, 1.0), Arrival(c, 2.0)];
    assert ys[1..][1..] == [Arrival(c, 2.0)] && ys[1..][1..][1..] == [];
    assert After(p0, ys) == After(Position(2, None), ys[1..]) == After(Position(2, Some(b)),
                                                                       ys[1..][1..]) == Position(6, Some(b));
    assert Delivered(Position(6, Some(b)), xs[1..][1..][1..]) == [10, 11];
    assert Delivered(Position(2, Some(b)), xs[1..][1..]) == [2, 3, 4, 5] + [10, 11];
    assert Delivered(Position(2, None), xs[1..]) == [] + ([2, 3, 4, 5] + [10, 11]);
    assert Verdicts(Position(6, Some(b)), xs[1..][1..][1..]) == [Verdict(Gap(4), 6)];
    assert Verdicts(Position(2, Some(b)), xs[1..][1..]) == [rc.verdict.value, Verdict(Gap(4), 6)];
    assert Verdicts(Position(2, None), xs[1..]) == [rc.verdict.value, Verdict(Gap(4), 6)];
    assert Verdicts(p0, xs) == [rc.verdict.value, Verdict(Gap(4), 6)];
    assert [rc.verdict.value, Verdict(Gap(4), 6)][1..] == [Verdict(Gap(4), 6)];
    assert [Verdict(Gap(4), 6)][1..] == [];
  }

  // ------------------------------------------------------------ losslessness

  /**
    * Arrivals of the whole source with local reordering only: re-sends of delivered bytes
    * anywhere, at most one piece waiting early at a time, and its hole filled in order.
    * `next` and `held` are what a reader of the list tracks; no reassembler is mentioned.
    */
  ghost predicate Orderly(source: bytes, next: int, held: Option<Piece>, xs: seq<Arrival>)
    decreases |xs|
  {
    if xs == [] then next == |source| && held.None?
    else
      var x := xs[0].piece;
      var rest := xs[1..];
      x.SliceOf(source) && Window(Position(next, held), x) &&
      if x.Hi() <= next then Orderly(source, next, held, rest)
      else if held.None? then
        if x.lo <= next then Orderly(source, x.Hi(), None, rest) else Orderly(source, next, Some(x), rest)
      else
        x.lo == next && x.Hi() <= held.value.lo &&
        if x.Hi() < held.value.lo then Orderly(source, x.Hi(), held, rest)
        else Orderly(source, held.value.Hi(), None, rest)
  }

  lemma {:induction false} OrderlyIsLossless(source: bytes, p: Position, xs: seq<Arrival>)
    requires Holds(source, p) && Orderly(source, p.next, p.held, xs)
    requires p.held.Some? ==> p.next < p.held.value.lo
    ensures AllSlices(source, xs) && InReach(p, xs)
    ensures Gaps(Verdicts(p, xs)) == [] && After(p, xs) == Position(|source|, None)
    decreases |xs|
  {
    if xs != [] {
      var x := xs[0].piece;
      var r := Receive(p, x);
      ReceiveIsSound(source, p, x);
      OrderlyIsLossless(source, r.pos, xs[1..]);
      hide Receive, Window;
      assert forall i :: 0 < i < |xs| ==> xs[i] == xs[1..][i - 1];
      var rest := Verdicts(r.pos, xs[1..]);
      if r.verdict.Some? {
        assert Verdicts(p, xs)[1..] == rest;
      }
    }
  }

  lemma OrderlyDelivers(source: bytes, xs: seq<Arrival>)
    requires Orderly(source, 0, None, xs)
    ensures Delivered(Position(0, None), xs) == source
  {
    OrderlyIsLossless(source, Position(0, None), xs);
    RunDeliversSource(source, Position(0, None), xs);
    hide Delivered, After, Verdicts, Orderly, InReach;
    assert source[0..|source|] == source;
  }

  /** Local reordering loses nothing and reports no gap: the output is the source, from any sequence number. */
  lemma LocalReorderingIsLossless(source: bytes, isn: int, base: Option<Seq32>, xs: seq<Arrival>)
    requires Orderly(source, 0, None, xs) && xs != [] && xs[0].piece.lo == 0
    ensures var (s, out) := FeedAll(Fresh(base), isn, xs);
            && out == source && s.buffer == [] && s.next == Some(Wrap(isn + |source|))
            && (forall issue :: issue in s.issues ==> NoGap(issue))
  {
    hide Delivered, After, Verdicts, Orderly, InReach, Wrap, FeedAll, Log, Gaps;
    OrderlyIsLossless(source, Position(0, None), xs);
    OrderlyDelivers(source, xs);
    StartedRunMirrors(isn, base, xs);
    NoGapsLogged(isn, Position(0, None), xs);
  }

  /** A run from the initial state mirrors the ideal run from offset 0. */
  lemma StartedRunMirrors(isn: int, base: Option<Seq32>, xs: seq<Arrival>)
    requires xs != [] && xs[0].piece.lo == 0 && InReach(Position(0, None), xs)
    ensures var p := Position(0, None);
            var (s, out) := FeedAll(Fresh(base), isn, xs);
            Mirrors(isn, s, After(p, xs)) && out == Delivered(p, xs) && s.issues == Log(isn, p, xs)
  {
    var p := Position(0, None);
    var started := Fresh(base).(next := Some(Wrap(isn)));
    assert xs[0].piece.data != [];
    StartsAnywhere(Fresh(base), isn, xs);
    hide FeedAll, After, InReach, Delivered, Log, Wrap;
    RunMirrors(isn, started, p, xs);
    assert FeedAll(started, isn, xs).0.issues == [] + Log(isn, p, xs) == Log(isn, p, xs);
  }

  /** The first data segment sets the position: feeding from no position is feeding from its own start. */
  lemma StartsAnywhere(s: StreamState, isn: int, xs: seq<Arrival>)
    requires s.next.None? && xs != [] && xs[0].piece.data != []
    ensures FeedAll(s, isn, xs) == FeedAll(s.(next := Some(Wrap(isn + xs[0].piece.lo))), isn, xs)
  {
    hide Classify;
  }

  ghost predicate NoGap(issue: Issue) { !issue.finding.Gap? && !issue.finding.FlushGap? }

  lemma {:induction false} NoGapsLogged(isn: int, p: Position, xs: seq<Arrival>)
    requires Gaps(Verdicts(p, xs)) == []
    ensures forall issue :: issue in Log(isn, p, xs) ==> NoGap(issue)
    decreases |xs|
  {
    if xs != [] {
      var r := Receive(p, xs[0].piece);
      VerdictAt(p, xs[0].piece);
      hide Receive;
      var vs, rest := Verdicts(p, xs), Log(isn, r.pos, xs[1..]);
      if r.verdict.Some? {
        assert vs[0] == r.verdict.value && vs[1..] == Verdicts(r.pos, xs[1..]);
        var first := Reported(isn, r.verdict, xs[0].ts).value;
        assert Log(isn, p, xs) == [first] + rest;
        assert NoGap(first);
      }
      NoGapsLogged(isn, r.pos, xs[1..]);
    }
  }

  // ------------------------------------------------------------ cutting, swapping, re-sending

  /** A range of the source. */
  datatype Span = Span(lo: nat, length: nat)

  /** How a sender's bytes may reach the capture: in place, as a swapped pair with re-sends between, or again. */
  datatype Move =
    | Deliver(data: bytes)
    | Swap(first: bytes, second: bytes, between: seq<Span>)
    | Resend(span: Span)

  function Cut(plan: seq<Move>): bytes {
    if plan == [] then []
    else
      (match plan[0]
       case Deliver(d) => d
       case Swap(a, b, _) => a + b
       case Resend(_) => []) + Cut(plan[1..])
  }

  /** A non-empty range below `at` that starts within 2^31 of it. */
  ghost predicate Again(span: Span, at: nat) { 0 < span.length && span.lo + span.length <= at < span.lo + HALF }

  ghost predicate AllAgain(spans: seq<Span>, at: nat) { forall i :: 0 <= i < |spans| ==> Again(spans[i], at) }

  /** Every piece is non-empty, a swapped pair and the reach of a re-send stay below 2^31. */
  ghost predicate Feasible(at: nat, plan: seq<Move>)
    decreases |plan|
  {
    plan != [] ==>
      match plan[0]
      case Deliver(d) => 0 < |d| < HALF && Feasible(at + |d|, plan[1..])
      case Swap(a, b, between) =>
        a != [] && b != [] && |a| + |b| < HALF && AllAgain(between, at) && Feasible(at + |a| + |b|, plan[1..])
      case Resend(span) => Again(span, at) && Feasible(at, plan[1..])
  }

  ghost function Resent(source: bytes, at: nat, spans: seq<Span>, ts: real): (xs: seq<Arrival>)
    requires AllAgain(spans, at) && at <= |source|
    ensures |xs| == |spans|
  {
    if spans == [] then []
    else
      var s := spans[0];
      assert AllAgain(spans[1..], at);
      [Arrival(Piece(s.lo, source[s.lo..s.lo + s.length]), ts)] + Resent(source, at, spans[1..], ts)
  }

  ghost function Arrivals(source: bytes, at: nat, plan: seq<Move>, ts: real): seq<Arrival>
    requires Feasible(at, plan) && at <= |source|
    requires source[at..] == Cut(plan)
    decreases |plan|
  {
    if plan == [] then []
    else
      match plan[0]
      case Deliver(d) =>
        assert source[at + |d|..] == Cut(plan[1..]);
        [Arrival(Piece(at, d), ts)] + Arrivals(source, at + |d|, plan[1..], ts)
      case Swap(a, b, between) =>
        var to := at + |a| + |b|;
        assert source[to..] == source[at..][|a + b|..] == Cut(plan[1..]);
        [Arrival(Piece(at + |a|, b), ts)]
        + (Resent(source, at, between, ts) + ([Arrival(Piece(at, a), ts)] + Arrivals(source, to, plan[1..], ts)))
      case Resend(span) =>
        assert Cut(plan) == [] + Cut(plan[1..]) == Cut(plan[1..]);
        [Arrival(Piece(span.lo, source[span.lo..span.lo + span.length]), ts)] + Arrivals(source, at, plan[1..], ts)
  }

  lemma OneInPlace(source: bytes, x: Arrival, rest: seq<Arrival>, next: nat)
    requires x.piece.SliceOf(source) && |x.piece.data| < HALF
    requires x.piece.lo == next && Orderly(source, x.piece.Hi(), None, rest)
    ensures Orderly(source, next, None, [x] + rest)
  {
    assert ([x] + rest)[1..] == rest;
  }

  lemma OneAgain(source: bytes, held: Option<Piece>, x: Arrival, rest: seq<Arrival>, next: nat)
    requires x.piece.SliceOf(source) && x.piece.Hi() <= next < x.piece.lo + HALF && Orderly(source, next, held, rest)
    ensures Orderly(source, next, held, [x] + rest)
  {
    assert ([x] + rest)[1..] == rest;
  }

  lemma {:induction false} ManyAgain(source: bytes, held: Option<Piece>, spans: seq<Span>, ts: real,
                                     rest: seq<Arrival>, next: nat)
    requires AllAgain(spans, next) && next <= |source| && Orderly(source, next, held, rest)
    ensures Orderly(source, next, held, Resent(source, next, spans, ts) + rest)
    decreases |spans|
  {
    hide Orderly;
    if spans == [] {
      assert [] + rest == rest;
    } else {
      var s := spans[0];
      assert AllAgain(spans[1..], next);
      ManyAgain(source, held, spans[1..], ts, rest, next);
      var x := Arrival(Piece(s.lo, source[s.lo..s.lo + s.length]), ts);
      OneAgain(source, held, x, Resent(source, next, spans[1..], ts) + rest, next);
      Reassociate([x], Resent(source, next, spans[1..], ts), rest);
    }
  }

  /** The early half of a swapped pair waits, re-sends come between, and the other half fills the hole. */
  lemma OnePairSwapped(source: bytes, early: Arrival, spans: seq<Span>, ts: real, filler: Arrival, rest: seq<Arrival>,
                       next: nat)
    requires early.piece.SliceOf(source) && filler.piece.SliceOf(source) && AllAgain(spans, next) && next <= |source|
    requires filler.piece.lo == next && early.piece.lo == filler.piece.Hi() && early.piece.Hi() - next < HALF
    requires Orderly(source, early.piece.Hi(), None, rest)
    ensures Orderly(source, next, None, [early] + (Resent(source, next, spans, ts) + ([filler] + rest)))
  {
    var tail := [filler] + rest;
    assert tail[1..] == rest;
    assert Orderly(source, next, Some(early.piece), tail);
    ManyAgain(source, Some(early.piece), spans, ts, tail, next);
    var later := Resent(source, next, spans, ts) + tail;
    assert ([early] + later)[1..] == later;
  }

  lemma Parts(source: bytes, at: nat, a: bytes, b: bytes, rest: bytes)
    requires at <= |source| && source[at..] == a + b + rest
    ensures at + |a| + |b| <= |source| && source[at + |a| + |b|..] == rest
    ensures source[at..at + |a|] == a && source[at + |a|..at + |a| + |b|] == b
  {
    var tail := source[at..];
    assert tail[..|a|] == a && tail[|a|..|a| + |b|] == b && tail[|a| + |b|..] == rest;
  }

  /** Any cut of a byte string with disjoint adjacent swaps and re-sends below the position is orderly. */
  lemma {:induction false} PlansAreOrderly(source: bytes, at: nat, plan: seq<Move>, ts: real)
    requires Feasible(at, plan) && at <= |source|
    requires source[at..] == Cut(plan)
    ensures Orderly(source, at, None, Arrivals(source, at, plan, ts))
    decreases |plan|
  {
    hide *;
    if plan == [] {
      NothingLeft(source, at, plan, ts);
    } else {
      match plan[0]
      case Deliver(d) =>
        DeliverFirst(source, at, plan, d, ts);
        PlansAreOrderly(source, at + |d|, plan[1..], ts);
        OneInPlace(source, Arrival(Piece(at, d), ts), Arrivals(source, at + |d|, plan[1..], ts), at);
      case Swap(a, b, between) =>
        SwapFirst(source, at, plan, a, b, between, ts);
        PlansAreOrderly(source, at + |a| + |b|, plan[1..], ts);
        PairInPlace(source, at, a, b, between, ts, Arrivals(source, at + |a| + |b|, plan[1..], ts));
      case Resend(span) =>
        ResendFirst(source, at, plan, span, ts);
        PlansAreOrderly(source, at, plan[1..], ts);
        OneAgain(source, None, Arrival(Piece(span.lo, source[span.lo..span.lo + span.length]), ts),
                 Arrivals(source, at, plan[1..], ts), at);
    }
  }

  lemma DeliverFirst(source: bytes, at: nat, plan: seq<Move>, d: bytes, ts: real)
    requires Feasible(at, plan) && at <= |source| && source[at..] == Cut(plan) && plan != [] && plan[0] == Deliver(d)
    ensures var x, to := Arrival(Piece(at, d), ts), at + |d|;
            && |d| < HALF && x.piece.SliceOf(source) && x.piece.Hi() == to <= |source|
            && Feasible(to, plan[1..]) && source[to..] == Cut(plan[1..])
            && Arrivals(source, at, plan, ts) == [x] + Arrivals(source, to, plan[1..], ts)
  {
    assert Cut(plan) == d + [] + Cut(plan[1..]);
    Parts(source, at, d, [], Cut(plan[1..]));
  }

  lemma SwapFirst(source: bytes, at: nat, plan: seq<Move>, a: bytes, b: bytes, between: seq<Span>, ts: real)
    requires Feasible(at, plan) && at <= |source| && source[at..] == Cut(plan)
    requires plan != [] && plan[0] == Swap(a, b, between)
    ensures var to := at + |a| + |b|;
            && a != [] && b != [] && |a| + |b| < HALF && AllAgain(between, at) && to <= |source|
            && source[at..at + |a|] == a && source[at + |a|..to] == b
            && Feasible(to, plan[1..]) && source[to..] == Cut(plan[1..])
            && Arrivals(source, at, plan, ts)
               == [Arrival(Piece(at + |a|, b), ts)]
               + (Resent(source, at, between, ts)
                  + ([Arrival(Piece(at, a), ts)] + Arrivals(source, to, plan[1..], ts)))
  {
    Parts(source, at, a, b, Cut(plan[1..]));
    hide AllAgain, Resent;
  }

  lemma ResendFirst(source: bytes, at: nat, plan: seq<Move>, span: Span, ts: real)
    requires Feasible(at, plan) && at <= |source| && source[at..] == Cut(plan) && plan != [] && plan[0] == Resend(span)
    ensures Feasible(at, plan[1..]) && source[at..] == Cut(plan[1..]) && span.lo + span.length <= |source|
    ensures var x := Arrival(Piece(span.lo, source[span.lo..span.lo + span.length]), ts);
            && x.piece.SliceOf(source) && x.piece.Hi() <= at < x.piece.lo + HALF
            && Arrivals(source, at, plan, ts) == [x] + Arrivals(source, at, plan[1..], ts)
  {
    assert Cut(plan) == [] + Cut(plan[1..]) == Cut(plan[1..]);
  }

  lemma PairInPlace(source: bytes, at: nat, a: bytes, b: bytes, between: seq<Span>, ts: real, rest: seq<Arrival>)
    requires a != [] && b != [] && |a| + |b| < HALF && AllAgain(between, at) && at + |a| + |b| <= |source|
    requires source[at..at + |a|] == a && source[at + |a|..at + |a| + |b|] == b
    requires Orderly(source, at + |a| + |b|, None, rest)
    ensures Orderly(source, at, None,
                    [Arrival(Piece(at + |a|, b), ts)] + (Resent(source, at, between, ts)
                                                         + ([Arrival(Piece(at, a), ts)] + rest)))
  {
    hide Orderly, Resent, AllAgain;
    OnePairSwapped(source, Arrival(Piece(at + |a|, b), ts), between, ts, Arrival(Piece(at, a), ts), rest, at);
  }

  lemma NothingLeft(source: bytes, at: nat, plan: seq<Move>, ts: real)
    requires Feasible(at, plan) && at <= |source| && source[at..] == Cut(plan) && plan == []
    ensures Orderly(source, at, None, Arrivals(source, at, plan, ts))
  {
  }
}
