// Replaying a stored session: the loop that selects, paces, rewrites and sends frames.
module ReplayOut {
  import opened Wrappers
  import opened Bytes
  import opened Storage
  import opened PacketQuery
  import opened Timing
  import opened Capture
  import Remap
  import Validate

  /** Every dimension is optional; together they combine with "and". */
  datatype Selection = Selection(packetIds: Option<set<nat>>, flowIds: Option<set<nat>>, startTs: Option<real>,
                                 endTs: Option<real>) {
    predicate Matches(row: PacketRow) {
      && (packetIds.Some? ==> row.id in packetIds.value)
      && (flowIds.Some? ==> row.flowId in flowIds.value)
      && (startTs.Some? ==> FromMicros(row.ts) >= startTs.value)
      && (endTs.Some? ==> FromMicros(row.ts) <= endTs.value)
    }
  }

  const EVERYTHING := Selection(None, None, None, None)

  datatype ReplayError =
    | NoSender
    | MissingPacket(id: nat) | MutationFailed | RemapFailed(why: Remap.RemapError) | SendFailed | CallbackFailed

  /** `pipeline` is the mutation pipeline as a function that may fail; an empty `remap` is no remapping. */
  datatype Job = Job(
    mode: ReplayMode, speed: Speed, maxGap: real, dryRun: bool, offset: int, limit: Option<int>,
    selection: Selection, pipeline: bytes -> Result<bytes, ReplayError>, remap: Remap.Config, validate: bool)
  {
    function Skip(): nat { if offset < 0 then 0 else offset }

    function Cap(): Option<real> { if mode == Faithful then None else Some(maxGap) }
  }

  // ------------------------------------------------------------ the plain pipeline

  /** A row's frame after mutation and remapping; none when validation rejects it. */
  ghost function Prepared(t: Tables, job: Job, row: PacketRow): Result<Option<bytes>, ReplayError> {
    match RawOf(t, row.id)
    case None => Err(MissingPacket(row.id))
    case Some(raw) =>
      match job.pipeline(raw)
      case Err(e) => Err(e)
      case Ok(mutated) =>
        match Remap.Remapped(mutated, job.remap)
        case Err(e) => Err(RemapFailed(e))
        case Ok(frame) => Ok(if job.validate && !Validate.Acceptable(frame, false) then None else Some(frame))
  }

  /** What one row contributes to the wire. */
  ghost function FrameOf(t: Tables, job: Job, row: PacketRow): seq<bytes> {
    if !job.selection.Matches(row) then []
    else
      var p := Prepared(t, job, row);
      if p.Ok? && p.value.Some? then [p.value.value] else []
  }

  ghost function FramesOf(t: Tables, job: Job, rows: seq<PacketRow>): seq<bytes> {
    if rows == [] then [] else FramesOf(t, job, rows[..|rows| - 1]) + FrameOf(t, job, rows[|rows| - 1])
  }

  /** The recorded lengths of the rows that contribute a frame. */
  ghost function LengthOf(t: Tables, job: Job, rows: seq<PacketRow>): nat {
    if rows == [] then 0
    else
      var last := rows[|rows| - 1];
      LengthOf(t, job, rows[..|rows| - 1]) + if FrameOf(t, job, last) != [] then last.length else 0
  }

  /** How many rows are rejected by validation. */
  ghost function RejectedIn(t: Tables, job: Job, rows: seq<PacketRow>): nat {
    if rows == [] then 0
    else
      var last := rows[|rows| - 1];
      RejectedIn(t, job, rows[..|rows| - 1])
      + if job.selection.Matches(last) && Prepared(t, job, last) == Ok(None) then 1 else 0
  }

  /** The recorded times of the selected rows: the ones the replay waits for. */
  function TimesOf(job: Job, rows: seq<PacketRow>): seq<real> {
    if rows == [] then []
    else
      var last := rows[|rows| - 1];
      TimesOf(job, rows[..|rows| - 1]) + if job.selection.Matches(last) then [FromMicros(last.ts)] else []
  }

  /** The rows from `skip` up to n. */
  function Part(rows: seq<PacketRow>, skip: nat, n: nat): seq<PacketRow>
    requires n <= |rows|
  {
    if n <= skip then [] else rows[skip..n]
  }

  lemma PartGrows(t: Tables, job: Job, rows: seq<PacketRow>, skip: nat, n: nat)
    requires n < |rows| && skip <= n
    ensures var p, q := Part(rows, skip, n), Part(rows, skip, n + 1);
            && FramesOf(t, job, q) == FramesOf(t, job, p) + FrameOf(t, job, rows[n])
            && LengthOf(t, job, q) == LengthOf(t, job, p) + (if FrameOf(t, job,
                                                                        rows[n]) != [] then rows[n].length else 0)
            && RejectedIn(t, job, q)
               == RejectedIn(t, job, p) + (if job.selection.Matches(rows[n])
                                              && Prepared(t, job, rows[n]) == Ok(None) then 1 else 0)
            && TimesOf(job, q) == TimesOf(job,
                                          p) + (if job.selection.Matches(rows[n]) then [FromMicros(rows[n].ts)] else [])
  {
    hide FrameOf, Prepared;
    var q := Part(rows, skip, n + 1);
    assert q[..|q| - 1] == Part(rows, skip, n) && q[|q| - 1] == rows[n];
  }

  lemma {:induction false} PartIsPrefix(t: Tables, job: Job, rows: seq<PacketRow>, skip: nat, n: nat)
    requires n <= |rows|
    ensures FramesOf(t, job, Part(rows, skip, n)) <= FramesOf(t, job, Part(rows, skip, |rows|))
    ensures TimesOf(job, Part(rows, skip, n)) <= TimesOf(job, Part(rows, skip, |rows|))
    decreases |rows| - n
  {
    hide FramesOf, FrameOf, TimesOf, LengthOf, RejectedIn, Prepared, Part;
    if n < |rows| {
      PartIsPrefix(t, job, rows, skip, n + 1);
      if n < skip {
        EmptyPart(rows, skip, n);
        EmptyPart(rows, skip, n + 1);
      } else {
        PartGrows(t, job, rows, skip, n);
      }
    }
  }

  lemma EmptyPart(rows: seq<PacketRow>, skip: nat, n: nat)
    requires n <= skip && n <= |rows|
    ensures Part(rows, skip, n) == []
  {
  }

  // ------------------------------------------------------------ the service

  /** How the visit of one row ends: the loop goes on, or the run is over. */
  datatype RowEnd = NextRow | LimitReached | StopRequested | Broken(error: ReplayError)

  /** The time the last wait was for. */
  ghost function Last(paced: seq<real>): Option<real> {
    if paced == [] then None else Some(paced[|paced| - 1])
  }

  lemma LastIs(paced: seq<real>, ts: real)
    ensures Last(paced + [ts]) == Some(ts)
  {
  }

  datatype ReplayStatus = ReplayStatus(
    packets: nat, bytes: nat, duration: real, stopped: bool, error: Option<ReplayError>, skipped: nat, failed: nat,
    timingDrift: real)

  /** The wire. */
  class Sender {
    var sent: seq<bytes>

    constructor ()
      ensures sent == []
    {
      sent := [];
    }

    method Send(frame: bytes) returns (ok: bool)
      modifies this
      ensures sent == if ok then old(sent) + [frame] else old(sent)
    {
      ok := *;
      if ok {
        sent := sent + [frame];
      }
    }
  }

  /** What a run's numbers mean, in terms of the rows it visited. */
  ghost predicate Accounts(t: Tables, job: Job, rows: seq<PacketRow>, visited: nat, frames: seq<bytes>,
                           packets: nat, length: nat, skipped: nat, failed: nat) {
    && visited <= |rows|
    && var part := Part(rows, job.Skip(), visited);
    && frames == FramesOf(t, job, part) && packets == |frames|
    && length == LengthOf(t, job, part) && failed == RejectedIn(t, job, part)
    && packets + skipped + failed == visited
    && (job.limit.Some? ==> packets <= if job.limit.value < 0 then 0 else job.limit.value)
  }

  /** The counters of a running replay; `sent` also counts the rows the offset passed over. */
  datatype Counters = Counters(packets: nat, bytes: nat, skipped: nat, failed: nat, sent: nat) {
    /** A row passed over, by the offset or by the selection. */
    function Skip(byOffset: bool): Counters {
      this.(skipped := skipped + 1, sent := if byOffset then sent + 1 else sent)
    }

    function Reject(): Counters { this.(failed := failed + 1) }

    function Count(row: PacketRow): Counters {
      this.(packets := packets + 1, bytes := bytes + row.length, sent := sent + 1)
    }
  }

  const NONE := Counters(0, 0, 0, 0, 0)

  /** Between rows: the counters, the offset counter and the times waited for. */
  ghost predicate Progress(t: Tables, job: Job, rows: seq<PacketRow>, n: nat, frames: seq<bytes>, c: Counters,
                           paced: seq<real>) {
    && Accounts(t, job, rows, n, frames, c.packets, c.bytes, c.skipped, c.failed)
    && (n <= job.Skip() ==> c.packets == 0) && c.sent == (if n < job.Skip() then n else job.Skip()) + c.packets
    && paced == TimesOf(job, Part(rows, job.Skip(), n))
  }

  lemma NothingVisited(t: Tables, job: Job, rows: seq<PacketRow>)
    ensures Progress(t, job, rows, 0, [], NONE, []) && Total(Waits([], job.Cap(), job.speed)) == 0.0
    ensures Last([]) == None
  {
  }

  lemma OffsetReached(t: Tables, job: Job, rows: seq<PacketRow>, n: nat, frames: seq<bytes>, c: Counters,
                      paced: seq<real>)
    requires Progress(t, job, rows, n, frames, c, paced)
    ensures c.sent < job.Skip() <==> n < job.Skip()
  {
    hide Accounts, Part, TimesOf;
  }

  lemma SkippedRow(t: Tables, job: Job, rows: seq<PacketRow>, n: nat, frames: seq<bytes>, c: Counters,
                   paced: seq<real>)
    requires Progress(t, job, rows, n, frames, c, paced) && n < |rows|
    requires n < job.Skip() || !job.selection.Matches(rows[n])
    ensures Progress(t, job, rows, n + 1, frames, c.Skip(n < job.Skip()), paced)
  {
    hide FramesOf, LengthOf, RejectedIn, TimesOf, Prepared;
    if job.Skip() <= n {
      hide Part;
      PartGrows(t, job, rows, job.Skip(), n);
    }
  }

  lemma RejectedRow(t: Tables, job: Job, rows: seq<PacketRow>, n: nat, frames: seq<bytes>, c: Counters,
                    paced: seq<real>)
    requires Progress(t, job, rows, n, frames, c, paced) && job.Skip() <= n < |rows|
    requires job.selection.Matches(rows[n]) && Prepared(t, job, rows[n]) == Ok(None)
    ensures Progress(t, job, rows, n + 1, frames, c.Reject(), paced + [FromMicros(rows[n].ts)])
  {
    hide FramesOf, LengthOf, RejectedIn, TimesOf, Prepared, Part;
    PartGrows(t, job, rows, job.Skip(), n);
  }

  lemma SentRow(t: Tables, job: Job, rows: seq<PacketRow>, n: nat, frames: seq<bytes>, c: Counters,
                paced: seq<real>, frame: bytes)
    requires Progress(t, job, rows, n, frames, c, paced) && job.Skip() <= n < |rows|
    requires job.selection.Matches(rows[n]) && Prepared(t, job, rows[n]) == Ok(Some(frame))
    requires job.limit.Some? ==> c.packets < job.limit.value
    ensures Progress(t, job, rows, n + 1, frames + [frame], c.Count(rows[n]), paced + [FromMicros(rows[n].ts)])
  {
    hide FramesOf, LengthOf, RejectedIn, TimesOf, Prepared, Part;
    PartGrows(t, job, rows, job.Skip(), n);
  }

  /** A finished replay: what it counted, sent and waited for, `cut` when a stop or an error ended it. */
  ghost predicate Finished(t: Tables, job: Job, n: nat, frames: seq<bytes>, c: Counters, cut: bool, paced: seq<real>) {
    var rows := InOrder(t.packets);
    && Accounts(t, job, rows, n, frames, c.packets, c.bytes, c.skipped, c.failed) && Paced(job, rows, n, cut, paced)
    && frames <= Wanted(t, job) && (!cut ==> frames == Wanted(t, job))
  }

  lemma FinishedMeans(t: Tables, job: Job, n: nat, frames: seq<bytes>, c: Counters, cut: bool, paced: seq<real>)
    requires Finished(t, job, n, frames, c, cut, paced)
    ensures n <= |InOrder(t.packets)| && Paced(job, InOrder(t.packets), n, cut, paced)
    ensures Accounts(t, job, InOrder(t.packets), n, frames, c.packets, c.bytes, c.skipped, c.failed)
    ensures frames <= Wanted(t, job) && (!cut ==> frames == Wanted(t, job))
  {
    hide InOrder, Paced, Wanted;
  }

  /** A run ends between rows when it is cut short, or at the last row or the limit. */
  lemma RunEnds(t: Tables, job: Job, n: nat, frames: seq<bytes>, c: Counters, cut: bool, paced: seq<real>)
    requires Progress(t, job, InOrder(t.packets), n, frames, c, paced)
    requires cut || n == |InOrder(t.packets)| || (job.limit.Some? && c.packets >= job.limit.value)
    ensures Finished(t, job, n, frames, c, cut, paced)
  {
    hide TimesOf, Part, FramesOf, LengthOf, RejectedIn, FrameOf, Prepared, InOrder, Wanted;
    WhatWasWanted(t, job, n, frames, c.packets, c.bytes, c.skipped, c.failed);
    PartIsPrefix(t, job, InOrder(t.packets), job.Skip(), n);
  }

  /** Or it is cut short after the wait for one more selected row. */
  lemma RunEndsWaiting(t: Tables, job: Job, n: nat, frames: seq<bytes>, c: Counters, paced: seq<real>)
    requires var rows := InOrder(t.packets);
             && Progress(t, job, rows, n, frames, c, paced)
             && job.Skip() <= n < |rows| && job.selection.Matches(rows[n])
    ensures Finished(t, job, n, frames, c, true, paced + [FromMicros(InOrder(t.packets)[n].ts)])
  {
    hide TimesOf, Part, FramesOf, LengthOf, RejectedIn, FrameOf, Prepared, InOrder, Wanted;
    var rows := InOrder(t.packets);
    WhatWasWanted(t, job, n, frames, c.packets, c.bytes, c.skipped, c.failed);
    PartGrows(t, job, rows, job.Skip(), n);
    PartIsPrefix(t, job, rows, job.Skip(), n + 1);
  }

  /** The rows a run waited for: the selected ones it visited and, when it was cut short, perhaps one more. */
  ghost predicate Paced(job: Job, rows: seq<PacketRow>, visited: nat, cut: bool, paced: seq<real>)
    requires visited <= |rows|
  {
    var done := TimesOf(job, Part(rows, job.Skip(), visited));
    && (paced == done || (cut && |paced| == |done| + 1 && done <= paced))
    && paced <= TimesOf(job, Part(rows, job.Skip(), |rows|))
  }

  class ReplayOutService {
    const tables: Tables
    const job: Job

    constructor (tables: Tables, job: Job)
      ensures this.tables == tables && this.job == job
    {
      this.tables, this.job := tables, job;
    }

    method Prepare(row: PacketRow) returns (r: Result<Option<bytes>, ReplayError>)
      ensures r == Prepared(tables, job, row)
    {
      hide Join, Payloads, Remap.Remapped, Validate.Acceptable;
      if row.id !in (set q | q in tables.packets :: q.id) {
        return Err(MissingPacket(row.id));
      }
      assert RawOf(tables, row.id).Some?;
      var raw := Join(Payloads(if row.id in tables.blocks then tables.blocks[row.id] else []));
      var mutated := job.pipeline(raw);
      if mutated.Err? {
        return Err(mutated.error);
      }
      var frame := Remap.RemapFrame(mutated.value, job.remap);
      if frame.Err? {
        return Err(RemapFailed(frame.error));
      }
      if job.validate {
        var valid, issues := Validate.ValidateFrame(frame.value, false);
        if !valid {
          return Ok(None);
        }
      }
      return Ok(Some(frame.value));
    }

    /** Waits out the gap before a frame recorded at `ts`; a stop may be requested meanwhile. */
    method Pace(clock: VirtualClock, previous: Option<real>, ts: real, ghost paced: seq<real>)
      returns (waited: real, stop: bool)
      requires previous == Last(paced)
      modifies clock
      ensures Total(Waits(paced + [ts], job.Cap(), job.speed)) == Total(Waits(paced, job.Cap(), job.speed)) + waited
      ensures clock.now == old(clock.now) + waited
    {
      hide Scale, Waits, Total;
      var gap := 0.0;
      if previous.Some? {
        gap := Scale(AtLeastZero(ts - previous.value), job.speed);
        if job.Cap().Some? {
          gap := Lesser(gap, job.Cap().value);
        }
      }
      WaitStep(paced, ts, job.Cap(), job.speed, gap);
      if gap > 0.0 {
        clock.Sleep(gap);
        stop := *;
        return gap, stop;
      }
      return 0.0, false;
    }

    /**
      * One replay on a virtual clock. A stop may be requested before any row and during any wait;
      * reading, rewriting, sending and the progress callback may fail.
      */
    method Run(sender: Sender, clock: VirtualClock)
      returns (status: ReplayStatus, ghost visited: nat, ghost frames: seq<bytes>, ghost paced: seq<real>)
      requires DistinctIds(tables.packets)
      modifies sender, clock
      ensures Accounts(tables, job, InOrder(tables.packets), visited, frames,
                       status.packets, status.bytes, status.skipped, status.failed)
      ensures sender.sent == if job.dryRun then old(sender.sent) else old(sender.sent) + frames
      ensures Paced(job, InOrder(tables.packets), visited, status.stopped || status.error.Some?, paced)
      ensures status.duration == Total(Waits(paced, job.Cap(), job.speed)) && status.timingDrift == 0.0
      ensures clock.now == old(clock.now) + status.duration
      ensures frames <= Wanted(tables, job) && (!status.stopped && status.error.None? ==> frames == Wanted(tables, job))
    {
      hide *;
      var started := clock.now;
      var c, scheduled, end := NONE, 0.0, NextRow;
      var previous: Option<real> := None;
      frames, paced, visited := [], [], 0;
      var rows := AllPackets(tables.packets);
      NothingVisited(tables, job, rows);
      if !job.dryRun {
        var refused: bool := *;
        if refused {
          RunEnds(tables, job, 0, frames, c, true, paced);
          FinishedMeans(tables, job, 0, frames, c, true, paced);
          status := ReplayStatus(c.packets, c.bytes, 0.0, false, Some(NoSender), c.skipped, c.failed, 0.0);
          return;
        }
      }
      var i := 0;
      while i < |rows|
        invariant 0 <= i <= |rows| && end.NextRow? && Progress(tables, job, rows, i, frames, c, paced)
        invariant sender.sent == if job.dryRun then old(sender.sent) else old(sender.sent) + frames
        invariant previous == Last(paced)
        invariant scheduled == Total(Waits(paced, job.Cap(), job.speed)) && clock.now == started + scheduled
        decreases |rows| - i
      {
        var waited;
        ghost var more;
        end, i, c, waited, previous, more, paced := Step(sender, clock, rows, i, c, previous, frames, paced);
        frames := frames + more;
        scheduled := scheduled + waited;
        if !end.NextRow? {
          break;
        }
      }
      visited := i;
      if end.NextRow? {
        RunEnds(tables, job, i, frames, c, false, paced);
      }
      FinishedMeans(tables, job, i, frames, c, end.StopRequested? || end.Broken?, paced);
      var duration := clock.now - started;
      status := ReplayStatus(c.packets, c.bytes, duration, end.StopRequested?,
                             if end.Broken? then Some(end.error) else None, c.skipped, c.failed, duration - scheduled);
    }

    /** One row of the loop: a stop, the offset, the limit, the selection, and what is selected. */
    method Step(sender: Sender, clock: VirtualClock, rows: seq<PacketRow>, n: nat, c: Counters,
                previous: Option<real>, ghost frames: seq<bytes>, ghost paced: seq<real>)
      returns (end: RowEnd, n': nat, c': Counters, waited: real, previous': Option<real>,
               ghost more: seq<bytes>, ghost paced': seq<real>)
      requires rows == InOrder(tables.packets) && n < |rows| && previous == Last(paced)
      requires Progress(tables, job, rows, n, frames, c, paced)
      modifies sender, clock
      ensures n' <= |rows| && (end.NextRow? ==> n' == n + 1)
      ensures if end.NextRow? then Progress(tables, job, rows, n', frames + more, c', paced')
              else Finished(tables, job, n', frames + more, c', !end.LimitReached?, paced')
      ensures previous' == Last(paced') && clock.now == old(clock.now) + waited
      ensures Total(Waits(paced', job.Cap(), job.speed)) == Total(Waits(paced, job.Cap(), job.speed)) + waited
      ensures sender.sent == old(sender.sent) + if job.dryRun then [] else more
    {
      hide *;
      end, n', c', waited, previous', more, paced' := NextRow, n, c, 0.0, previous, [], paced;
      assert frames + [] == frames && sender.sent + [] == sender.sent;
      var stop: bool := *;
      if stop {
        RunEnds(tables, job, n, frames, c, true, paced);
        end := StopRequested;
        return;
      }
      OffsetReached(tables, job, rows, n, frames, c, paced);
      if c.sent < job.Skip() {
        SkippedRow(tables, job, rows, n, frames, c, paced);
        n', c' := n + 1, c.Skip(true);
        return;
      }
      if job.limit.Some? && c.packets >= job.limit.value {
        RunEnds(tables, job, n, frames, c, false, paced);
        end := LimitReached;
        return;
      }
      if !job.selection.Matches(rows[n]) {
        SkippedRow(tables, job, rows, n, frames, c, paced);
        n', c' := n + 1, c.Skip(false);
        return;
      }
      end, n', c', waited, more := Replay(sender, clock, rows, n, c, previous, frames, paced);
      previous', paced' := Some(FromMicros(rows[n].ts)), paced + [FromMicros(rows[n].ts)];
      LastIs(paced, FromMicros(rows[n].ts));
    }

    /** A selected row: its wait, its frame, and the counters. */
    method Replay(sender: Sender, clock: VirtualClock, rows: seq<PacketRow>, n: nat, c: Counters,
                  previous: Option<real>, ghost frames: seq<bytes>, ghost paced: seq<real>)
      returns (end: RowEnd, n': nat, c': Counters, waited: real, ghost more: seq<bytes>)
      requires rows == InOrder(tables.packets) && job.Skip() <= n < |rows| && previous == Last(paced)
      requires Progress(tables, job, rows, n, frames, c, paced)
      requires job.selection.Matches(rows[n]) && (job.limit.Some? ==> c.packets < job.limit.value)
      modifies sender, clock
      ensures n' <= |rows| && (end.NextRow? ==> n' == n + 1) && !end.LimitReached?
      ensures var later := paced + [FromMicros(rows[n].ts)];
              && (if end.NextRow? then Progress(tables, job, rows, n', frames + more, c', later)
                  else Finished(tables, job, n', frames + more, c', true, later))
              && Total(Waits(later, job.Cap(), job.speed)) == Total(Waits(paced, job.Cap(), job.speed)) + waited
      ensures clock.now == old(clock.now) + waited
      ensures sender.sent == old(sender.sent) + if job.dryRun then [] else more
    {
      hide *;
      var row := rows[n];
      ghost var later := paced + [FromMicros(row.ts)];
      end, n', c', more := NextRow, n, c, [];
      assert frames + [] == frames && sender.sent + [] == sender.sent;
      var stopped, frame;
      waited, stopped, frame := Visit(sender, clock, previous, row, paced);
      if stopped || frame.Err? {
        RunEndsWaiting(tables, job, n, frames, c, paced);
        end := if stopped then StopRequested else Broken(frame.error);
        return;
      }
      n' := n + 1;
      if frame.value.None? {
        RejectedRow(tables, job, rows, n, frames, c, paced);
        c' := c.Reject();
        return;
      }
      SentRow(tables, job, rows, n, frames, c, paced, frame.value.value);
      c', more := c.Count(row), [frame.value.value];
      var raised: bool := *;
      if raised {
        RunEnds(tables, job, n', frames + more, c', true, later);
        end := Broken(CallbackFailed);
      }
    }

    /** Waits for a selected row and, unless stopped meanwhile, prepares and sends its frame. */
    method Visit(sender: Sender, clock: VirtualClock, previous: Option<real>, row: PacketRow, ghost paced: seq<real>)
      returns (waited: real, stopped: bool, r: Result<Option<bytes>, ReplayError>)
      requires previous == Last(paced)
      modifies sender, clock
      ensures Total(Waits(paced + [FromMicros(row.ts)], job.Cap(), job.speed))
           == Total(Waits(paced, job.Cap(), job.speed)) + waited
      ensures clock.now == old(clock.now) + waited
      ensures !stopped && r.Ok? ==> r == Prepared(tables, job, row)
      ensures sender.sent
           == old(sender.sent) + if !stopped && r.Ok? && r.value.Some? && !job.dryRun then [r.value.value] else []
    {
      hide *;
      r := Ok(None);
      waited, stopped := Pace(clock, previous, FromMicros(row.ts), paced);
      if !stopped {
        r := PrepareAndSend(sender, row);
      }
    }

    /** A row's frame, sent unless it is rejected or the run is dry. */
    method PrepareAndSend(sender: Sender, row: PacketRow) returns (r: Result<Option<bytes>, ReplayError>)
      modifies sender
      ensures r.Ok? ==> r == Prepared(tables, job, row)
      ensures sender.sent == old(sender.sent) + if r.Ok? && r.value.Some? && !job.dryRun then [r.value.value] else []
    {
      r := Prepare(row);
      if r.Ok? && r.value.Some? && !job.dryRun {
        var ok := sender.Send(r.value.value);
        if !ok {
          return Err(SendFailed);
        }
      }
    }
  }

  /** The gap computed in the loop is the next wait. */
  lemma WaitStep(paced: seq<real>, ts: real, cap: Option<real>, speed: Speed, gap: real)
    requires gap == if paced == [] then 0.0 else
                    var scaled := Scale(AtLeastZero(ts - paced[|paced| - 1]), speed);
                    if cap.Some? then Lesser(scaled, cap.value) else scaled
    ensures Total(Waits(paced + [ts], cap, speed)) == Total(Waits(paced, cap, speed)) + if gap > 0.0 then gap else 0.0
  {
    hide Scale, Waits, Total;
    assert (paced + [ts])[..|paced|] == paced;
    OneMoreWait(paced + [ts], cap, speed);
  }

  /** The plain pipeline: after the offset, in capture order, select, prepare, drop rejects, take the limit. */
  ghost function Wanted(t: Tables, job: Job): seq<bytes> {
    var rows := InOrder(t.packets);
    var frames := FramesOf(t, job, Part(rows, job.Skip(), |rows|));
    if job.limit.None? then frames else Limited(frames, if job.limit.value < 0 then 0 else job.limit.value)
  }

  lemma WhatWasWanted(t: Tables, job: Job, n: nat, frames: seq<bytes>, packets: nat, length: nat, skipped: nat,
                      failed: nat)
    requires Accounts(t, job, InOrder(t.packets), n, frames, packets, length, skipped, failed)
    ensures frames <= Wanted(t, job)
    ensures n == |InOrder(t.packets)| || (job.limit.Some? && packets >= job.limit.value) ==> frames == Wanted(t, job)
  {
    hide FramesOf, Part, InOrder, LengthOf, RejectedIn;
    PartIsPrefix(t, job, InOrder(t.packets), job.Skip(), n);
  }
}
