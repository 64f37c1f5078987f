// What a replay puts on the wire, and how long it takes.
module ReplayTheorems {
  import opened Wrappers
  import opened Bytes
  import opened Storage
  import opened Lists
  import opened PacketQuery
  import opened Timing
  import opened Capture
  import opened ReplayOut
  import Remap
  import Validate

  // ------------------------------------------------------------ time

  lemma {:induction false} TimesAreFromRows(job: Job, rows: seq<PacketRow>)
    ensures forall x :: x in TimesOf(job, rows) ==> exists r :: r in rows && FromMicros(r.ts) == x
  {
    hide FromMicros;
    if rows != [] {
      var init, last := rows[..|rows| - 1], rows[|rows| - 1];
      TimesAreFromRows(job, init);
      forall x | x in TimesOf(job, rows) ensures exists r :: r in rows && FromMicros(r.ts) == x {
        if x in TimesOf(job, init) {
          var r :| r in init && FromMicros(r.ts) == x;
          assert r in rows;
        } else {
          assert last in rows;
        }
      }
    }
  }

  lemma {:induction false} TimesAscend(job: Job, rows: seq<PacketRow>)
    requires SortedBy(NotAfter, rows)
    ensures Ascending(TimesOf(job, rows))
  {
    if rows != [] {
      var init, last := rows[..|rows| - 1], rows[|rows| - 1];
      TimesAscend(job, init);
      TimesAreFromRows(job, init);
      forall x | x in TimesOf(job, init) ensures x <= FromMicros(last.ts) {
        var r :| r in init && FromMicros(r.ts) == x;
        var k :| 0 <= k < |init| && init[k] == r;
        assert NotAfter(rows[k], last);
      }
      var times, before := TimesOf(job, rows), TimesOf(job, init);
      forall i, j | 0 <= i < j < |times| ensures times[i] <= times[j] {
        assert times[i] == before[i] && before[i] in before;
      }
    }
  }

  /**
    * On a virtual clock a faithful replay takes exactly the recorded time between the first and
    * the last frame it waited for, scaled: the planned schedule of those frames, without drift.
    */
  lemma FaithfulReplayTakesRecordedTime(t: Tables, job: Job, visited: nat, cut: bool, paced: seq<real>)
    requires job.mode == Faithful && visited <= |InOrder(t.packets)| && paced != []
    requires Paced(job, InOrder(t.packets), visited, cut, paced)
    ensures Waits(paced, job.Cap(), job.speed) == Planned(paced, Faithful, job.speed)
    ensures Total(Waits(paced, job.Cap(), job.speed)) == (paced[|paced| - 1] - paced[0]) / job.speed
  {
    hide InOrder, TimesOf, Waits, Planned, Total, Scale;
    var rows := InOrder(t.packets);
    InOrderKeepsContents(t.packets);
    var part := Part(rows, job.Skip(), |rows|);
    TimesAscend(job, part);
    FaithfulFollowsSchedule(paced, job.speed);
    FaithfulTelescopes(paced, job.speed);
  }

  // ------------------------------------------------------------ what may be sent

  /** A frame that a replay may send for a row: mutated, then remapped, then valid if that is asked for. */
  ghost predicate Sendable(t: Tables, job: Job, row: PacketRow, frame: bytes) {
    && job.selection.Matches(row) && RawOf(t, row.id).Some?
    && var mutated := job.pipeline(RawOf(t, row.id).value);
    && mutated.Ok? && Remap.Remapped(mutated.value, job.remap) == Ok(frame)
    && (job.validate ==> Validate.Acceptable(frame, false))
  }

  ghost predicate Increasing(places: seq<nat>) {
    forall i, j :: 0 <= i < j < |places| ==> places[i] < places[j]
  }

  lemma FrameIsSendable(t: Tables, job: Job, row: PacketRow)
    ensures |FrameOf(t, job, row)| <= 1
    ensures FrameOf(t, job, row) == [] ==> forall f :: !Sendable(t, job, row, f)
    ensures FrameOf(t, job, row) != [] ==> Sendable(t, job, row, FrameOf(t, job, row)[0])
  {
    hide RawOf, Remap.Remapped, Validate.Acceptable;
  }

  /**
    * The wanted frames are those of the rows at `places`, in row order and one for each: what that row may
    * send. The rows at no such place may send nothing.
    */
  lemma {:induction false} FramesAreSendable(t: Tables, job: Job, rows: seq<PacketRow>) returns (places: seq<nat>)
    ensures |places| == |FramesOf(t, job, rows)| && Increasing(places)
    ensures forall i :: 0 <= i < |places| ==>
                          places[i] < |rows| && Sendable(t, job, rows[places[i]], FramesOf(t, job, rows)[i])
    ensures forall k :: 0 <= k < |rows| && k !in places ==> forall f :: !Sendable(t, job, rows[k], f)
  {
    hide Sendable, FrameOf;
    places := [];
    if rows != [] {
      var init, last := rows[..|rows| - 1], rows[|rows| - 1];
      var before := FramesAreSendable(t, job, init);
      FrameIsSendable(t, job, last);
      if FrameOf(t, job, last) == [] {
        places := before;
      } else {
        places := before + [|init|];
        assert |init| == places[|before|];
      }
      forall k | 0 <= k < |rows| && k !in places ensures forall f :: !Sendable(t, job, rows[k], f) {
        if k < |init| {
          assert k !in before && rows[k] == init[k];
        }
      }
    }
  }

  // ------------------------------------------------------------ from capture to wire

  /** A replay that may choose among the packets but neither rejects nor rewrites any. */
  ghost predicate RewritesNothing(job: Job) {
    !job.validate && job.remap.IsEmpty() && forall raw :: job.pipeline(raw) == Ok(raw)
  }

  /** A replay that may select but neither skips, cuts short, rejects nor rewrites anything. */
  ghost predicate ChangesNothing(job: Job) {
    job.offset <= 0 && job.limit.None? && RewritesNothing(job)
  }

  /** A replay of everything, as recorded. */
  ghost predicate AsRecorded(job: Job) { job.selection == EVERYTHING && ChangesNothing(job) }

  ghost function RawFrames(ps: seq<Seen>): seq<bytes> {
    seq(|ps|, i requires 0 <= i < |ps| => ps[i].packet.raw)
  }

  /** What each stored row sends when nothing is left out or changed. */
  lemma RecordedFrame(t: Tables, job: Job, ps: seq<Seen>, row: PacketRow)
    requires PacketsAgree(t.packets, t.blocks, ps) && AsRecorded(job) && row in t.packets
    ensures 1 <= row.id <= |ps| && FrameOf(t, job, row) == [ps[row.id - 1].packet.raw]
  {
    hide PacketsAgree, RawOf;
    CapturedBytesComeBack(t, ps);
  }

  lemma {:induction false} RecordedFrames(t: Tables, job: Job, ps: seq<Seen>, rows: seq<PacketRow>)
    requires PacketsAgree(t.packets, t.blocks, ps) && AsRecorded(job) && forall r :: r in rows ==> r in t.packets
    ensures forall r :: r in rows ==> 1 <= r.id <= |ps|
    ensures FramesOf(t, job, rows) == seq(|rows|, i requires 0 <= i < |rows| => ps[rows[i].id - 1].packet.raw)
  {
    hide PacketsAgree, AsRecorded, FrameOf;
    forall r | r in rows ensures 1 <= r.id <= |ps| {
      RecordedFrame(t, job, ps, r);
    }
    if rows != [] {
      var init, last := rows[..|rows| - 1], rows[|rows| - 1];
      RecordedFrames(t, job, ps, init);
      RecordedFrame(t, job, ps, last);
    }
  }

  lemma {:induction false} SortKeepsSorted<T(!new)>(leq: (T, T) -> bool, s: seq<T>)
    requires SortedBy(leq, s)
    ensures Sort(leq, s) == s
  {
    if s != [] {
      SortKeepsSorted(leq, s[1..]);
      assert |s| > 1 ==> leq(s[0], s[1]);
      assert [s[0]] + s[1..] == s;
    }
  }

  /**
    * Capture, then replay: the wanted frames of a session that agrees with captured packets are
    * those packets' frames, byte for byte, in order of recorded time and then of capture; when
    * no recorded time steps back, that is the captured sequence itself.
    */
  lemma ReplayReproducesCapture(t: Tables, job: Job, ps: seq<Seen>)
    requires Agreement(t, ps) && AsRecorded(job)
    ensures |InOrder(t.packets)| == |ps| && forall r :: r in InOrder(t.packets) ==> 1 <= r.id <= |ps|
    ensures Wanted(t, job)
         == seq(|ps|, i requires 0 <= i < |ps| => ps[InOrder(t.packets)[i].id - 1].packet.raw)
    ensures (forall i, j :: 0 <= i < j < |ps| ==> ToMicros(ps[i].packet.ts) <= ToMicros(ps[j].packet.ts)) ==>
              Wanted(t, job) == RawFrames(ps)
  {
    hide *;
    var rows := InOrder(t.packets);
    AgreementHasPackets(t, ps);
    InOrderKeepsContents(t.packets);
    RecordedFrames(t, job, ps, rows);
    RecordedChangesNothing(job);
    EverythingIsWanted(t, job);
    if forall i, j :: 0 <= i < j < |ps| ==> ToMicros(ps[i].packet.ts) <= ToMicros(ps[j].packet.ts) {
      CaptureOrder(t, ps);
      InCaptureOrder(t, job, ps);
    }
  }

  lemma AgreementHasPackets(t: Tables, ps: seq<Seen>)
    requires Agreement(t, ps)
    ensures PacketsAgree(t.packets, t.blocks, ps) && |t.packets| == |ps|
  {
    hide FlowsAgree, FlowsSeparate, EventsAgree, Records, Holds;
  }

  lemma RecordedChangesNothing(job: Job)
    requires AsRecorded(job)
    ensures ChangesNothing(job)
  {
  }

  lemma EverythingIsWanted(t: Tables, job: Job)
    requires ChangesNothing(job)
    ensures Wanted(t, job) == FramesOf(t, job, InOrder(t.packets))
  {
    hide InOrder, FramesOf;
    var rows := InOrder(t.packets);
    assert Part(rows, job.Skip(), |rows|) == rows;
  }

  lemma InCaptureOrder(t: Tables, job: Job, ps: seq<Seen>)
    requires PacketsAgree(t.packets, t.blocks, ps) && InOrder(t.packets) == t.packets
    requires forall r :: r in t.packets ==> 1 <= r.id <= |ps|
    ensures seq(|t.packets|, i requires 0 <= i < |t.packets| => ps[t.packets[i].id - 1].packet.raw) == RawFrames(ps)
  {
    hide ToMicros, Holds, InOrder;
    forall i | 0 <= i < |ps| ensures t.packets[i].id == i + 1 {
      assert Records(t.packets[i], i + 1, ps[i].packet);
    }
  }

  lemma CaptureOrder(t: Tables, ps: seq<Seen>)
    requires PacketsAgree(t.packets, t.blocks, ps)
    requires forall i, j :: 0 <= i < j < |ps| ==> ToMicros(ps[i].packet.ts) <= ToMicros(ps[j].packet.ts)
    ensures InOrder(t.packets) == t.packets
  {
    hide ToMicros, Join, Payloads;
    forall i, j | 0 <= i < j < |t.packets| ensures NotAfter(t.packets[i], t.packets[j]) {
      assert Records(t.packets[i], i + 1, ps[i].packet) && Records(t.packets[j], j + 1, ps[j].packet);
    }
    SortKeepsSorted(NotAfter, t.packets);
  }

  // ------------------------------------------------------------ a selection from capture to wire

  /** Captured packet number i is asked for: by id, by the flow it is stored with, and by its stored time. */
  ghost predicate Chosen(sel: Selection, t: Tables, ps: seq<Seen>, i: nat)
    requires i < |ps| == |t.packets|
  {
    var time := FromMicros(ToMicros(ps[i].packet.ts));
    && (sel.packetIds.None? || i + 1 in sel.packetIds.value)
    && (sel.flowIds.None? || t.packets[i].flowId in sel.flowIds.value)
    && (sel.startTs.None? || sel.startTs.value <= time)
    && (sel.endTs.None? || time <= sel.endTs.value)
  }

  /** Packet i was stored with an earlier time than packet j, or with the same and before it. */
  ghost predicate Before(ps: seq<Seen>, i: nat, j: nat)
    requires i < |ps| && j < |ps|
  {
    var a, b := ToMicros(ps[i].packet.ts), ToMicros(ps[j].packet.ts);
    a < b || (a == b && i < j)
  }

  lemma RecordAt(t: Tables, ps: seq<Seen>, k: nat)
    requires PacketsAgree(t.packets, t.blocks, ps) && k < |t.packets|
    ensures |t.packets| == |ps| && t.packets[k].id == k + 1 && t.packets[k].ts == ToMicros(ps[k].packet.ts)
  {
    hide Holds, ToMicros;
    assert Records(t.packets[k], k + 1, ps[k].packet);
  }

  lemma RowAt(t: Tables, ps: seq<Seen>, row: PacketRow)
    requires PacketsAgree(t.packets, t.blocks, ps) && row in t.packets
    ensures 1 <= row.id <= |ps| == |t.packets| && t.packets[row.id - 1] == row
    ensures row.ts == ToMicros(ps[row.id - 1].packet.ts) && RawOf(t, row.id) == Some(ps[row.id - 1].packet.raw)
  {
    hide *;
    CapturedBytesComeBack(t, ps);
    var k :| 0 <= k < |t.packets| && t.packets[k] == row;
    RecordAt(t, ps, k);
  }

  /** What a row may send when nothing is changed: its packet's bytes, if the packet is chosen, and nothing else. */
  lemma SendableIsChosen(t: Tables, job: Job, ps: seq<Seen>, row: PacketRow, frame: bytes)
    requires PacketsAgree(t.packets, t.blocks, ps) && RewritesNothing(job) && row in t.packets
    ensures 1 <= row.id <= |ps| == |t.packets|
    ensures Sendable(t, job, row, frame)
       <==> Chosen(job.selection, t, ps, row.id - 1) && frame == ps[row.id - 1].packet.raw
  {
    RowAt(t, ps, row);
    hide RawOf, PacketsAgree, ToMicros, Validate.Acceptable;
    assert forall raw :: Remap.Remapped(raw, job.remap) == Ok(raw);
    hide Remap.Remapped;
  }

  lemma RowsAreOrdered(t: Tables, ps: seq<Seen>, k: nat, l: nat)
    requires PacketsAgree(t.packets, t.blocks, ps) && k < l < |InOrder(t.packets)|
    ensures var rows := InOrder(t.packets);
            && 1 <= rows[k].id <= |ps| && 1 <= rows[l].id <= |ps|
            && Before(ps, rows[k].id - 1, rows[l].id - 1)
  {
    hide *;
    var rows := InOrder(t.packets);
    InOrderKeepsContents(t.packets);
    RowAt(t, ps, rows[k]);
    RowAt(t, ps, rows[l]);
    CapturedBytesComeBack(t, ps);
    InOrderIsStrict(t.packets, k, l);
    SortedAt(rows, k, l);
    KeysDecide(ps, rows[k], rows[l]);
  }

  lemma SortedAt(rows: seq<PacketRow>, k: nat, l: nat)
    requires SortedBy(NotAfter, rows) && k < l < |rows|
    ensures NotAfter(rows[k], rows[l])
  {
  }

  lemma KeysDecide(ps: seq<Seen>, a: PacketRow, b: PacketRow)
    requires 1 <= a.id <= |ps| && 1 <= b.id <= |ps| && a.id != b.id && NotAfter(a, b)
    requires a.ts == ToMicros(ps[a.id - 1].packet.ts) && b.ts == ToMicros(ps[b.id - 1].packet.ts)
    ensures Before(ps, a.id - 1, b.id - 1)
  {
    hide ToMicros;
  }

  /**
    * From capture to wire: of a session that agrees with captured packets, a job that only selects sends exactly
    * the frames of the chosen packets, each once, byte for byte, in order of stored time and then of capture.
    */
  lemma SelectedPacketsAreSent(t: Tables, job: Job, ps: seq<Seen>) returns (places: seq<nat>)
    requires Agreement(t, ps) && ChangesNothing(job)
    ensures |t.packets| == |ps| && |Wanted(t, job)| == |places|
    ensures forall k :: 0 <= k < |places| ==> places[k] < |ps| && Wanted(t, job)[k] == ps[places[k]].packet.raw
    ensures forall i :: 0 <= i < |ps| ==> (i in places <==> Chosen(job.selection, t, ps, i))
    ensures forall k, l :: 0 <= k < l < |places| ==> Before(ps, places[k], places[l])
  {
    hide *;
    var rows := InOrder(t.packets);
    AgreementHasPackets(t, ps);
    InOrderKeepsContents(t.packets);
    EverythingIsWanted(t, job);
    NothingRewritten(job);
    var at := FramesAreSendable(t, job, rows);
    places := PlacesOf(t, job, ps, rows, at);
    forall k, l | 0 <= k < l < |places| ensures Before(ps, places[k], places[l]) {
      IncreasingAt(at, k, l);
      RowsAreOrdered(t, ps, at[k], at[l]);
    }
  }

  lemma IncreasingAt(at: seq<nat>, k: nat, l: nat)
    requires Increasing(at) && k < l < |at|
    ensures at[k] < at[l]
  {
  }

  /** The packet numbers of the sending rows. */
  lemma PlacesOf(t: Tables, job: Job, ps: seq<Seen>, rows: seq<PacketRow>, at: seq<nat>) returns (places: seq<nat>)
    requires PacketsAgree(t.packets, t.blocks, ps) && RewritesNothing(job) && |t.packets| == |ps|
    requires (forall r :: r in rows <==> r in t.packets) && |at| == |FramesOf(t, job, rows)|
    requires forall i :: 0 <= i < |at| ==> at[i] < |rows| && Sendable(t, job, rows[at[i]], FramesOf(t, job, rows)[i])
    requires forall k :: 0 <= k < |rows| && k !in at ==> forall f :: !Sendable(t, job, rows[k], f)
    ensures |places| == |at|
    ensures forall k :: 0 <= k < |at| ==>
                          && places[k] == rows[at[k]].id - 1 < |ps|
                          && FramesOf(t, job, rows)[k] == ps[places[k]].packet.raw
    ensures forall i :: 0 <= i < |ps| ==> (i in places <==> Chosen(job.selection, t, ps, i))
  {
    hide *;
    var frames := FramesOf(t, job, rows);
    places := [];
    for k := 0 to |at|
      invariant |places| == k
      invariant forall j :: 0 <= j < k ==>
                              && places[j] == rows[at[j]].id - 1 < |ps| && frames[j] == ps[places[j]].packet.raw
                              && Chosen(job.selection, t, ps, places[j])
    {
      assert rows[at[k]] in rows;
      SendableIsChosen(t, job, ps, rows[at[k]], frames[k]);
      places := places + [rows[at[k]].id - 1];
    }
    forall i | 0 <= i < |ps| ensures i in places <==> Chosen(job.selection, t, ps, i) {
      if Chosen(job.selection, t, ps, i) {
        ChosenIsSent(t, job, ps, rows, at, i);
        var k :| 0 <= k < |at| && rows[at[k]].id == i + 1;
        assert places[k] == i;
      }
    }
  }

  lemma ChosenIsSent(t: Tables, job: Job, ps: seq<Seen>, rows: seq<PacketRow>, at: seq<nat>, i: nat)
    requires PacketsAgree(t.packets, t.blocks, ps) && RewritesNothing(job) && i < |t.packets| == |ps|
    requires (forall r :: r in rows <==> r in t.packets) && forall k :: 0 <= k < |at| ==> at[k] < |rows|
    requires forall k :: 0 <= k < |rows| && k !in at ==> forall f :: !Sendable(t, job, rows[k], f)
    requires Chosen(job.selection, t, ps, i)
    ensures exists k :: 0 <= k < |at| && rows[at[k]].id == i + 1
  {
    hide *;
    RecordAt(t, ps, i);
    var row := t.packets[i];
    assert row in t.packets;
    SendableIsChosen(t, job, ps, row, ps[i].packet.raw);
    var k :| 0 <= k < |rows| && rows[k] == row;
    assert k in at;
    var j :| 0 <= j < |at| && at[j] == k;
  }

  lemma NothingRewritten(job: Job)
    requires ChangesNothing(job)
    ensures RewritesNothing(job)
  {
  }

  // ------------------------------------------------------------ with an offset and a limit

  /** The frames of the chosen packets of a list, in its order. */
  ghost function ChosenFrames(sel: Selection, t: Tables, ps: seq<Seen>, order: seq<nat>): seq<bytes>
    requires |ps| == |t.packets| && forall k :: 0 <= k < |order| ==> order[k] < |ps|
  {
    if order == [] then []
    else
      var i := order[|order| - 1];
      ChosenFrames(sel, t, ps, order[..|order| - 1]) + if Chosen(sel, t, ps, i) then [ps[i].packet.raw] else []
  }

  /** `order` lists all captured packets by stored time and then by capture. */
  ghost predicate InTimeOrder(ps: seq<Seen>, order: seq<nat>) {
    && |order| == |ps| && (forall k :: 0 <= k < |order| ==> order[k] < |ps|)
    && forall k, l :: 0 <= k < l < |order| ==> Before(ps, order[k], order[l])
  }

  lemma {:induction false} FramesAreChosen(t: Tables, job: Job, ps: seq<Seen>, rows: seq<PacketRow>, order: seq<nat>)
    requires PacketsAgree(t.packets, t.blocks, ps) && RewritesNothing(job) && |t.packets| == |ps|
    requires |order| == |rows| && forall r :: r in rows ==> r in t.packets
    requires forall k :: 0 <= k < |order| ==> order[k] == rows[k].id - 1 < |ps|
    ensures FramesOf(t, job, rows) == ChosenFrames(job.selection, t, ps, order)
  {
    hide PacketsAgree, RewritesNothing, FrameOf, Chosen, Sendable;
    if rows != [] {
      var n := |rows| - 1;
      FramesAreChosen(t, job, ps, rows[..n], order[..n]);
      FrameIsSendable(t, job, rows[n]);
      SendableIsChosen(t, job, ps, rows[n], ps[order[n]].packet.raw);
      if FrameOf(t, job, rows[n]) != [] {
        SendableIsChosen(t, job, ps, rows[n], FrameOf(t, job, rows[n])[0]);
      }
    }
  }

  /**
    * The same with an offset and a limit: of all packets in time order those from the offset on are looked at,
    * and of the chosen ones as many are sent as the limit allows; a negative offset skips nothing, a negative
    * limit sends nothing.
    */
  lemma OffsetAndLimitApply(t: Tables, job: Job, ps: seq<Seen>) returns (order: seq<nat>)
    requires Agreement(t, ps) && RewritesNothing(job)
    ensures |t.packets| == |ps| && InTimeOrder(ps, order)
    ensures var from := if job.offset <= 0 then order else if job.offset <= |ps| then order[job.offset..] else [];
            var frames := ChosenFrames(job.selection, t, ps, from);
            Wanted(t, job) == if job.limit.None? || job.limit.value >= |frames| then frames
                              else if job.limit.value <= 0 then [] else frames[..job.limit.value]
  {
    hide *;
    var rows := InOrder(t.packets);
    AgreementHasPackets(t, ps);
    InOrderKeepsContents(t.packets);
    order := Numbers(t, ps, rows);
    NumbersInOrder(t, ps, order);
    var from := if job.offset <= 0 then order else if job.offset <= |ps| then order[job.offset..] else [];
    var part := if job.offset <= 0 then rows else if job.offset <= |ps| then rows[job.offset..] else [];
    FramesAreChosen(t, job, ps, part, from);
    WantedIs(t, job, part);
  }

  lemma WantedIs(t: Tables, job: Job, part: seq<PacketRow>)
    requires var rows := InOrder(t.packets);
             part == if job.offset <= 0 then rows else if job.offset <= |rows| then rows[job.offset..] else []
    ensures var frames := FramesOf(t, job, part);
            Wanted(t, job) == if job.limit.None? || job.limit.value >= |frames| then frames
                              else if job.limit.value <= 0 then [] else frames[..job.limit.value]
  {
    hide InOrder, FramesOf;
    var rows := InOrder(t.packets);
    assert Part(rows, job.Skip(), |rows|) == part;
  }

  lemma Numbers(t: Tables, ps: seq<Seen>, rows: seq<PacketRow>) returns (order: seq<nat>)
    requires PacketsAgree(t.packets, t.blocks, ps) && forall r :: r in rows <==> r in t.packets
    ensures |order| == |rows| && forall k :: 0 <= k < |order| ==> order[k] == rows[k].id - 1 < |ps|
  {
    hide *;
    order := [];
    for k := 0 to |rows|
      invariant |order| == k && forall j :: 0 <= j < k ==> order[j] == rows[j].id - 1 < |ps|
    {
      assert rows[k] in rows;
      RowAt(t, ps, rows[k]);
      order := order + [rows[k].id - 1];
    }
  }

  lemma NumbersInOrder(t: Tables, ps: seq<Seen>, order: seq<nat>)
    requires PacketsAgree(t.packets, t.blocks, ps) && |InOrder(t.packets)| == |ps| == |order|
    requires forall k :: 0 <= k < |order| ==> order[k] == InOrder(t.packets)[k].id - 1 < |ps|
    ensures InTimeOrder(ps, order)
  {
    hide PacketsAgree, Before, InOrder;
    forall k, l | 0 <= k < l < |order| ensures Before(ps, order[k], order[l]) {
      RowsAreOrdered(t, ps, k, l);
    }
  }
}
