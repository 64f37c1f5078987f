// The capture loop: parsed packets into tracker and storage, in batches, with a failure
// possible at every step.
module Capture {
  import opened Wrappers
  import opened Bytes
  import opened Packets
  import opened FlowTracker
  import opened Storage

  // ------------------------------------------------------------ flush policy

  datatype FlushMode = EveryPackets | EveryInterval | NeverFlush | OtherMode

  datatype FlushPolicy = FlushPolicy(mode: FlushMode, packets: int, seconds: real) {
    predicate ShouldFlush(pending: nat, since: real, now: real) {
      match mode
      case NeverFlush => false
      case EveryInterval => now - since >= seconds
      case EveryPackets => pending >= packets
      case OtherMode => pending >= 1
    }

    /** What may wait after a packet: so many packets, the last of them this long after the last commit. */
    predicate Allows(pending: nat, age: real) {
      && (mode == EveryPackets && pending > 0 ==> pending < packets)
      && (mode == EveryInterval && pending > 0 ==> age < seconds)
      && (mode == OtherMode ==> pending == 0)
    }
  }

  lemma FlushedOrAllowed(policy: FlushPolicy, pending: nat, last: real, now: real)
    ensures if policy.ShouldFlush(pending, last, now) then policy.mode != NeverFlush
            else policy.Allows(pending, now - last)
    ensures policy.Allows(0, 0.0)
  {
  }

  // ------------------------------------------------------------ what the capture sees

  /** An event to be stored with the packet that caused it. */
  datatype EventDraft = EventDraft(ts: real, kind: string, flowId: Option<nat>, summary: string)

  /** A packet and the events the generator and the stream engine raise for it. */
  datatype Seen = Seen(packet: ParsedPacket, events: seq<EventDraft>)

  /** A captured frame: parsing it failed, or gave a packet. */
  datatype Frame = Malformed | Parsed(seen: Seen)

  function ParsedOf(frames: seq<Frame>): seq<Seen> {
    if frames == [] then []
    else
      var before := ParsedOf(frames[..|frames| - 1]);
      var last := frames[|frames| - 1];
      if last.Parsed? then before + [last.seen] else before
  }

  // ------------------------------------------------------------ what the tables hold after a list of packets

  function EventOf(e: EventDraft, packetId: Option<nat>): EventRow {
    EventRow(ToMicros(e.ts), e.kind, e.flowId, e.summary, packetId)
  }

  function WithEvents(t: Tables, events: seq<EventDraft>, packetId: Option<nat>): Tables {
    if events == [] then t
    else WithEvent(WithEvents(t, events[..|events| - 1], packetId), EventOf(events[|events| - 1], packetId))
  }

  function StoreOne(t: Tables, k: TrackerState, s: Seen): Tables {
    var flow := Counted(FlowFor(k, s.packet), s.packet);
    WithEvents(WithFlow(WithPacket(t, s.packet, flow.id), flow), s.events, Some(NextId(t.packets)))
  }

  function Tracked(ps: seq<Seen>): TrackerState {
    if ps == [] then NO_FLOWS else Track(Tracked(ps[..|ps| - 1]), ps[|ps| - 1].packet)
  }

  function Stored(ps: seq<Seen>): Tables {
    if ps == [] then EMPTY else StoreOne(Stored(ps[..|ps| - 1]), Tracked(ps[..|ps| - 1]), ps[|ps| - 1])
  }

  // ------------------------------------------------------------ what agreement means

  function CountOf(rows: seq<PacketRow>, id: nat): nat {
    if rows == [] then 0 else CountOf(rows[..|rows| - 1], id) + if rows[|rows| - 1].flowId == id then 1 else 0
  }

  function BytesOf(rows: seq<PacketRow>, id: nat): nat {
    if rows == [] then 0
    else BytesOf(rows[..|rows| - 1], id) + if rows[|rows| - 1].flowId == id then rows[|rows| - 1].length else 0
  }

  /** The time of the last row of a flow. */
  function LastTs(rows: seq<PacketRow>, id: nat): Option<int> {
    if rows == [] then None
    else if rows[|rows| - 1].flowId == id then Some(rows[|rows| - 1].ts)
    else LastTs(rows[..|rows| - 1], id)
  }

  /** The first row of a flow. */
  function FirstRow(rows: seq<PacketRow>, id: nat): Option<PacketRow> {
    if rows == [] then None
    else if FirstRow(rows[..|rows| - 1], id).Some? then FirstRow(rows[..|rows| - 1], id)
    else if rows[|rows| - 1].flowId == id then Some(rows[|rows| - 1]) else None
  }

  /** A flow starts when its first packet came, and is named after that packet's endpoints. */
  ghost predicate StartedBy(f: FlowRow, first: Option<PacketRow>) {
    first.Some? &&
    var r := first.value;
    && f.startTs == r.ts && f.source == r.source && f.destination == r.destination && f.protocol == r.protocol
    && f.srcPort == r.srcPort && f.dstPort == r.dstPort
  }

  function EventRows(events: seq<EventDraft>, packetId: Option<nat>): seq<EventRow> {
    seq(|events|, i requires 0 <= i < |events| =>
      EventRow(ToMicros(events[i].ts), events[i].kind, events[i].flowId, events[i].summary, packetId))
  }

  /** The events of these packets in order, each naming its packet. */
  function EventsOf(ps: seq<Seen>): seq<EventRow> {
    if ps == [] then [] else EventsOf(ps[..|ps| - 1]) + EventRows(ps[|ps| - 1].events, Some(|ps|))
  }

  /** The stored packets are these packets in order, byte for byte in their blocks. */
  ghost predicate PacketsAgree(rows: seq<PacketRow>, blocks: map<nat, seq<Block>>, ps: seq<Seen>) {
    && |rows| == |ps|
    && forall i :: 0 <= i < |ps| ==> Records(rows[i], i + 1, ps[i].packet) && Holds(blocks, i + 1, ps[i].packet.raw)
  }

  /** The blocks of a packet join to its bytes. */
  ghost predicate Holds(blocks: map<nat, seq<Block>>, id: nat, raw: bytes) {
    id in blocks && Join(Payloads(blocks[id])) == raw
  }

  /** A row says of a packet what there is to say, under this id; its flow is said elsewhere. */
  ghost predicate Records(row: PacketRow, id: nat, p: ParsedPacket) {
    && row.id == id && row.ts == ToMicros(p.ts) && row.length == p.length && row.protocol == p.protocol
    && row.source == p.source && row.destination == p.destination
    && row.srcPort == p.srcPort && row.dstPort == p.dstPort
  }

  /** Each flow row counts, sums and dates exactly the stored packets of its flow, of which there is one. */
  ghost predicate FlowsAgree(rows: seq<PacketRow>, flows: map<nat, FlowRow>) {
    && (forall i :: 0 <= i < |rows| ==> rows[i].flowId in flows)
    && (forall id :: id in flows ==>
                       var f := flows[id];
                       && f.packetCount == CountOf(rows, id) > 0 && f.bytes == BytesOf(rows, id)
                       && StartedBy(f, FirstRow(rows, id)) && LastTs(rows, id) == Some(f.endTs))
  }

  /** Two stored packets share a flow exactly when they have the same flow key. */
  ghost predicate FlowsSeparate(rows: seq<PacketRow>, ps: seq<Seen>) {
    |rows| == |ps| &&
    forall i, j :: 0 <= i < |ps| && 0 <= j < |ps| ==>
                     (rows[i].flowId == rows[j].flowId <==> KeyOf(ps[i].packet) == KeyOf(ps[j].packet))
  }

  /** The events of these packets, and after them only events that name no packet. */
  ghost predicate EventsAgree(events: seq<EventRow>, ps: seq<Seen>) {
    && EventsOf(ps) <= events
    && forall i :: |EventsOf(ps)| <= i < |events| ==> events[i].packetId.None?
  }

  ghost predicate Agreement(t: Tables, ps: seq<Seen>) {
    && PacketsAgree(t.packets, t.blocks, ps) && FlowsAgree(t.packets, t.flows) && FlowsSeparate(t.packets, ps)
    && EventsAgree(t.events, ps)
  }

  // ------------------------------------------------------------ stored packets agree

  /** The tracker's flows mirror the flow rows. */
  ghost predicate TrackerAgrees(k: TrackerState, rows: seq<PacketRow>, flows: map<nat, FlowRow>, ps: seq<Seen>) {
    && FlowsKnown(k, flows) && |rows| == |ps|
    && forall i :: 0 <= i < |ps| ==> InFlow(k, ps[i].packet, rows[i].flowId)
  }

  /** The packet's key leads to this flow. */
  ghost predicate InFlow(k: TrackerState, p: ParsedPacket, flowId: nat) {
    KeyOf(p) in k.flows && k.flows[KeyOf(p)].id == flowId
  }

  /** Each tracked flow has its own number and the flow row of that number. */
  ghost predicate FlowsKnown(k: TrackerState, flows: map<nat, FlowRow>) {
    && (forall key :: key in k.flows ==>
                        var f := k.flows[key];
                        && 1 <= f.id <= k.counter && f.id in flows
                        && flows[f.id].packetCount == f.packetCount && flows[f.id].bytes == f.bytes
                        && SameEnds(flows[f.id], f))
    && (forall a, b :: a in k.flows && b in k.flows && k.flows[a].id == k.flows[b].id ==> a == b)
    && (forall id :: id in flows ==> 1 <= id <= k.counter)
  }

  ghost predicate SameEnds(row: FlowRow, f: Flow) {
    && row.source == f.source && row.destination == f.destination && row.protocol == f.protocol
    && row.srcPort == f.srcPort && row.dstPort == f.dstPort
  }

  lemma {:induction false} WithEventsAppends(t: Tables, events: seq<EventDraft>, packetId: Option<nat>)
    ensures WithEvents(t, events, packetId) == t.(events := t.events + EventRows(events, packetId))
  {
    if events != [] {
      var init := events[..|events| - 1];
      WithEventsAppends(t, init, packetId);
      assert EventRows(events, packetId) == EventRows(init, packetId) + [EventOf(events[|events| - 1], packetId)];
      assert t.events + EventRows(events, packetId)
          == t.events + EventRows(init, packetId) + [EventOf(events[|events| - 1], packetId)];
    } else {
      assert t.events + EventRows(events, packetId) == t.events;
    }
  }

  lemma {:induction false} AbsentCountsNothing(rows: seq<PacketRow>, id: nat)
    requires forall i :: 0 <= i < |rows| ==> rows[i].flowId != id
    ensures CountOf(rows, id) == 0 && BytesOf(rows, id) == 0 && FirstRow(rows, id).None?
  {
    if rows != [] {
      AbsentCountsNothing(rows[..|rows| - 1], id);
    }
  }

  lemma CountsAppend(rows: seq<PacketRow>, row: PacketRow, id: nat)
    ensures var all := rows + [row];
            && CountOf(all, id) == CountOf(rows, id) + (if row.flowId == id then 1 else 0)
            && BytesOf(all, id) == BytesOf(rows, id) + (if row.flowId == id then row.length else 0)
            && FirstRow(all, id) == (if FirstRow(rows, id).None?
                                        && row.flowId == id then Some(row) else FirstRow(rows, id))
            && LastTs(all, id) == (if row.flowId == id then Some(row.ts) else LastTs(rows, id))
  {
    assert (rows + [row])[..|rows|] == rows;
  }

  /** The tables after one packet and its flow row, events aside. */
  function StoreCore(t: Tables, k: TrackerState, p: ParsedPacket): Tables {
    var flow := Counted(FlowFor(k, p), p);
    WithFlow(WithPacket(t, p, flow.id), flow)
  }

  lemma CoreAppends(t: Tables, k: TrackerState, p: ParsedPacket)
    ensures var u, flow := StoreCore(t, k, p), Counted(FlowFor(k, p), p);
            && u.packets == t.packets + [RowOf(NextId(t.packets), p, flow.id)]
            && u.blocks == t.blocks[NextId(t.packets) := Chunks(p.raw, CHUNK_SIZE, 0)]
            && u.flows == WithFlow(t, flow).flows && u.events == t.events
  {
    hide FlowFor, Counted, Chunks, ToMicros, NextId;
  }

  lemma NextIdIs(rows: seq<PacketRow>, blocks: map<nat, seq<Block>>, ps: seq<Seen>)
    requires PacketsAgree(rows, blocks, ps)
    ensures NextId(rows) == |ps| + 1
  {
    hide Join, Payloads, ToMicros;
    if ps != [] {
      assert rows[|ps| - 1].id == |ps|;
    }
  }

  lemma PacketsStep(t: Tables, k: TrackerState, ps: seq<Seen>, s: Seen)
    requires PacketsAgree(t.packets, t.blocks, ps)
    ensures NextId(t.packets) == |ps| + 1
    ensures var u := StoreCore(t, k, s.packet); PacketsAgree(u.packets, u.blocks, ps + [s])
  {
    hide FlowFor, Counted, Chunks, Join, Payloads, ToMicros, KeyOf, StoreCore, NextId, WithFlow;
    NextIdIs(t.packets, t.blocks, ps);
    ChunksJoinBack(s.packet.raw, CHUNK_SIZE, 0);
    CoreAppends(t, k, s.packet);
    var u, all := StoreCore(t, k, s.packet), ps + [s];
    forall i | 0 <= i < |all|
      ensures Records(u.packets[i], i + 1, all[i].packet) && Holds(u.blocks, i + 1, all[i].packet.raw)
    {
      if i < |ps| {
        assert Records(t.packets[i], i + 1, ps[i].packet) && Holds(t.blocks, i + 1, ps[i].packet.raw);
      }
    }
  }

  lemma FlowsStep(t: Tables, k: TrackerState, ps: seq<Seen>, p: ParsedPacket)
    requires |t.packets| == |ps| && FlowsAgree(t.packets, t.flows) && TrackerAgrees(k, t.packets, t.flows, ps)
    ensures var u := StoreCore(t, k, p); FlowsAgree(u.packets, u.flows)
  {
    hide ToMicros, KeyOf, Chunks, CountOf, BytesOf, FirstRow, LastTs, StoreCore, NextId;
    var flow := Counted(FlowFor(k, p), p);
    var row := RowOf(NextId(t.packets), p, flow.id);
    var u := StoreCore(t, k, p);
    CoreAppends(t, k, p);
    if KeyOf(p) !in k.flows {
      AbsentCountsNothing(t.packets, flow.id);
    }
    forall id | id in u.flows
      ensures var f := u.flows[id];
              && f.packetCount == CountOf(u.packets, id) > 0 && f.bytes == BytesOf(u.packets, id)
              && StartedBy(f, FirstRow(u.packets, id)) && LastTs(u.packets, id) == Some(f.endTs)
    {
      CountsAppend(t.packets, row, id);
    }
  }

  lemma FlowsKnownStep(t: Tables, k: TrackerState, p: ParsedPacket)
    requires FlowsKnown(k, t.flows)
    ensures FlowsKnown(Track(k, p), WithFlow(t, Counted(FlowFor(k, p), p)).flows)
  {
    hide ToMicros, KeyOf;
  }

  lemma StaysInFlow(k: TrackerState, p: ParsedPacket, q: ParsedPacket, flowId: nat)
    requires InFlow(k, q, flowId)
    ensures InFlow(Track(k, p), q, flowId)
  {
    hide KeyOf;
  }

  lemma TrackerStep(t: Tables, k: TrackerState, ps: seq<Seen>, s: Seen)
    requires TrackerAgrees(k, t.packets, t.flows, ps) && NextId(t.packets) == |ps| + 1
    ensures var u := StoreCore(t, k, s.packet); TrackerAgrees(Track(k, s.packet), u.packets, u.flows, ps + [s])
  {
    CoreAppends(t, k, s.packet);
    FlowsKnownStep(t, k, s.packet);
    var u, all, k' := StoreCore(t, k, s.packet), ps + [s], Track(k, s.packet);
    assert InFlow(k', s.packet, Counted(FlowFor(k, s.packet), s.packet).id);
    hide ToMicros, KeyOf, Chunks, StoreCore, NextId, FlowsKnown, Track, FlowFor, Counted, WithFlow, InFlow;
    forall i | 0 <= i < |all| ensures InFlow(k', all[i].packet, u.packets[i].flowId) {
      if i < |ps| {
        StaysInFlow(k, s.packet, ps[i].packet, t.packets[i].flowId);
      }
    }
  }

  lemma SeparateStep(rows: seq<PacketRow>, flows: map<nat, FlowRow>, k: TrackerState, ps: seq<Seen>)
    requires TrackerAgrees(k, rows, flows, ps)
    ensures FlowsSeparate(rows, ps)
  {
    hide KeyOf;
  }

  /** The agreement of everything but events. */
  ghost predicate RowsAgree(t: Tables, k: TrackerState, ps: seq<Seen>) {
    && PacketsAgree(t.packets, t.blocks, ps) && FlowsAgree(t.packets, t.flows)
    && TrackerAgrees(k, t.packets, t.flows, ps)
  }

  /** One more packet keeps the agreement. */
  lemma OneMoreAgrees(t: Tables, k: TrackerState, ps: seq<Seen>, s: Seen)
    requires RowsAgree(t, k, ps) && t.events == EventsOf(ps)
    ensures var v := StoreOne(t, k, s); RowsAgree(v, Track(k, s.packet), ps + [s]) && v.events == EventsOf(ps + [s])
  {
    var u, v := StoreCore(t, k, s.packet), StoreOne(t, k, s);
    var id := Some(NextId(t.packets));
    assert u.events == t.events && v == WithEvents(u, s.events, id);
    assert (ps + [s])[..|ps|] == ps;
    hide PacketsAgree, FlowsAgree, TrackerAgrees, Track, StoreCore, StoreOne, WithEvents;
    PacketsStep(t, k, ps, s);
    FlowsStep(t, k, ps, s.packet);
    TrackerStep(t, k, ps, s);
    WithEventsAppends(u, s.events, id);
  }

  lemma {:induction false} StoredRowsAgree(ps: seq<Seen>)
    ensures RowsAgree(Stored(ps), Tracked(ps), ps) && Stored(ps).events == EventsOf(ps)
  {
    hide RowsAgree, Track, StoreOne;
    if ps != [] {
      var init, s := ps[..|ps| - 1], ps[|ps| - 1];
      StoredRowsAgree(init);
      OneMoreAgrees(Stored(init), Tracked(init), init, s);
      assert init + [s] == ps;
    } else {
      EmptyAgrees();
    }
  }

  /** For every list of packets, what the loop stores for it agrees with it. */
  lemma StoredAgrees(ps: seq<Seen>)
    ensures Agreement(Stored(ps), ps) && Stored(ps).events == EventsOf(ps)
  {
    hide PacketsAgree, FlowsAgree, FlowsSeparate, TrackerAgrees, Stored, Tracked, EventsOf;
    StoredRowsAgree(ps);
    SeparateStep(Stored(ps).packets, Stored(ps).flows, Tracked(ps), ps);
  }

  lemma EmptyAgrees()
    ensures RowsAgree(EMPTY, NO_FLOWS, [])
  {
  }

  // ------------------------------------------------------------ durable states

  /** A durable state holds exactly what the first m packets store, plus events that name no packet. */
  ghost predicate CheckpointAt(t: Tables, ps: seq<Seen>, m: nat) {
    m <= |ps| && SameButEvents(t, Stored(ps[..m])) && EventsAgree(t.events, ps[..m])
  }

  predicate SameButEvents(t: Tables, u: Tables) {
    t.packets == u.packets && t.blocks == u.blocks && t.flows == u.flows
  }

  ghost predicate Checkpoint(t: Tables, ps: seq<Seen>) {
    exists m :: 0 <= m <= |ps| && CheckpointAt(t, ps, m)
  }

  ghost predicate AllCheckpoints(ts: seq<Tables>, ps: seq<Seen>) {
    forall i :: 0 <= i < |ts| ==> Checkpoint(ts[i], ps)
  }

  lemma CheckpointGrows(t: Tables, ps: seq<Seen>, s: Seen, m: nat)
    requires CheckpointAt(t, ps, m)
    ensures CheckpointAt(t, ps + [s], m)
  {
    assert (ps + [s])[..m] == ps[..m];
  }

  lemma AllCheckpointsGrow(ts: seq<Tables>, ps: seq<Seen>, s: Seen)
    requires AllCheckpoints(ts, ps)
    ensures AllCheckpoints(ts, ps + [s])
  {
    forall i | 0 <= i < |ts| ensures Checkpoint(ts[i], ps + [s]) {
      var m :| 0 <= m <= |ps| && CheckpointAt(ts[i], ps, m);
      CheckpointGrows(ts[i], ps, s, m);
    }
  }

  /** What is stored for all packets so far, possibly with events about no packet added, is a checkpoint. */
  lemma {:induction false} StoredIsCheckpoint(t: Tables, ps: seq<Seen>)
    requires SameButEvents(t, Stored(ps)) && EventsAgree(t.events, ps)
    ensures CheckpointAt(t, ps, |ps|) && Checkpoint(t, ps)
  {
    assert ps[..|ps|] == ps;
    assert CheckpointAt(t, ps, |ps|);
  }

  /** A durable state agrees with a prefix of the parsed packets. */
  lemma CheckpointAgrees(t: Tables, ps: seq<Seen>, m: nat)
    requires CheckpointAt(t, ps, m)
    ensures Agreement(t, ps[..m])
  {
    StoredAgrees(ps[..m]);
    hide PacketsAgree, FlowsAgree, FlowsSeparate, Stored, TrackerAgrees;
  }

  ghost predicate AgreesWithPrefix(t: Tables, ps: seq<Seen>) {
    exists m :: 0 <= m <= |ps| && Agreement(t, ps[..m])
  }

  lemma CheckpointsAgree(ts: seq<Tables>, ps: seq<Seen>)
    requires AllCheckpoints(ts, ps)
    ensures forall i :: 0 <= i < |ts| ==> AgreesWithPrefix(ts[i], ps)
  {
    hide CheckpointAt, Agreement;
    forall i | 0 <= i < |ts| ensures AgreesWithPrefix(ts[i], ps) {
      assert Checkpoint(ts[i], ps);
      var m :| 0 <= m <= |ps| && CheckpointAt(ts[i], ps, m);
      CheckpointAgrees(ts[i], ps, m);
    }
  }

  // ------------------------------------------------------------ the capture loop

  /**
    * What goes wrong in one capture: reading or handling the frames with these numbers, the commits after them,
    * the closing events, the closing commit, the first finalize, and in the clean-up the roll-back and the finalize.
    */
  datatype Faults = Faults(
    reading: set<nat>, handling: set<nat>, commit: set<nat>, closingEvents: bool, closingCommit: bool,
    closingFinalize: bool, rollback: bool, finalize: bool)

  /** Nothing goes wrong before the frames are through. */
  ghost predicate Quiet(faults: Faults, n: nat) {
    forall i: nat :: i < n ==> i !in faults.reading && i !in faults.handling && i !in faults.commit
  }

  lemma QuietAt(faults: Faults, n: nat, i: nat)
    requires Quiet(faults, n) && i < n
    ensures i !in faults.reading && i !in faults.handling && i !in faults.commit
  {
  }

  /** The first i frames gave `ps`, the first `seen` of them already, and the first `at` gave `flushed` packets. */
  ghost predicate Through(frames: seq<Frame>, i: nat, ps: seq<Seen>, flushed: nat, at: nat, seen: nat) {
    && at <= seen <= i <= |frames| && ps == ParsedOf(frames[..i]) == ParsedOf(frames[..seen])
    && ps <= ParsedOf(frames) && flushed == |ParsedOf(frames[..at])|
  }

  lemma NothingThrough(frames: seq<Frame>)
    ensures Through(frames, 0, [], 0, 0, 0)
  {
    NothingParsed(frames);
  }

  lemma ThroughMeans(frames: seq<Frame>, i: nat, ps: seq<Seen>, flushed: nat, at: nat, seen: nat)
    requires Through(frames, i, ps, flushed, at, seen)
    ensures at <= seen <= i <= |frames| && flushed == |ParsedOf(frames[..at])|
    ensures ps == ParsedOf(frames[..i]) == ParsedOf(frames[..seen]) && ps <= ParsedOf(frames)
  {
  }

  lemma ThroughStep(frames: seq<Frame>, i: nat, ps: seq<Seen>, flushed: nat, at: nat, seen: nat)
    requires Through(frames, i, ps, flushed, at, seen) && i < |frames|
    ensures frames[i].Malformed? ==> Through(frames, i + 1, ps, flushed, at, seen)
    ensures frames[i].Parsed? ==>
              var more := ps + [frames[i].seen];
              && Through(frames, i + 1, more, flushed, at, i + 1)
              && Through(frames, i + 1, more, |more|, i + 1, i + 1)
  {
    hide ParsedOf;
    ParsedStep(frames, i);
  }

  // ------------------------------------------------------------ when a commit is due

  /** How many packets the first n frames gave. */
  function PacketsIn(frames: seq<Frame>, n: nat): nat
    requires n <= |frames|
  {
    |ParsedOf(frames[..n])|
  }

  /** Since the commit after a frames, no packet among the first n came after the policy's seconds. */
  ghost predicate Early(policy: FlushPolicy, frames: seq<Frame>, clock: nat -> real, a: nat, n: nat) {
    n <= |frames| &&
    forall j :: a < j <= n && frames[j - 1].Parsed? ==> clock(j) - clock(a) < policy.seconds
  }

  /**
    * After a commit at a frames the next one is due at b: with the policy's n-th packet since, with the
    * first packet that comes its seconds later, with the next packet, or never.
    */
  ghost predicate Due(policy: FlushPolicy, frames: seq<Frame>, clock: nat -> real, a: nat, b: nat) {
    a < b <= |frames| && frames[b - 1].Parsed? &&
    var n := PacketsIn(frames, b) - PacketsIn(frames, a);
    match policy.mode
    case EveryPackets => n == if policy.packets >= 1 then policy.packets else 1
    case EveryInterval => clock(b) - clock(a) >= policy.seconds && Early(policy, frames, clock, a, b - 1)
    case NeverFlush => false
    case OtherMode => n == 1
  }

  /** The frame counts at which the loop has committed, from none on, are those at which it was due. */
  ghost predicate CommitsDue(policy: FlushPolicy, frames: seq<Frame>, clock: nat -> real, commits: seq<nat>) {
    && commits != [] && commits[0] == 0 && (forall k :: 0 <= k < |commits| ==> commits[k] <= |frames|)
    && forall k :: 0 < k < |commits| ==> Due(policy, frames, clock, commits[k - 1], commits[k])
  }

  /** After a commit at a frames no further one is due. */
  ghost predicate NoneDue(policy: FlushPolicy, frames: seq<Frame>, clock: nat -> real, a: nat) {
    forall b :: !Due(policy, frames, clock, a, b)
  }

  /** The k-th durable state holds the packets up to the k-th commit. */
  ghost predicate DurableHolds(durable: seq<Tables>, frames: seq<Frame>, commits: seq<nat>) {
    |commits| <= |durable| &&
    forall k :: 0 <= k < |commits| ==>
                  commits[k] <= |frames| && |durable[k].packets| == PacketsIn(frames, commits[k])
  }

  /** One more durable state, with n packets. */
  predicate OneMore(before: seq<Tables>, durable: seq<Tables>, n: nat) {
    |durable| == |before| + 1 && before <= durable && |durable[|before|].packets| == n
  }

  /** After i frames the commits so far, the last of them at `at`, are those that were due, each with its state. */
  ghost predicate OnTime(
    policy: FlushPolicy, frames: seq<Frame>, clock: nat -> real, commits: seq<nat>, at: nat, i: nat,
    durable: seq<Tables>)
  {
    && CommitsDue(policy, frames, clock, commits) && commits[|commits| - 1] == at
    && (policy.mode == EveryInterval ==> Early(policy, frames, clock, at, i))
    && DurableHolds(durable, frames, commits) && |durable| == |commits|
  }

  lemma NoCommits(policy: FlushPolicy, frames: seq<Frame>, clock: nat -> real)
    ensures OnTime(policy, frames, clock, [0], 0, 0, [EMPTY])
  {
    assert frames[..0] == [];
  }

  lemma DurableGrows(before: seq<Tables>, durable: seq<Tables>, frames: seq<Frame>, commits: seq<nat>)
    requires DurableHolds(before, frames, commits) && before <= durable
    ensures DurableHolds(durable, frames, commits)
  {
  }

  lemma CommitsMean(policy: FlushPolicy, frames: seq<Frame>, clock: nat -> real, commits: seq<nat>)
    requires CommitsDue(policy, frames, clock, commits)
    ensures commits != [] && commits[|commits| - 1] <= |frames|
  {
  }

  /** A frame after which no commit is due. */
  lemma StillOnTime(
    policy: FlushPolicy, frames: seq<Frame>, clock: nat -> real, commits: seq<nat>, at: nat, i: nat,
    durable: seq<Tables>, pending: nat)
    requires OnTime(policy, frames, clock, commits, at, i, durable) && i < |frames|
    requires frames[i].Parsed? ==> !policy.ShouldFlush(pending, clock(at), clock(i + 1))
    ensures OnTime(policy, frames, clock, commits, at, i + 1, durable)
  {
    hide CommitsDue, DurableHolds;
  }

  /** A packet with which a commit is due. */
  lemma DueNow(policy: FlushPolicy, frames: seq<Frame>, clock: nat -> real, a: nat, i: nat, pending: nat, age: real)
    requires a <= i < |frames| && frames[i].Parsed? && pending == PacketsIn(frames, i) - PacketsIn(frames, a)
    requires policy.mode == EveryInterval ==> Early(policy, frames, clock, a, i)
    requires policy.Allows(pending, age) && policy.ShouldFlush(pending + 1, clock(a), clock(i + 1))
    ensures Due(policy, frames, clock, a, i + 1)
  {
    hide ParsedOf, Early;
    ParsedStep(frames, i);
  }

  lemma OneMoreCommit(policy: FlushPolicy, frames: seq<Frame>, clock: nat -> real, commits: seq<nat>, b: nat)
    requires CommitsDue(policy, frames, clock, commits) && Due(policy, frames, clock, commits[|commits| - 1], b)
    ensures CommitsDue(policy, frames, clock, commits + [b])
  {
    hide Due;
    var all := commits + [b];
    assert b <= |frames| by { DueWithin(policy, frames, clock, commits[|commits| - 1], b); }
    forall k | 0 < k < |all| ensures Due(policy, frames, clock, all[k - 1], all[k]) {
    }
  }

  lemma DueWithin(policy: FlushPolicy, frames: seq<Frame>, clock: nat -> real, a: nat, b: nat)
    requires Due(policy, frames, clock, a, b)
    ensures a < b <= |frames|
  {
  }

  lemma OneMoreHolds(before: seq<Tables>, durable: seq<Tables>, frames: seq<Frame>, commits: seq<nat>, b: nat)
    requires DurableHolds(before, frames, commits) && |before| == |commits| && b <= |frames|
    requires OneMore(before, durable, PacketsIn(frames, b))
    ensures DurableHolds(durable, frames, commits + [b]) && |durable| == |commits| + 1
  {
    hide ParsedOf;
  }

  /** The loop commits after frame i exactly as it is due. */
  lemma CommitFollows(
    policy: FlushPolicy, frames: seq<Frame>, clock: nat -> real, commits: seq<nat>, at: nat, i: nat, ps: seq<Seen>,
    flushed: nat, seen: nat, before: seq<Tables>, durable: seq<Tables>, age: real)
    requires OnTime(policy, frames, clock, commits, at, i, before) && OneMore(before, durable, |ps| + 1)
    requires i < |frames| && frames[i].Parsed? && Through(frames, i, ps, flushed, at, seen) && flushed <= |ps|
    requires policy.Allows(|ps| - flushed, age)
    requires policy.ShouldFlush(|ps| - flushed + 1, clock(at), clock(i + 1))
    ensures OnTime(policy, frames, clock, commits + [i + 1], i + 1, i + 1, durable)
  {
    assert commits != [] && commits[|commits| - 1] == at;
    assert Early(policy, frames, clock, i + 1, i + 1);
    hide CommitsDue, ParsedOf, Due, Early, DurableHolds, OneMore, FlushPolicy.Allows, FlushPolicy.ShouldFlush;
    DueNow(policy, frames, clock, at, i, |ps| - flushed, age);
    OneMoreCommit(policy, frames, clock, commits, i + 1);
    ParsedStep(frames, i);
    OneMoreHolds(before, durable, frames, commits, i + 1);
  }

  /** At the end of the frames no commit is left out. */
  lemma NothingMissed(
    policy: FlushPolicy, frames: seq<Frame>, clock: nat -> real, commits: seq<nat>, at: nat, ps: seq<Seen>,
    flushed: nat, seen: nat, durable: seq<Tables>, age: real)
    requires OnTime(policy, frames, clock, commits, at, |frames|, durable)
    requires Through(frames, |frames|, ps, flushed, at, seen) && flushed <= |ps|
    requires policy.Allows(|ps| - flushed, age)
    ensures NoneDue(policy, frames, clock, at)
  {
    hide ParsedOf, CommitsDue, DurableHolds;
    assert frames[..|frames|] == frames;
    forall b: nat ensures !Due(policy, frames, clock, at, b) {
      if at < b <= |frames| {
        ParsedStep(frames, b - 1);
      }
    }
  }

  lemma OnTimeMeans(
    policy: FlushPolicy, frames: seq<Frame>, clock: nat -> real, commits: seq<nat>, at: nat, i: nat,
    durable: seq<Tables>)
    requires OnTime(policy, frames, clock, commits, at, i, durable)
    ensures commits != [] && CommitsDue(policy, frames, clock, commits) && commits[|commits| - 1] == at
    ensures DurableHolds(durable, frames, commits) && |durable| == |commits|
  {
    hide CommitsDue, DurableHolds;
    assert commits != [] by { CommitsMean(policy, frames, clock, commits); }
  }

  /**
    * Where the loop is left: upTo frames are done with, the last packet of them was among the first `seen`, the
    * last commit followed the first `at`; a refused commit counts its packet as done.
    */
  ghost predicate Left(
    policy: FlushPolicy, frames: seq<Frame>, clock: nat -> real, ps: seq<Seen>, flushed: nat, at: nat, seen: nat,
    commits: seq<nat>, durable: seq<Tables>, upTo: nat, refused: bool)
  {
    && OnTime(policy, frames, clock, commits, at, upTo, durable)
    && Through(frames, if refused then upTo + 1 else upTo, ps, flushed, at, seen)
    && var pending := |ps| - flushed;
    if refused then
      && pending >= 1 && policy.mode != NeverFlush && (policy.mode == OtherMode ==> pending == 1)
      && (policy.mode == EveryPackets && policy.packets >= 1 ==> pending <= policy.packets)
    else pending >= 0 && policy.Allows(pending, clock(seen) - clock(at))
  }

  lemma Leaves(
    policy: FlushPolicy, frames: seq<Frame>, clock: nat -> real, ps: seq<Seen>, flushed: nat, at: nat, seen: nat,
    commits: seq<nat>, durable: seq<Tables>, i: nat)
    requires OnTime(policy, frames, clock, commits, at, i, durable) && Through(frames, i, ps, flushed, at, seen)
    requires flushed <= |ps| && policy.Allows(|ps| - flushed, clock(seen) - clock(at))
    ensures Left(policy, frames, clock, ps, flushed, at, seen, commits, durable, i, false)
  {
    hide OnTime, Through;
  }

  lemma LeavesRefused(
    policy: FlushPolicy, frames: seq<Frame>, clock: nat -> real, ps: seq<Seen>, flushed: nat, at: nat, seen: nat,
    commits: seq<nat>, durable: seq<Tables>, i: nat)
    requires OnTime(policy, frames, clock, commits, at, i, durable) && Through(frames, i, ps, flushed, at, seen)
    requires flushed <= |ps| && policy.Allows(|ps| - flushed, clock(seen) - clock(at))
    requires i < |frames| && frames[i].Parsed? && policy.mode != NeverFlush
    ensures Left(policy, frames, clock, ps + [frames[i].seen], flushed, at, i + 1, commits, durable, i, true)
  {
    ThroughStep(frames, i, ps, flushed, at, seen);
    hide OnTime, Through;
  }

  lemma LeftMeans(
    policy: FlushPolicy, frames: seq<Frame>, clock: nat -> real, ps: seq<Seen>, flushed: nat, at: nat, seen: nat,
    commits: seq<nat>, durable: seq<Tables>, upTo: nat, refused: bool)
    requires Left(policy, frames, clock, ps, flushed, at, seen, commits, durable, upTo, refused)
    ensures ps <= ParsedOf(frames) && (upTo == |frames| && !refused ==> ps == ParsedOf(frames))
    ensures at <= seen <= |frames| && flushed == |ParsedOf(frames[..at])| && ps == ParsedOf(frames[..seen])
    ensures flushed <= |ps| && (refused ==> flushed < |ps|)
    ensures policy.mode == EveryPackets && policy.packets >= 1 ==>
              |ps| - flushed < policy.packets + if refused then 1 else 0
    ensures policy.mode == EveryInterval && flushed < |ps| && !refused ==> clock(seen) - clock(at) < policy.seconds
    ensures policy.mode == OtherMode ==> |ps| - flushed <= if refused then 1 else 0
    ensures policy.mode == NeverFlush ==> flushed == 0 && !refused
    ensures commits != [] && CommitsDue(policy, frames, clock, commits) && commits[|commits| - 1] == at
    ensures upTo == |frames| && !refused ==> NoneDue(policy, frames, clock, at)
    ensures DurableHolds(durable, frames, commits) && |durable| == |commits|
  {
    hide OnTime, Through, CommitsDue, ParsedOf, NoneDue, DurableHolds;
    ThroughMeans(frames, if refused then upTo + 1 else upTo, ps, flushed, at, seen);
    OnTimeMeans(policy, frames, clock, commits, at, upTo, durable);
    if upTo == |frames| && !refused {
      NothingMissed(policy, frames, clock, commits, at, ps, flushed, seen, durable, clock(seen) - clock(at));
      assert frames[..|frames|] == frames;
    }
    if policy.mode == NeverFlush {
      NeverCommits(policy, frames, clock, commits);
      NothingParsed(frames);
    }
  }

  lemma NeverDue(policy: FlushPolicy, frames: seq<Frame>, clock: nat -> real, a: nat, b: nat)
    requires policy.mode == NeverFlush
    ensures !Due(policy, frames, clock, a, b)
  {
  }

  lemma NeverCommits(policy: FlushPolicy, frames: seq<Frame>, clock: nat -> real, commits: seq<nat>)
    requires CommitsDue(policy, frames, clock, commits) && policy.mode == NeverFlush
    ensures commits == [0]
  {
    hide Due;
    if |commits| > 1 {
      NeverDue(policy, frames, clock, commits[0], commits[1]);
      assert false;
    }
  }

  class CaptureController {
    const session: SessionStorage
    const tracker: FlowTracker
    const policy: FlushPolicy
    var packets: nat
    var malformed: nat
    ghost var done: seq<Seen>
    ghost var flushed: nat

    constructor (session: SessionStorage, policy: FlushPolicy)
      ensures this.session == session && this.policy == policy && fresh(tracker) && tracker.State() == NO_FLOWS
      ensures packets == 0 && malformed == 0 && done == [] && flushed == 0
    {
      this.session, this.policy := session, policy;
      tracker := new FlowTracker();
      packets, malformed, done, flushed := 0, 0, [], 0;
    }

    /** Between frames: the open batch holds what was processed since the last flush. */
    ghost predicate Running()
      reads this`done, this`flushed, session, tracker
    {
      && session.Valid() && session.batchDepth == 1
      && session.working == Stored(done) && tracker.State() == Tracked(done)
      && Durable()
    }

    /** Every durable state so far is a checkpoint; the present one holds the first `flushed` packets. */
    ghost predicate Durable()
      reads this`done, this`flushed, session
    {
      && session.Valid() && AllCheckpoints(session.durable, done)
      && flushed <= |done| && CheckpointAt(session.committed, done, flushed)
    }

    /** One parsed packet; false when any step raised, be it the packet, its flow, an event or the stream engine. */
    method StoreSeen(s: Seen, raises: bool) returns (ok: bool)
      requires Running()
      modifies this`packets, this`done, session, tracker
      ensures session.Valid() && session.committed == old(session.committed) && session.durable == old(session.durable)
      ensures session.batchDepth == 1 && ok == !raises
      ensures if ok then done == old(done) + [s] && packets == old(packets) + 1 && Running()
              else done == old(done) && packets == old(packets) && Durable()
    {
      hide Stored, Tracked, AllCheckpoints, CheckpointAt, Track, FlowFor, Counted, WithFlow, WithPacket;
      ghost var t, k := session.working, tracker.State();
      var flow, started := tracker.Feed(s.packet);
      var point: int := *;
      var stored, id := session.AddPacket(s.packet, flow.id, raises && point == 0);
      if !stored {
        return false;
      }
      ok := session.UpsertFlow(flow, raises && point == 1);
      if !ok {
        return false;
      }
      ghost var u := session.working;
      ok := StoreEvents(s.events, Some(id), raises && point == 2);
      if raises {
        return false;
      }
      packets := packets + 1;
      done := done + [s];
      StoredStep(old(done), s);
      AllCheckpointsGrow(session.durable, old(done), s);
      CheckpointGrows(session.committed, old(done), s, flushed);
    }

    /** Events in order, until one cannot be stored or raising the next fails. */
    method StoreEvents(events: seq<EventDraft>, packetId: Option<nat>, raises: bool) returns (ok: bool)
      requires session.Valid() && session.batchDepth == 1
      modifies session
      ensures session.Valid() && session.committed == old(session.committed) && session.durable == old(session.durable)
      ensures session.batchDepth == 1 && ok == !raises
      ensures ok ==> session.working == WithEvents(old(session.working), events, packetId)
    {
      var point: int := *;
      for i := 0 to |events|
        invariant session.Valid() && session.committed == old(session.committed)
                  && session.durable == old(session.durable)
        invariant session.batchDepth == 1
        invariant session.working == WithEvents(old(session.working), events[..i], packetId)
      {
        assert events[..i + 1][..i] == events[..i];
        ok := session.AddEvent(EventOf(events[i], packetId), raises && point == i);
        if !ok {
          return false;
        }
      }
      assert events[..|events|] == events;
      return !raises;
    }

    /** Closes the batch and opens the next; false when the database refuses the commit. */
    method FlushBatch(refused: bool) returns (ok: bool)
      requires Running()
      modifies session, this`flushed
      ensures ok == !refused
      ensures if ok then Running() && flushed == |done| else Stopped() && flushed == old(flushed)
                                                             && session.batchDepth == 0
      ensures if ok then OneMore(old(session.durable), session.durable, |done|)
              else session.durable == old(session.durable)
    {
      hide Stored, Tracked, AllCheckpoints, CheckpointAt, Checkpoint, Track;
      StoredAgreesHere();
      ok := session.CommitBatch(refused);
      if !ok {
        return;
      }
      flushed := |done|;
      OneMoreCheckpoint(old(session.durable), session.committed, done, |done|);
      session.BeginBatch();
    }

    lemma StoredAgreesHere()
      requires session.working == Stored(done)
      ensures CheckpointAt(session.working, done, |done|) && |session.working.packets| == |done|
    {
      hide Stored, FlowsAgree, FlowsSeparate, TrackerAgrees, Tracked, Records, Holds;
      StoredAgrees(done);
      StoredIsCheckpoint(session.working, done);
    }

    /** The loop has been left: an open batch will be rolled back, and a refused one is whole. */
    ghost predicate Stopped()
      reads this`done, this`flushed, session
    {
      && Durable() && session.batchDepth <= 1
      && (session.batchDepth == 0 ==> CheckpointAt(session.working, done, |done|))
    }

    lemma RunningStops()
      requires Running()
      ensures Stopped() && session.batchDepth == 1 && flushed <= |done|
    {
      hide AllCheckpoints, CheckpointAt, Stored, Tracked;
    }

    lemma DurableStops()
      requires Durable() && session.batchDepth == 1
      ensures Stopped() && flushed <= |done|
    {
      hide AllCheckpoints, CheckpointAt;
    }

    /** One parsed packet, and the commit that may be due after it; `refused` when that is what raised. */
    method TakeSeen(s: Seen, pending: nat, last: real, now: real, raises: bool, refuses: bool)
      returns (ok: bool, flush: bool, ghost refused: bool)
      requires Running() && pending == |done| - flushed
      modifies this`packets, this`done, this`flushed, session, tracker
      ensures flush == policy.ShouldFlush(pending + 1, last, now) && (ok <==> !raises && !(flush && refuses))
      ensures if ok then Running() else Stopped()
      ensures session.batchDepth == (if refused then 0 else 1) && (refused ==> !ok && flush)
      ensures if ok || refused then done == old(done) + [s] && packets == old(packets) + 1
              else done == old(done) && packets == old(packets)
      ensures flushed == if ok && flush then |done| else old(flushed)
      ensures if ok && flush then OneMore(old(session.durable), session.durable, |done|)
              else session.durable == old(session.durable)
    {
      hide *;
      refused, flush := false, policy.ShouldFlush(pending + 1, last, now);
      ok := StoreSeen(s, raises);
      if !ok {
        DurableStops();
        return;
      }
      RunningStops();
      if flush {
        ok := FlushBatch(refuses);
        refused := !ok;
        if ok {
          RunningStops();
        }
      }
    }

    /** Frames until one step raises; `refused` when that step was a commit. */
    method Loop(frames: seq<Frame>, clock: nat -> real, faults: Faults)
      returns (crashed: bool, ghost refused: bool, ghost at: nat, ghost seen: nat, ghost commits: seq<nat>,
               ghost upTo: nat)
      requires Running() && done == [] && flushed == 0 && session.durable == [EMPTY]
      modifies this, session, tracker
      ensures if crashed then Stopped() else Running()
      ensures Quiet(faults, |frames|) ==> !crashed
      ensures session.batchDepth == (if refused then 0 else 1) && (!crashed ==> upTo == |frames| && !refused)
      ensures packets == old(packets) + |done|
      ensures !crashed ==> malformed + |done| == old(malformed) + |frames|
      ensures Left(policy, frames, clock, done, flushed, at, seen, commits, session.durable, upTo, refused)
    {
      hide *;
      refused, at, seen, commits, upTo := false, 0, 0, [0], 0;
      NoCommits(policy, frames, clock);
      var pending, last := 0, clock(0);
      NothingThrough(frames);
      FlushedOrAllowed(policy, 0, last, last);
      for i := 0 to |frames|
        invariant Running() && Through(frames, i, done, flushed, at, seen)
        invariant pending == |done| - flushed && packets == old(packets) + |done|
        invariant malformed + |done| == old(malformed) + i
        invariant last == clock(at) && policy.Allows(pending, clock(seen) - last)
        invariant OnTime(policy, frames, clock, commits, at, i, session.durable)
      {
        upTo := i;
        Leaves(policy, frames, clock, done, flushed, at, seen, commits, session.durable, i);
        ThroughStep(frames, i, done, flushed, at, seen);
        if Quiet(faults, |frames|) {
          QuietAt(faults, |frames|, i);
        }
        if i in faults.reading {
          RunningStops();
          return true, false, at, seen, commits, i;
        }
        if frames[i].Malformed? {
          malformed := malformed + 1;
          StillOnTime(policy, frames, clock, commits, at, i, session.durable, 0);
          continue;
        }
        var now := clock(i + 1);
        var ok, flush;
        FlushedOrAllowed(policy, pending + 1, last, now);
        ghost var before, ps := session.durable, done;
        ok, flush, refused :=
          TakeSeen(frames[i].seen, pending, last, now, i in faults.handling, i in faults.commit);
        if !ok {
          if refused {
            LeavesRefused(policy, frames, clock, ps, flushed, at, seen, commits, session.durable, i);
            seen := i + 1;
          }
          return true, refused, at, seen, commits, i;
        }
        if flush {
          CommitFollows(policy, frames, clock, commits, at, i, ps, |ps| - pending, seen, before, session.durable,
                        clock(seen) - last);
          pending, last, at, commits := 0, now, i + 1, commits + [i + 1];
        } else {
          StillOnTime(policy, frames, clock, commits, at, i, session.durable, pending + 1);
          pending := pending + 1;
        }
        seen := i + 1;
      }
      Leaves(policy, frames, clock, done, flushed, at, seen, commits, session.durable, |frames|);
      RunningStops();
      return false, false, at, seen, commits, |frames|;
    }

    /**
      * Frames until one step raises; `refused` when that step was a commit. The last commit followed the first
      * `at` frames, and the last packet processed was among the first `seen`.
      */
    method ProcessFrames(frames: seq<Frame>, clock: nat -> real, faults: Faults)
      returns (crashed: bool, ghost refused: bool, ghost at: nat, ghost seen: nat, ghost commits: seq<nat>)
      requires Running() && done == [] && flushed == 0 && session.durable == [EMPTY]
      modifies this, session, tracker
      ensures if crashed then Stopped() else Running()
      ensures Quiet(faults, |frames|) ==> !crashed
      ensures session.batchDepth == if refused then 0 else 1
      ensures done <= ParsedOf(frames) && (!crashed ==> done == ParsedOf(frames))
      ensures packets == old(packets) + |done|
      ensures !crashed ==> malformed + |done| == old(malformed) + |frames|
      ensures at <= seen <= |frames| && flushed == |ParsedOf(frames[..at])| && done == ParsedOf(frames[..seen])
      ensures refused ==> crashed && flushed < |done|
      ensures policy.mode == EveryPackets && policy.packets >= 1 ==>
                |done| - flushed < policy.packets + if refused then 1 else 0
      ensures policy.mode == EveryInterval && flushed < |done| && !refused ==>
                clock(seen) - clock(at) < policy.seconds
      ensures policy.mode == OtherMode ==> |done| - flushed <= if refused then 1 else 0
      ensures policy.mode == NeverFlush ==> flushed == 0 && !refused
      ensures commits != [] && CommitsDue(policy, frames, clock, commits) && commits[|commits| - 1] == at
      ensures !crashed ==> NoneDue(policy, frames, clock, at)
      ensures DurableHolds(session.durable, frames, commits) && |session.durable| == |commits|
    {
      hide *;
      ghost var upTo;
      crashed, refused, at, seen, commits, upTo := Loop(frames, clock, faults);
      LeftMeans(policy, frames, clock, done, flushed, at, seen, commits, session.durable, upTo, refused);
    }

    /** The end of the stream: closing events, the last commit, and a first finalize. */
    method Close(closing: seq<EventDraft>, drops: nat, faults: Faults) returns (crashed: bool, ghost refused: bool)
      requires Running()
      modifies session, this`flushed
      ensures Stopped() && (refused <==> !faults.closingEvents && faults.closingCommit)
      ensures crashed <==> faults.closingEvents || faults.closingCommit || faults.closingFinalize
      ensures if refused || session.batchDepth == 1 then flushed == old(flushed) else flushed == |done|
      ensures session.batchDepth == if faults.closingEvents then 1 else 0
      ensures old(session.durable) <= session.durable
    {
      hide Stored, Tracked, AllCheckpoints, CheckpointAt, Checkpoint, WithEvents, Agreement;
      ghost var t := session.working;
      refused := false;
      var ok := StoreEvents(closing, None, faults.closingEvents);
      if !ok {
        return true, false;
      }
      ClosingIsCheckpoint(t, done, closing);
      ok := session.CommitBatch(faults.closingCommit);
      if !ok {
        return true, true;
      }
      flushed := |done|;
      OneMoreCheckpoint(old(session.durable), session.committed, done, |done|);
      ok := Finish(drops, Ready, |done|, faults.closingFinalize);
      return !ok, false;
    }

    /** Finalizing, outside a batch, what the first m packets stored. */
    method Finish(drops: nat, status: Status, ghost m: nat, raises: bool) returns (ok: bool)
      requires Durable() && session.batchDepth == 0 && CheckpointAt(session.working, done, m) && flushed <= m
      modifies session, this`flushed
      ensures Durable() && session.batchDepth == 0 && CheckpointAt(session.working, done, m)
      ensures flushed in {old(flushed), m} && ok == !raises
      ensures old(session.durable) <= session.durable
      ensures ok ==> flushed == m && session.committed == Finalized(old(session.working), drops, malformed, status)
    {
      hide Stored, Tracked, AllCheckpoints, CheckpointAt, Checkpoint;
      ok := session.Finalize(drops, malformed, status, raises);
      SameRowsSameCheckpoint(old(session.working), session.working, done, m);
      OnlySoMany(session.working, done, m);
      if session.durable != old(session.durable) {
        flushed := m;
        OneMoreCheckpoint(old(session.durable), old(session.working), done, m);
        if ok {
          OneMoreCheckpoint(old(session.durable) + [old(session.working)], session.committed, done, m);
          assert old(session.durable) + [old(session.working)] + [session.committed] == session.durable;
        }
      }
    }

    /** The capture itself: the batch is opened, the frames are processed, and the stream is closed. */
    method Attempt(frames: seq<Frame>, closing: seq<EventDraft>, clock: nat -> real, drops: nat, faults: Faults)
      returns (failed: bool, ghost refused: bool, ghost commits: seq<nat>)
      requires session.Valid() && session.batchDepth == 0 && session.working == EMPTY && session.durable == [EMPTY]
      requires tracker.State() == NO_FLOWS && packets == malformed == 0 && done == [] && flushed == 0
      modifies this, session, tracker
      ensures Stopped() && done <= ParsedOf(frames) && packets == |done|
      ensures !failed ==> done == ParsedOf(frames) && flushed == |done| == |frames| - malformed
      ensures failed && !refused && session.batchDepth == 0 ==> flushed == |done|
      ensures (!failed || refused ==> session.batchDepth == 0) && (refused ==> failed)
      ensures policy.mode == EveryPackets && policy.packets >= 1 ==>
                |done| - flushed < policy.packets + if refused then 1 else 0
      ensures refused && done < ParsedOf(frames) ==> flushed < |done|
      ensures policy.mode == NeverFlush && refused ==> flushed == 0 && done == ParsedOf(frames)
      ensures Quiet(faults, |frames|) && !faults.closingEvents ==>
                && done == ParsedOf(frames) && refused == faults.closingCommit && session.batchDepth == 0
                && failed == (faults.closingCommit || faults.closingFinalize)
      ensures CommitsDue(policy, frames, clock, commits) && DurableHolds(session.durable, frames, commits)
      ensures commits != [] && (Quiet(faults, |frames|) ==> NoneDue(policy, frames, clock, commits[|commits| - 1]))
    {
      hide *;
      Starts();
      session.BeginBatch();
      Begun();
      ghost var at, seen;
      failed, refused, at, seen, commits := ProcessFrames(frames, clock, faults);
      StoppedMeans(failed);
      CommitsMean(policy, frames, clock, commits);
      if !failed {
        ghost var before := session.durable;
        failed, refused := Close(closing, drops, faults);
        StoppedMeans(true);
        DurableGrows(before, session.durable, frames, commits);
      }
    }

    lemma Starts()
      ensures Stored([]) == EMPTY && Tracked([]) == NO_FLOWS
      ensures CheckpointAt(EMPTY, [], 0) && AllCheckpoints([EMPTY], [])
      ensures session.Valid() && session.durable == [EMPTY] ==> session.committed == EMPTY
    {
      NothingIsStored();
    }

    /** A new session with its batch open is at the start of the loop. */
    lemma Begun()
      requires session.Valid() && session.batchDepth == 1 && session.working == EMPTY && session.durable == [EMPTY]
      requires tracker.State() == NO_FLOWS && done == [] && flushed == 0
      ensures Running()
    {
      NothingIsStored();
      hide Stored, Tracked, AllCheckpoints, CheckpointAt;
    }

    lemma StoppedMeans(stopped: bool)
      requires if stopped then Stopped() else Running()
      ensures flushed <= |done| && Durable() && session.batchDepth <= 1
      ensures session.Valid() && AllCheckpoints(session.durable, done) && CheckpointAt(session.committed, done, flushed)
      ensures stopped && session.batchDepth == 0 ==> CheckpointAt(session.working, done, |done|)
    {
      hide AllCheckpoints, CheckpointAt, Stored, Tracked;
    }

    /**
      * A whole capture into a new session. Any step may fail; whatever happens, every state that
      * was ever durable agrees with a prefix of the parsed frames, and under a policy of n packets
      * fewer than n fully processed packets are missing at the end (n when a commit was refused).
      * `lastGood` packets were covered by the last batch that committed. A final commit holds just
      * these, as the roll-back is there to ensure, unless a commit was refused: then it holds every
      * packet processed, which after a refusal in the loop is more. The loop commits after `commits`
      * frames, exactly when that is due, and each commit is a durable state of its own.
      */
    method Run(frames: seq<Frame>, closing: seq<EventDraft>, clock: nat -> real, drops: nat, faults: Faults)
      returns (failed: bool, finalized: bool, ghost refused: bool, ghost lastGood: nat, ghost commits: seq<nat>)
      requires session.Valid() && session.batchDepth == 0 && session.working == EMPTY && session.durable == [EMPTY]
      requires tracker.State() == NO_FLOWS && packets == malformed == 0 && done == [] && flushed == 0
      modifies this, session, tracker
      ensures done <= ParsedOf(frames) && packets == |done|
      ensures !failed ==> done == ParsedOf(frames) && flushed == |done| == |frames| - malformed
      ensures lastGood <= flushed <= |done| && Agreement(session.committed, done[..flushed])
      ensures session.durable != [] && session.durable[|session.durable| - 1] == session.committed
      ensures forall i :: 0 <= i < |session.durable| ==> AgreesWithPrefix(session.durable[i], done)
      ensures policy.mode == EveryPackets && policy.packets >= 1 ==>
                |done| - flushed < policy.packets + if refused then 1 else 0
      ensures finalized ==>
                && session.committed.status == (if failed then Failed else Ready)
                && session.committed.integrity == Some(Integrity(drops, malformed, |session.committed.packets|))
      ensures finalized ==> flushed == if refused then |done| else lastGood
      ensures !finalized ==> flushed == lastGood || (refused && flushed == |done|)
      ensures (refused ==> failed) && (refused && done < ParsedOf(frames) ==> lastGood < |done|)
      ensures policy.mode == NeverFlush && refused ==> lastGood == 0 && done == ParsedOf(frames)
      ensures Quiet(faults, |frames|) && !faults.closingEvents ==>
                && done == ParsedOf(frames) && refused == faults.closingCommit
                && failed == (faults.closingCommit || faults.closingFinalize) && finalized == !faults.finalize
      ensures finalized ==> !faults.finalize
      ensures !faults.finalize && !faults.rollback ==> finalized
      ensures CommitsDue(policy, frames, clock, commits) && DurableHolds(session.durable, frames, commits)
      ensures commits != [] && (Quiet(faults, |frames|) ==> NoneDue(policy, frames, clock, commits[|commits| - 1]))
    {
      hide Stored, Tracked, CheckpointAt, Checkpoint, AllCheckpoints, Agreement, AgreesWithPrefix, ParsedOf, Quiet;
      hide CommitsDue, DurableHolds, NoneDue;
      failed, refused, commits := Attempt(frames, closing, clock, drops, faults);
      lastGood := flushed;
      ghost var before := session.durable;
      ghost var m := if session.batchDepth > 0 then flushed else |done|;
      finalized := session.RollbackBatch(faults.rollback);
      if finalized {
        finalized := Finish(drops, if failed then Failed else Ready, m, faults.finalize);
      }
      DurableGrows(before, session.durable, frames, commits);
      CheckpointAgrees(session.committed, done, flushed);
      CheckpointsAgree(session.durable, done);
    }
  }

  /** Nothing goes wrong but that the closing commit is refused. */
  const REFUSED_ONCE := Faults({}, {}, {}, false, true, false, false, false)

  /**
    * A capture of one packet in one batch whose commit is refused: the clean-up succeeds and leaves the packet
    * durable, although no batch ever committed.
    */
  method RefusedCommitOutlivesItsBatch(s: Seen, clock: nat -> real)
    returns (session: SessionStorage, failed: bool, finalized: bool, ghost lastGood: nat)
    ensures fresh(session) && session.Valid() && failed && finalized && lastGood == 0
    ensures Agreement(session.committed, [s]) && session.committed.status == Failed
  {
    hide Agreement, AgreesWithPrefix;
    session := new SessionStorage();
    var capture := new CaptureController(session, FlushPolicy(NeverFlush, 0, 0.0));
    ghost var refused, commits;
    failed, finalized, refused, lastGood, commits := capture.Run([Parsed(s)], [], clock, 0, REFUSED_ONCE);
    OneParsed(s);
    assert capture.done[..capture.flushed] == [s];
  }

  lemma OneParsed(s: Seen)
    ensures ParsedOf([Parsed(s)]) == [s]
  {
    assert [Parsed(s)][..0] == [];
  }

  lemma StoredStep(ps: seq<Seen>, s: Seen)
    ensures Stored(ps + [s]) == StoreOne(Stored(ps), Tracked(ps), s)
    ensures Tracked(ps + [s]) == Track(Tracked(ps), s.packet)
  {
    assert (ps + [s])[..|ps|] == ps;
  }

  lemma NothingIsStored()
    ensures Stored([]) == EMPTY && Tracked([]) == NO_FLOWS
    ensures CheckpointAt(EMPTY, [], 0) && AllCheckpoints([EMPTY], [])
  {
    assert CheckpointAt(EMPTY, [], 0);
  }

  lemma OneMoreCheckpoint(ts: seq<Tables>, t: Tables, ps: seq<Seen>, m: nat)
    requires AllCheckpoints(ts, ps) && CheckpointAt(t, ps, m)
    ensures AllCheckpoints(ts + [t], ps)
  {
    hide CheckpointAt;
    assert m <= |ps| by { OnlySoMany(t, ps, m); }
  }

  lemma OnlySoMany(t: Tables, ps: seq<Seen>, m: nat)
    requires CheckpointAt(t, ps, m)
    ensures m <= |ps|
  {
  }

  lemma SameRowsSameCheckpoint(t: Tables, u: Tables, ps: seq<Seen>, m: nat)
    requires CheckpointAt(t, ps, m) && SameRows(t, u)
    ensures CheckpointAt(u, ps, m)
  {
    hide Stored;
  }

  lemma ClosingIsCheckpoint(t: Tables, ps: seq<Seen>, closing: seq<EventDraft>)
    requires t == Stored(ps)
    ensures CheckpointAt(WithEvents(t, closing, None), ps, |ps|)
  {
    hide Stored, PacketsAgree, FlowsAgree, FlowsSeparate, TrackerAgrees, Tracked, WithEvents, EventsOf;
    StoredAgrees(ps);
    WithEventsAppends(t, closing, None);
    StoredIsCheckpoint(WithEvents(t, closing, None), ps);
  }

  lemma NothingParsed(frames: seq<Frame>)
    ensures ParsedOf(frames[..0]) == []
  {
  }

  lemma {:induction false} ParsedStep(frames: seq<Frame>, i: nat)
    requires i < |frames|
    ensures ParsedOf(frames[..i + 1]) == ParsedOf(frames[..i]) + if frames[i].Parsed? then [frames[i].seen] else []
    ensures ParsedOf(frames[..i + 1]) <= ParsedOf(frames)
    decreases |frames| - i
  {
    assert frames[..i + 1][..i] == frames[..i];
    if i + 1 < |frames| {
      ParsedStep(frames, i + 1);
    } else {
      assert frames[..i + 1] == frames;
    }
  }
}
