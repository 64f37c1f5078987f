// The session database: tables, one writer, and batched transactions.
module Storage {
  import opened Wrappers
  import opened Bytes
  import opened Packets
  import opened FlowTracker

  // ------------------------------------------------------------ stored time

  /** Python's `round`: to the nearest integer, halves to the even one. */
  function Round(x: real): int {
    var n := x.Floor;
    var part := x - n as real;
    if part < 0.5 || (part == 0.5 && n % 2 == 0) then n else n + 1
  }

  function ToMicros(ts: real): int { Round(ts * 1000000.0) }

  function FromMicros(us: int): real { us as real / 1000000.0 }

  /** Stored time reads back exactly, and storing rounds to the nearest microsecond, of two as near to the even one. */
  lemma StoredTimeReadsBack(us: int, ts: real)
    ensures ToMicros(FromMicros(us)) == us
    ensures -0.0000005 <= FromMicros(ToMicros(ts)) - ts <= 0.0000005
    ensures FromMicros(ToMicros(ts)) - ts in {-0.0000005, 0.0000005} ==> ToMicros(ts) % 2 == 0
  {
    assert FromMicros(us) * 1000000.0 == us as real;
    assert (us as real).Floor == us;
  }

  // ------------------------------------------------------------ raw payload blocks

  const CHUNK_SIZE := 65536

  datatype Block = Block(seqNo: nat, data: bytes)

  /** `data` cut into blocks of `size` bytes, numbered from `n`. */
  function Chunks(data: bytes, size: nat, n: nat): seq<Block>
    requires size > 0
    decreases |data|
  {
    if data == [] then []
    else if |data| <= size then [Block(n, data)]
    else [Block(n, data[..size])] + Chunks(data[size..], size, n + 1)
  }

  lemma ChunkStep(data: bytes, i: nat, size: nat, n: nat)
    requires size > 0 && i < |data|
    ensures Chunks(DropFirst(data, i), size, n)
         == [Block(n, Slice(data, i, i + size))] + Chunks(DropFirst(data, i + size), size, n + 1)
  {
    var rest := data[i..];
    if i + size < |data| {
      assert rest[..size] == data[i..i + size] && rest[size..] == data[i + size..];
    } else {
      assert Slice(data, i, i + size) == rest;
    }
  }

  method ChunkBytes(data: bytes, size: nat) returns (blocks: seq<Block>)
    requires size > 0
    ensures blocks == Chunks(data, size, 0)
  {
    hide Chunks, Slice;
    blocks := [];
    var n, i := 0, 0;
    assert [] + Chunks(data, size, 0) == Chunks(data, size, 0) && data[0..] == data;
    while i < |data|
      invariant 0 <= i
      invariant blocks + Chunks(DropFirst(data, i), size, n) == Chunks(data, size, 0)
      decreases |data| - i
    {
      ChunkStep(data, i, size, n);
      var block := Block(n, Slice(data, i, i + size));
      assert blocks + ([block] + Chunks(DropFirst(data, i + size), size, n + 1))
          == (blocks + [block]) + Chunks(DropFirst(data, i + size), size, n + 1);
      blocks := blocks + [block];
      n := n + 1;
      i := i + size;
    }
    NoChunks(size, n);
    assert DropFirst(data, i) == [] && blocks + [] == blocks;
  }

  lemma NoChunks(size: nat, n: nat)
    requires size > 0
    ensures Chunks([], size, n) == []
  {
  }

  function Payloads(blocks: seq<Block>): seq<bytes> {
    if blocks == [] then [] else [blocks[0].data] + Payloads(blocks[1..])
  }

  /** Blocks are numbered consecutively, none is empty or over-long, and joined in order they are the data. */
  lemma {:induction false} ChunksJoinBack(data: bytes, size: nat, n: nat)
    requires size > 0
    ensures var blocks := Chunks(data, size, n);
            && Join(Payloads(blocks)) == data
            && forall i :: 0 <= i < |blocks| ==> blocks[i].seqNo == n + i && 0 < |blocks[i].data| <= size
    decreases |data|
  {
    if 0 < |data| <= size {
      var only := [Block(n, data)];
      assert only[1..] == [] && Payloads(only) == [data] && [data][1..] == [];
      assert Join([data]) == data + Join([]) == data;
    } else if data != [] {
      ChunksJoinBack(data[size..], size, n + 1);
      var rest := Chunks(data[size..], size, n + 1);
      var blocks := [Block(n, data[..size])] + rest;
      assert blocks[1..] == rest;
      assert Payloads(blocks)[1..] == Payloads(rest);
      assert data == data[..size] + data[size..];
    }
  }

  // ------------------------------------------------------------ tables

  datatype PacketRow = PacketRow(
    id: nat, ts: int, source: string, destination: string, protocol: string,
    srcPort: Option<nat>, dstPort: Option<nat>, length: nat, flowId: nat)

  datatype FlowRow = FlowRow(
    source: string, destination: string, protocol: string, srcPort: Option<nat>, dstPort: Option<nat>,
    startTs: int, endTs: int, packetCount: nat, bytes: nat)

  datatype EventRow = EventRow(ts: int, kind: string, flowId: Option<nat>, summary: string, packetId: Option<nat>)

  datatype Status = Capturing | Ready | Failed

  /** What finalizing records about a capture. */
  datatype Integrity = Integrity(dropped: nat, malformed: nat, packetsWritten: nat)

  datatype Tables = Tables(
    packets: seq<PacketRow>, blocks: map<nat, seq<Block>>, flows: map<nat, FlowRow>, events: seq<EventRow>,
    status: Status, integrity: Option<Integrity>)

  const EMPTY := Tables([], map[], map[], [], Capturing, None)

  function NextId(packets: seq<PacketRow>): nat {
    if packets == [] then 1 else packets[|packets| - 1].id + 1
  }

  function RowOf(id: nat, p: ParsedPacket, flowId: nat): PacketRow {
    PacketRow(id, ToMicros(p.ts), p.source, p.destination, p.protocol, p.srcPort, p.dstPort, p.length, flowId)
  }

  function WithPacket(t: Tables, p: ParsedPacket, flowId: nat): Tables {
    var id := NextId(t.packets);
    t.(packets := t.packets + [RowOf(id, p, flowId)],
    blocks := t.blocks[id := Chunks(p.raw, CHUNK_SIZE, 0)],
    status := Capturing)
  }

  /** Insert, or update everything but the start time. */
  function WithFlow(t: Tables, f: Flow): Tables {
    var start := if f.id in t.flows then t.flows[f.id].startTs else ToMicros(f.startTs);
    t.(flows := t.flows[f.id := FlowRow(f.source, f.destination, f.protocol, f.srcPort, f.dstPort, start,
                                        ToMicros(f.endTs), f.packetCount, f.bytes)])
  }

  function WithEvent(t: Tables, e: EventRow): Tables { t.(events := t.events + [e]) }

  // ------------------------------------------------------------ the writer

  /**
    * The writer's connection. `working` is what it sees, `committed` is what is durable, and
    * `durable` lists every durable state there has been. What the database refuses is a parameter
    * of each call. A write may fail half-way: it then reports false and leaves anything at all in
    * `working`.
    */
  class SessionStorage {
    var committed: Tables
    var working: Tables
    var batchDepth: nat
    ghost var durable: seq<Tables>

    ghost predicate Valid()
      reads this
    {
      durable != [] && durable[|durable| - 1] == committed
    }

    constructor ()
      ensures Valid() && committed == working == EMPTY && batchDepth == 0 && durable == [EMPTY]
    {
      committed, working, batchDepth, durable := EMPTY, EMPTY, 0, [EMPTY];
    }

    method Commit()
      requires Valid()
      modifies this
      ensures Valid() && committed == working == old(working) && batchDepth == old(batchDepth)
      ensures durable == old(durable) + [old(working)]
    {
      committed := working;
      durable := durable + [committed];
    }

    method BeginBatch()
      requires Valid()
      modifies this`batchDepth
      ensures Valid() && batchDepth == old(batchDepth) + 1
    {
      batchDepth := batchDepth + 1;
    }

    /**
      * Committing with no open batch is an error; an inner commit only closes its level. When
      * the database refuses the outermost commit the batch is already closed, its writes pending.
      */
    method CommitBatch(refused: bool) returns (ok: bool)
      requires Valid()
      modifies this
      ensures Valid() && working == old(working)
      ensures ok <==> old(batchDepth) > 0 && !(refused && old(batchDepth) == 1)
      ensures batchDepth == if old(batchDepth) > 0 then old(batchDepth) - 1 else 0
      ensures if ok && batchDepth == 0 then committed == working && durable == old(durable) + [working]
              else committed == old(committed) && durable == old(durable)
    {
      if batchDepth == 0 {
        return false;
      }
      batchDepth := batchDepth - 1;
      if batchDepth == 0 {
        if refused {
          return false;
        }
        Commit();
      }
      return true;
    }

    /**
      * Discards every uncommitted write of an open batch, at any depth. When the database raises the batch is
      * closed all the same, and what is pending may be anything; nothing durable changes either way.
      */
    method RollbackBatch(refused: bool) returns (ok: bool)
      requires Valid()
      modifies this
      ensures Valid() && committed == old(committed) && durable == old(durable) && batchDepth == 0
      ensures ok ==> working == if old(batchDepth) > 0 then committed else old(working)
      ensures ok <==> !(refused && old(batchDepth) > 0)
    {
      ok := true;
      if batchDepth > 0 {
        if refused {
          ok, working := false, *;
        } else {
          working := committed;
        }
        batchDepth := 0;
      }
    }

    /** Outside a batch every write commits at once. */
    method Flush()
      requires Valid()
      modifies this
      ensures Valid() && working == old(working) && batchDepth == old(batchDepth)
      ensures if batchDepth == 0 then committed == working && durable == old(durable) + [working]
              else committed == old(committed) && durable == old(durable)
    {
      if batchDepth == 0 {
        Commit();
      }
    }

    /** What a write does to the durable state: nothing when it fails or inside a batch. */
    twostate predicate Wrote(ok: bool, result: Tables)
      reads this
    {
      && Valid() && batchDepth == old(batchDepth) && (ok ==> working == result)
      && if ok && batchDepth == 0 then committed == result && durable == old(durable) + [result]
         else committed == old(committed) && durable == old(durable)
    }

    method AddPacket(p: ParsedPacket, flowId: nat, raises: bool) returns (ok: bool, id: nat)
      requires Valid()
      modifies this
      ensures id == NextId(old(working).packets) && Wrote(ok, WithPacket(old(working), p, flowId)) && ok == !raises
    {
      id := NextId(working.packets);
      var row := RowOf(id, p, flowId);
      var blocks := ChunkBytes(p.raw, CHUNK_SIZE);
      ok := Interrupted(working.(packets := working.packets + [row], blocks := working.blocks[id := blocks],
                        status := Capturing), raises);
      if ok {
        Flush();
      }
    }

    method UpsertFlow(f: Flow, raises: bool) returns (ok: bool)
      requires Valid()
      modifies this
      ensures Wrote(ok, WithFlow(old(working), f)) && ok == !raises
    {
      ok := Interrupted(WithFlow(working, f), raises);
      if ok {
        Flush();
      }
    }

    method AddEvent(e: EventRow, raises: bool) returns (ok: bool)
      requires Valid()
      modifies this
      ensures Wrote(ok, WithEvent(old(working), e)) && ok == !raises
    {
      ok := Interrupted(WithEvent(working, e), raises);
      if ok {
        Flush();
      }
    }

    /** The statements of one write: they all run, or one raises and what ran before it stays in `working`. */
    method Interrupted(result: Tables, raises: bool) returns (ok: bool)
      modifies this`working
      ensures ok == !raises && (ok ==> working == result)
    {
      ok := !raises;
      if ok {
        working := result;
      } else {
        working := *;
      }
    }

    /**
      * Commits what is pending, then records counts and status in a second transaction. Either
      * commit may be refused, and the second transaction may stop half-way.
      */
    method Finalize(dropped: nat, malformed: nat, status: Status, raises: bool) returns (ok: bool)
      requires Valid()
      modifies this
      ensures Valid() && batchDepth == old(batchDepth) && SameRows(working, old(working)) && ok == !raises
      ensures ok ==>
                && committed == working == Finalized(old(working), dropped, malformed, status)
                && durable == old(durable) + [old(working), committed]
      ensures !ok ==>
                || (committed == old(committed) && durable == old(durable))
                || (committed == old(working) && durable == old(durable) + [old(working)])
    {
      ok := !raises;
      var first: bool := *;
      if raises && first {
        return;
      }
      Commit();
      working := working.(integrity := Some(Integrity(dropped, malformed, |working.packets|)));
      working := working.(status := status);
      if raises {
        var status, integrity := *, *;
        working := working.(status := status, integrity := integrity);
        return;
      }
      Commit();
    }
  }

  /** The tables with final counts and status. */
  function Finalized(t: Tables, dropped: nat, malformed: nat, status: Status): Tables {
    t.(status := status, integrity := Some(Integrity(dropped, malformed, |t.packets|)))
  }

  /** The same rows: nothing differs but status and integrity. */
  predicate SameRows(t: Tables, u: Tables) {
    t.packets == u.packets && t.blocks == u.blocks && t.flows == u.flows && t.events == u.events
  }
}
