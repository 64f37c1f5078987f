// Walking the TLS records of a recorded stream, as decryption does: any type byte, and a record
// that is cut off is an error.
module RecordIterator {
  import opened Wrappers
  import opened Bytes
  import opened Lists
  import opened Framing
  import opened TlsStream

  /** A record and the offset at which it starts. */
  datatype Found = Found(off: nat, record: Record)

  /** The records from `off` on, and whether the last one is cut off. */
  function RecordsFrom(data: bytes, off: nat): (seq<Found>, bool)
    requires off <= |data|
    decreases |data| - off
  {
    if off + 5 > |data| then ([], false)
    else
      var end := off + 5 + Be16(data, off + 3);
      if end > |data| then ([], true)
      else
        var (found, truncated) := RecordsFrom(data, end);
        ([Found(off, Record(data[off], Be16(data, off + 1), data[off + 5..end]))] + found, truncated)
  }

  method IterRecords(data: bytes) returns (found: seq<Found>, truncated: bool)
    ensures (found, truncated) == RecordsFrom(data, 0)
  {
    found := [];
    var off := 0;
    ghost var rest := RecordsFrom(data, 0);
    assert [] + rest.0 == rest.0;
    while off + 5 <= |data|
      invariant off <= |data|
      invariant found + RecordsFrom(data, off).0 == RecordsFrom(data, 0).0
      invariant RecordsFrom(data, off).1 == RecordsFrom(data, 0).1
      decreases |data| - off
    {
      var end := off + 5 + Be16(data, off + 3);
      var body := Slice(data, off + 5, end);
      if end > |data| {
        assert found + [] == found;
        return found, true;
      }
      var next := Found(off, Record(data[off], Be16(data, off + 1), body));
      Reassociate(found, [next], RecordsFrom(data, end).0);
      found := found + [next];
      off := end;
    }
    assert found + [] == found;
    return found, false;
  }

  /** The first whole record of a buffer, whatever its type. */
  function NextAny(buf: bytes): Option<(Record, nat)> {
    if |buf| < 5 || |buf| < 5 + Be16(buf, 3) then None
    else Some((Record(buf[0], Be16(buf, 1), buf[5..5 + Be16(buf, 3)]), 5 + Be16(buf, 3)))
  }

  lemma NextAnyProgresses()
    ensures Progresses(NextAny)
  {
  }

  function Starting(found: seq<Found>): seq<Record> {
    seq(|found|, i requires 0 <= i < |found| => found[i].record)
  }

  /** Each record starts where the one before ended. */
  ghost predicate Contiguous(found: seq<Found>, from: nat, to: nat)
    decreases |found|
  {
    if found == [] then from == to
    else found[0].off == from && Contiguous(found[1..], from + 5 + |found[0].record.body|, to)
  }

  lemma NextAt(data: bytes, off: nat)
    requires off + 5 <= |data| && off + 5 + Be16(data, off + 3) <= |data|
    ensures var end := off + 5 + Be16(data, off + 3);
            NextAny(data[off..]) == Some((Record(data[off], Be16(data, off + 1), data[off + 5..end]), end - off))
    ensures data[off..][5 + Be16(data, off + 3)..] == data[off + 5 + Be16(data, off + 3)..]
  {
    var rest := data[off..];
    assert Be16(rest, 3) == Be16(data, off + 3) && Be16(rest, 1) == Be16(data, off + 1);
    assert rest[5..5 + Be16(rest, 3)] == data[off + 5..off + 5 + Be16(data, off + 3)];
  }

  /** The records found are the framed ones, back to back, and truncation is a left-over record header. */
  ghost predicate Walked(data: bytes, off: nat, found: seq<Found>, truncated: bool, f: Framed<Record>)
    requires off <= |data|
  {
    && |f.rest| <= |data| - off && Starting(found) == f.items && Contiguous(found, off, |data| - |f.rest|)
    && (truncated <==> |f.rest| >= 5)
  }

  /** A whole record stands at `off`. */
  predicate WholeAt(data: bytes, off: nat) {
    off + 5 <= |data| && off + 5 + Be16(data, off + 3) <= |data|
  }

  /** The walk finds exactly the whole records of the stream and reports truncation exactly when one was cut off. */
  lemma {:induction false} WalkIsFraming(data: bytes, off: nat)
    requires off <= |data|
    ensures Progresses(NextAny)
    ensures Walked(data, off, RecordsFrom(data, off).0, RecordsFrom(data, off).1, Extract(NextAny, data[off..]))
    decreases |data| - off
  {
    hide *;
    NextAnyProgresses();
    if !WholeAt(data, off) {
      NothingWhole(data, off);
    } else {
      WholeIs(data, off);
      var end := off + 5 + Be16(data, off + 3);
      WalkIsFraming(data, end);
      NextAt(data, off);
      var r := Record(data[off], Be16(data, off + 1), data[off + 5..end]);
      ExtractStep(NextAny, data[off..], r, end - off);
      OneWalked(data, off, RecordsFrom(data, end).0, RecordsFrom(data, end).1, Extract(NextAny, data[end..]));
    }
  }

  lemma WholeIs(data: bytes, off: nat)
    requires off <= |data| && WholeAt(data, off)
    ensures off + 5 <= |data| && off + 5 + Be16(data, off + 3) <= |data|
  {
  }

  lemma NothingWhole(data: bytes, off: nat)
    requires off <= |data| && !WholeAt(data, off) && Progresses(NextAny)
    ensures Walked(data, off, RecordsFrom(data, off).0, RecordsFrom(data, off).1, Extract(NextAny, data[off..]))
  {
    var rest := data[off..];
    if off + 5 <= |data| {
      assert Be16(rest, 3) == Be16(data, off + 3);
    }
    ExtractStuck(NextAny, rest);
    hide Extract, Progresses;
  }

  lemma OneWalked(data: bytes, off: nat, later: seq<Found>, truncated: bool, f: Framed<Record>)
    requires off <= |data| && WholeAt(data, off)
    requires var end := off + 5 + Be16(data, off + 3); Walked(data, end, later, truncated, f)
    ensures var end := off + 5 + Be16(data, off + 3);
            var r := Record(data[off], Be16(data, off + 1), data[off + 5..end]);
            && RecordsFrom(data, off).0 == [Found(off, r)] + RecordsFrom(data, end).0
            && RecordsFrom(data, off).1 == RecordsFrom(data, end).1
            && Walked(data, off, [Found(off, r)] + later, truncated, Framed([r] + f.items, f.rest))
  {
    hide Be16;
    var end := off + 5 + Be16(data, off + 3);
    var r := Record(data[off], Be16(data, off + 1), data[off + 5..end]);
    assert ([Found(off, r)] + later)[1..] == later;
    assert Starting([Found(off, r)] + later) == [r] + Starting(later);
  }

  /** Serialised records are walked one for one, without truncation, like the incremental parser reads them. */
  lemma WireIsWalked(rs: seq<Record>)
    requires forall r :: r in rs ==> Fits()(r)
    ensures var (found, truncated) := RecordsFrom(Wire(rs), 0);
            Starting(found) == rs == Records(Wire(rs)).items && Contiguous(found, 0, |Wire(rs)|) && !truncated
  {
    hide *;
    NextAnyProgresses();
    NextAnyReadsBack();
    WalkIsFraming(Wire(rs), 0);
    EncodedItemsComeBack(NextAny, Serialize(), Fits(), rs, []);
    TlsRecordsComeBack(rs, []);
    NothingIsFramed();
    WireIs(rs);
    var wire, found := Wire(rs), RecordsFrom(Wire(rs), 0).0;
    assert wire + [] == wire && rs + [] == rs && wire[0..] == wire;
    WalkedWhole(wire, found, RecordsFrom(wire, 0).1, rs);
  }

  lemma NothingIsFramed()
    ensures Progresses(NextAny) && Extract(NextAny, []) == Framed([], []) == Records([])
  {
    NextAnyProgresses();
    ExtractStuck(NextAny, []);
    RecordsStuck([]);
  }

  lemma WireIs(rs: seq<Record>)
    ensures Wire(rs) == Encoded(Serialize(), rs)
  {
  }

  lemma WalkedWhole(data: bytes, found: seq<Found>, truncated: bool, rs: seq<Record>)
    requires Walked(data, 0, found, truncated, Framed(rs, []))
    ensures Starting(found) == rs && Contiguous(found, 0, |data|) && !truncated
  {
  }

  lemma NextAnyReadsBack()
    ensures ReadsBack(NextAny, Serialize(), Fits())
  {
    forall r: Record, tail: bytes | Fits()(r)
      ensures NextAny(Serialize()(r) + tail) == Some((r, |Serialize()(r)|))
    {
      RecordsReadBack();
      assert NextRecord(Serialize()(r) + tail) == Some((r, |Serialize()(r)|));
    }
  }
}
