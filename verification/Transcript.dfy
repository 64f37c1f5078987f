// Recovering the TLS handshake transcript from two directions, to verify Finished messages.
module Transcript {
  import opened Bytes
  import opened Lists

  // ------------------------------------------------------------ messages in a handshake body

  const FINISHED: byte := 0x14

  /** The bytes of one message: its length field says how long it is. */
  predicate IsMessage(m: bytes) { |m| >= 4 && |m| == 4 + FromBig(m[1..4]) }

  /** Four zero bytes are record padding and end the parse. */
  predicate IsPadding(body: bytes, off: nat)
    requires off + 4 <= |body|
  {
    FromBig(body[off + 1..off + 4]) == 0 && body[off] == 0
  }

  function MessagesIn(body: bytes, off: nat): seq<bytes>
    requires off <= |body|
    decreases |body| - off
  {
    if off + 4 > |body| || IsPadding(body, off) then []
    else
      var end := off + 4 + FromBig(body[off + 1..off + 4]);
      if end > |body| then [] else [body[off..end]] + MessagesIn(body, end)
  }

  method IterHandshakeMessages(body: bytes) returns (messages: seq<bytes>)
    ensures messages == MessagesIn(body, 0)
  {
    messages := [];
    var off := 0;
    while off + 4 <= |body|
      invariant off <= |body| && messages + MessagesIn(body, off) == MessagesIn(body, 0)
      decreases |body| - off
    {
      var length := FromBig(body[off + 1..off + 4]);
      if length == 0 && body[off] == 0 {
        return;
      }
      var msg := Slice(body, off, off + 4 + length);
      if |msg| != 4 + length {
        return;
      }
      OneMoreMessage(messages, body, off, msg);
      messages := messages + [msg];
      off := off + 4 + length;
    }
  }

  lemma OneMoreMessage(messages: seq<bytes>, body: bytes, off: nat, msg: bytes)
    requires off + 4 <= |body| && !IsPadding(body, off)
    requires var end := off + 4 + FromBig(body[off + 1..off + 4]); end <= |body| && msg == body[off..end]
    ensures messages + MessagesIn(body, off) == (messages + [msg]) + MessagesIn(body, off + |msg|)
  {
    assert messages + ([msg] + MessagesIn(body, off + |msg|)) == (messages + [msg]) + MessagesIn(body, off + |msg|);
  }

  /** A handshake message: type, 24-bit length, content. */
  datatype Message = Message(kind: byte, content: bytes) {
    /** Its length fits, and it is not the empty message of type 0, which reads as padding. */
    predicate Readable() { |content| < 0x100_0000 && (kind != 0 || content != []) }

    function Written(): bytes
      requires Readable()
    {
      [kind] + ToBig24(|content|) + content
    }
  }

  function AllWritten(ms: seq<Message>): seq<bytes>
    requires forall m :: m in ms ==> m.Readable()
  {
    seq(|ms|, i requires 0 <= i < |ms| => ms[i].Written())
  }

  /** Nothing is read from zeros, nor from a message that is cut short. */
  ghost predicate Ends(tail: bytes) {
    || (forall i :: 0 <= i < |tail| ==> tail[i] == 0)
    || (exists m: Message :: m.Readable() && tail < m.Written())
  }

  lemma WrittenIsMessage(m: Message)
    requires m.Readable()
    ensures IsMessage(m.Written()) && !IsPadding(m.Written(), 0)
    ensures FromBig(m.Written()[1..4]) == |m.content|
  {
    var w, b := m.Written(), ToBig24(|m.content|);
    assert w[1..4] == b;
    BigOfThree(b);
    assert w[0] == m.kind;
    hide FromBig;
  }

  lemma BigOfThree(b: bytes)
    requires |b| == 3
    ensures FromBig(b) == (b[0] as int) * 65536 + (b[1] as int) * 256 + b[2]
  {
    assert b[..2][..1] == [b[0]] && b[..2][..1][..0] == [];
    assert FromBig(b[..2][..1]) == b[0] as int;
    assert FromBig(b[..2]) == (b[0] as int) * 256 + b[1];
  }

  /**
    * Any list of messages, but for an empty one of type 0, comes back from its concatenation, followed by
    * nothing, by zero padding or by a message that is cut short anywhere.
    */
  lemma MessagesComeBack(ms: seq<Message>, tail: bytes)
    requires (forall m :: m in ms ==> m.Readable()) && Ends(tail)
    ensures MessagesIn(Join(AllWritten(ms)) + tail, 0) == AllWritten(ms)
  {
    hide *;
    AllAreMessages(ms);
    MessagesReadBack([], AllWritten(ms), tail);
    assert [] + Join(AllWritten(ms)) + tail == Join(AllWritten(ms)) + tail;
  }

  lemma AllAreMessages(ms: seq<Message>)
    requires forall m :: m in ms ==> m.Readable()
    ensures forall w :: w in AllWritten(ms) ==> IsMessage(w) && !IsPadding(w, 0)
  {
    hide Message.Written, IsPadding, FromBig;
    forall i | 0 <= i < |ms| ensures IsMessage(ms[i].Written()) && !IsPadding(ms[i].Written(), 0) {
      assert ms[i] in ms;
      WrittenIsMessage(ms[i]);
    }
  }

  lemma {:induction false} MessagesReadBack(before: bytes, messages: seq<bytes>, tail: bytes)
    requires (forall m :: m in messages ==> IsMessage(m) && !IsPadding(m, 0)) && Ends(tail)
    ensures MessagesIn(before + Join(messages) + tail, |before|) == messages
    decreases |messages|
  {
    hide *;
    if messages == [] {
      NothingJoined(before);
      NothingBehind(before, tail);
    } else {
      var m, rest := messages[0], messages[1..];
      MessagesReadBack(before + m, rest, tail);
      FirstJoined(messages);
      Regrouped(before, m, Join(rest), tail);
      FirstMessage(before, m, Join(rest) + tail);
    }
  }

  lemma NothingJoined(before: bytes)
    ensures Join([]) == [] && before + Join([]) == before
  {
  }

  lemma FirstJoined(messages: seq<bytes>)
    requires messages != []
    ensures Join(messages) == messages[0] + Join(messages[1..]) && messages == [messages[0]] + messages[1..]
  {
  }

  lemma Regrouped(a: bytes, b: bytes, c: bytes, d: bytes)
    ensures a + (b + c) + d == a + b + c + d == a + b + (c + d)
  {
  }

  lemma NothingBehind(before: bytes, tail: bytes)
    requires Ends(tail)
    ensures MessagesIn(before + tail, |before|) == []
  {
    hide MessagesIn, IsPadding, Message.Written, Message.Readable;
    if forall i :: 0 <= i < |tail| ==> tail[i] == 0 {
      PaddingEnds(before, tail);
    } else {
      var m: Message :| m.Readable() && tail < m.Written();
      CutMessageEnds(before, tail, m);
    }
  }

  lemma CutMessageEnds(before: bytes, tail: bytes, m: Message)
    requires m.Readable() && tail < m.Written()
    ensures MessagesIn(before + tail, |before|) == []
  {
    WrittenIsMessage(m);
    var body, n, w := before + tail, |before|, m.Written();
    assert |w| == 4 + |m.content|;
    hide FromBig, Message.Written;
    if |tail| >= 4 {
      assert body[n + 1..n + 4] == tail[1..4] == w[1..4];
    }
  }

  lemma PaddingEnds(before: bytes, zeros: bytes)
    requires forall i :: 0 <= i < |zeros| ==> zeros[i] == 0
    ensures MessagesIn(before + zeros, |before|) == []
  {
    var body, n := before + zeros, |before|;
    if n + 4 <= |body| {
      assert zeros[0] == 0 && zeros[1] == 0 && zeros[2] == 0 && zeros[3] == 0;
      assert body[n + 1..n + 4] == [0, 0, 0] && body[n] == 0;
      ZeroLength();
    }
  }

  lemma ZeroLength()
    ensures FromBig([0, 0, 0]) == 0
  {
    assert [0, 0, 0][..2] == [0, 0] && [0, 0][..1] == [0] && [0][..0] == [];
    assert FromBig([0]) == 0 && FromBig([0, 0]) == 0;
  }

  lemma FirstMessage(before: bytes, m: bytes, after: bytes)
    requires IsMessage(m) && !IsPadding(m, 0)
    ensures MessagesIn(before + m + after, |before|) == [m] + MessagesIn(before + m + after, |before| + |m|)
  {
    hide FromBig;
    var body, n := before + m + after, |before|;
    assert body[n + 1..n + 4] == m[1..4] && body[n] == m[0] && body[n..n + |m|] == m;
  }

  // ------------------------------------------------------------ ranks

  datatype Direction = Client | Server

  datatype Item = Item(direction: Direction, ts: real, msg: bytes)

  /** The canonical position of a message; every message has at least its type byte. */
  function Rank(item: Item, tls13: bool): (r: nat)
    requires item.msg != []
    ensures r <= 5
  {
    var kind := item.msg[0];
    if kind == 0x01 then 0
    else if kind == 0x04 && !tls13 then 4
    else if item.direction == Server && kind != FINISHED then 1
    else if item.direction == Client && kind != FINISHED then 2
    else if tls13 then (if item.direction == Server then 3 else 4)
    else (if item.direction == Client then 3 else 5)
  }

  ghost predicate WellFormed(items: seq<Item>) { forall x :: x in items ==> x.msg != [] }

  /** Items of one rank, in the order given. */
  function OfRank(items: seq<Item>, tls13: bool, rank: nat): seq<Item> {
    Kept((x: Item) => x.msg != [] && Rank(x, tls13) == rank, items)
  }

  function UpToRank(items: seq<Item>, tls13: bool, n: nat): seq<Item> {
    if n == 0 then [] else UpToRank(items, tls13, n - 1) + OfRank(items, tls13, n - 1)
  }

  /** All items, rank by rank. */
  function Ordered(items: seq<Item>, tls13: bool): seq<Item> { UpToRank(items, tls13, 6) }

  method ClassifyFinished(items: seq<Item>, tls13: bool) returns (groups: map<nat, seq<Item>>)
    requires WellFormed(items)
    ensures forall r :: r in groups ==> r < 6
    ensures forall r: nat :: (if r in groups then groups[r] else []) == OfRank(items, tls13, r)
  {
    hide OfRank;
    NoRanks(tls13);
    groups := map[];
    for i := 0 to |items|
      invariant forall r :: r in groups ==> r < 6
      invariant forall r: nat :: (if r in groups then groups[r] else []) == OfRank(items[..i], tls13, r)
    {
      var rank := Rank(items[i], tls13);
      var group := if rank in groups then groups[rank] else [];
      RanksWithOneMore(items, tls13, i);
      groups := groups[rank := group + [items[i]]];
    }
    assert items[..|items|] == items;
  }

  lemma NoRanks(tls13: bool)
    ensures forall r: nat :: OfRank([], tls13, r) == []
  {
  }

  lemma RankWithOneMore(items: seq<Item>, tls13: bool, i: nat, r: nat)
    requires i < |items| && items[i].msg != []
    ensures OfRank(items[..i + 1], tls13, r)
         == OfRank(items[..i], tls13, r) + if r == Rank(items[i], tls13) then [items[i]] else []
  {
    hide Rank;
    assert items[..i + 1] == items[..i] + [items[i]];
    KeptAppends((x: Item) => x.msg != [] && Rank(x, tls13) == r, items[..i], [items[i]]);
  }

  lemma RanksWithOneMore(items: seq<Item>, tls13: bool, i: nat)
    requires i < |items| && items[i].msg != []
    ensures forall r: nat :: OfRank(items[..i + 1], tls13, r)
                          == OfRank(items[..i], tls13, r) + if r == Rank(items[i], tls13) then [items[i]] else []
  {
    hide *;
    forall r: nat
      ensures OfRank(items[..i + 1], tls13, r)
           == OfRank(items[..i], tls13, r) + if r == Rank(items[i], tls13) then [items[i]] else []
    {
      RankWithOneMore(items, tls13, i, r);
    }
  }

  method OrderedFinished(items: seq<Item>, tls13: bool) returns (ordered: seq<Item>)
    requires WellFormed(items)
    ensures ordered == Ordered(items, tls13)
  {
    var groups := ClassifyFinished(items, tls13);
    ordered := [];
    for rank := 0 to 6
      invariant ordered == UpToRank(items, tls13, rank)
    {
      if rank in groups {
        ordered := ordered + groups[rank];
      }
    }
  }

  // ------------------------------------------------------------ recovery

  function From(d: Direction, wire: seq<Item>): seq<Item> { Kept((x: Item) => x.direction == d, wire) }

  /** What the verifier hashes: the client's messages, then the server's, put in rank order. */
  function Recovered(wire: seq<Item>, tls13: bool): seq<Item> {
    Ordered(From(Client, wire) + From(Server, wire), tls13)
  }

  /** Rank first, and within a rank the client before the server. */
  function Place(x: Item, tls13: bool): (k: nat)
    requires x.msg != []
    ensures k < 12
  {
    2 * Rank(x, tls13) + if x.direction == Client then 0 else 1
  }

  function OfPlace(wire: seq<Item>, tls13: bool, k: nat): seq<Item> {
    Kept((x: Item) => x.msg != [] && Place(x, tls13) == k, wire)
  }

  function UpToPlace(wire: seq<Item>, tls13: bool, n: nat): seq<Item> {
    if n == 0 then [] else UpToPlace(wire, tls13, n - 1) + OfPlace(wire, tls13, n - 1)
  }

  ghost predicate InPlace(wire: seq<Item>, tls13: bool)
    requires WellFormed(wire)
  {
    forall i, j :: 0 <= i < j < |wire| ==> Place(wire[i], tls13) <= Place(wire[j], tls13)
  }

  lemma RankIsTwoPlaces(wire: seq<Item>, tls13: bool, rank: nat)
    ensures OfRank(From(Client, wire) + From(Server, wire), tls13, rank)
         == OfPlace(wire, tls13, 2 * rank) + OfPlace(wire, tls13, 2 * rank + 1)
  {
    var ofRank := (x: Item) => x.msg != [] && Rank(x, tls13) == rank;
    KeptAppends(ofRank, From(Client, wire), From(Server, wire));
    KeptTwice((x: Item) => x.direction == Client, ofRank, (x: Item) => x.msg != []
                                                                       && Place(x, tls13) == 2 * rank, wire);
    KeptTwice((x: Item) => x.direction == Server, ofRank, (x: Item) => x.msg != []
                                                                       && Place(x, tls13) == 2 * rank + 1, wire);
  }

  lemma {:induction false} RecoveryGoesByPlace(wire: seq<Item>, tls13: bool, n: nat)
    ensures UpToRank(From(Client, wire) + From(Server, wire), tls13, n) == UpToPlace(wire, tls13, 2 * n)
  {
    if n > 0 {
      RecoveryGoesByPlace(wire, tls13, n - 1);
      RankIsTwoPlaces(wire, tls13, n - 1);
      assert UpToPlace(wire, tls13, 2 * n) == UpToPlace(wire, tls13, 2 * n - 1) + OfPlace(wire, tls13, 2 * n - 1);
    }
  }

  /** Whatever the wire order was, the recovered messages stand in place order. */
  lemma {:induction false} PlacesAscend(wire: seq<Item>, tls13: bool, n: nat)
    ensures WellFormed(UpToPlace(wire, tls13, n)) && InPlace(UpToPlace(wire, tls13, n), tls13)
    ensures forall x :: x in UpToPlace(wire, tls13, n) ==> Place(x, tls13) < n
  {
    if n > 0 {
      PlacesAscend(wire, tls13, n - 1);
      KeptIsSub((x: Item) => x.msg != [] && Place(x, tls13) == n - 1, wire);
      var before, last := UpToPlace(wire, tls13, n - 1), OfPlace(wire, tls13, n - 1);
      assert WellFormed(before + last);
      Appended(before, last, tls13, n - 1);
    }
  }

  lemma Appended(before: seq<Item>, last: seq<Item>, tls13: bool, k: nat)
    requires WellFormed(before + last) && WellFormed(before) && InPlace(before, tls13)
    requires (forall x :: x in before ==> Place(x, tls13) < k) && forall x :: x in last ==> x.msg != []
                                                                                            && Place(x, tls13) == k
    ensures InPlace(before + last, tls13)
  {
    hide Place;
    var all := before + last;
    forall i, j | 0 <= i < j < |all| ensures all[i].msg != [] && all[j].msg != []
                                             && Place(all[i], tls13) <= Place(all[j], tls13) {
      assert all[i] in all && all[j] in all;
      if j >= |before| {
        assert last[j - |before|] in last;
        if i < |before| {
          assert before[i] in before;
        } else {
          assert last[i - |before|] in last;
        }
      }
    }
  }

  /** An item that stands after every other comes last. */
  lemma {:induction false} LastPlaceComesLast(wire: seq<Item>, x: Item, tls13: bool, n: nat)
    requires WellFormed(wire) && NoneAfter(wire, x, tls13)
    ensures UpToPlace(wire + [x], tls13, n) == UpToPlace(wire, tls13, n) + if Place(x, tls13) < n then [x] else []
  {
    hide OfPlace, Place, NoneAfter;
    if n > 0 {
      LastPlaceComesLast(wire, x, tls13, n - 1);
      OfPlaceAppends(wire, x, tls13, n - 1);
    }
  }

  ghost predicate NoneAfter(wire: seq<Item>, x: Item, tls13: bool)
    requires WellFormed(wire)
  {
    x.msg != [] && forall y :: y in wire ==> Place(y, tls13) <= Place(x, tls13)
  }

  lemma OfPlaceAppends(wire: seq<Item>, x: Item, tls13: bool, k: nat)
    requires WellFormed(wire) && NoneAfter(wire, x, tls13)
    ensures OfPlace(wire + [x], tls13, k) == OfPlace(wire, tls13, k) + if Place(x, tls13) == k then [x] else []
    ensures Place(x, tls13) < k ==> OfPlace(wire, tls13, k) == []
  {
    hide Place;
    var p := (y: Item) => y.msg != [] && Place(y, tls13) == k;
    KeptAppends(p, wire, [x]);
    KeptIsSub(p, wire);
    if OfPlace(wire, tls13, k) != [] {
      var first := OfPlace(wire, tls13, k)[0];
      assert first in OfPlace(wire, tls13, k) && first in wire;
    }
  }

  lemma {:induction false} InPlaceStays(wire: seq<Item>, tls13: bool)
    requires WellFormed(wire) && InPlace(wire, tls13)
    ensures UpToPlace(wire, tls13, 12) == wire
  {
    if wire == [] {
      NothingHasPlaces(tls13, 12);
    } else {
      var init, last := wire[..|wire| - 1], wire[|wire| - 1];
      InPlaceStays(init, tls13);
      LastPlaceComesLast(init, last, tls13, 12);
      assert init + [last] == wire;
    }
  }

  lemma {:induction false} NothingHasPlaces(tls13: bool, n: nat)
    ensures UpToPlace([], tls13, n) == []
  {
    if n > 0 {
      NothingHasPlaces(tls13, n - 1);
    }
  }

  /**
    * The transcript comes back exactly as it was on the wire if and only if the wire order already was
    * place order: by rank, and within one rank the client's messages before the server's.
    */
  lemma TranscriptRecoveredIff(wire: seq<Item>, tls13: bool)
    requires WellFormed(wire)
    ensures Recovered(wire, tls13) == wire <==> InPlace(wire, tls13)
  {
    RecoveryGoesByPlace(wire, tls13, 6);
    PlacesAscend(wire, tls13, 12);
    if InPlace(wire, tls13) {
      InPlaceStays(wire, tls13);
    }
  }

  // ------------------------------------------------------------ which handshakes

  predicate Is(x: Item, d: Direction, kind: byte) { x.direction == d && x.msg != [] && x.msg[0] == kind }

  /** Messages of one side that are neither hello, ticket nor Finished. */
  ghost predicate Flight(items: seq<Item>, d: Direction) {
    forall x :: x in items ==> x.direction == d && x.msg != [] && x.msg[0] !in {0x01, 0x04, FINISHED}
  }

  /** All items stand at place k. */
  ghost predicate AllAt(items: seq<Item>, tls13: bool, k: nat) {
    forall x :: x in items ==> x.msg != [] && Place(x, tls13) == k
  }

  lemma Extends(wire: seq<Item>, more: seq<Item>, tls13: bool, k: nat)
    requires WellFormed(wire) && InPlace(wire, tls13) && (forall x :: x in wire ==> Place(x, tls13) < k)
             && AllAt(more, tls13, k)
    ensures WellFormed(wire + more) && InPlace(wire + more, tls13)
    ensures forall x :: x in wire + more ==> Place(x, tls13) < k + 1
  {
    hide Place;
    assert WellFormed(wire + more);
    Appended(wire, more, tls13, k);
  }

  /** A full TLS 1.2 handshake (section 7.3 of RFC 5246), with tickets (RFC 5077) between the two Finished messages. */
  lemma FullTls12IsRecovered(hello: Item, serverFlight: seq<Item>, clientFlight: seq<Item>, clientFinished: Item,
                             tickets: seq<Item>, serverFinished: Item)
    requires Is(hello, Client, 0x01) && Flight(serverFlight, Server) && Flight(clientFlight, Client)
    requires Is(clientFinished, Client, FINISHED) && Is(serverFinished, Server, FINISHED)
    requires forall x :: x in tickets ==> Is(x, Server, 0x04)
    ensures var wire := [hello] + serverFlight + clientFlight + [clientFinished] + tickets + [serverFinished];
            Recovered(wire, false) == wire
  {
    assert AllAt([hello], false, 0) && AllAt(serverFlight, false, 3) && AllAt(clientFlight, false, 4)
           && AllAt([clientFinished], false, 6) && AllAt(tickets, false, 9) && AllAt([serverFinished], false, 11);
    hide Place, Rank, Is, Flight, InPlace, WellFormed, AllAt, Recovered;
    Alone(hello, false, 0);
    Extends([hello], serverFlight, false, 3);
    Extends([hello] + serverFlight, clientFlight, false, 4);
    Extends([hello] + serverFlight + clientFlight, [clientFinished], false, 6);
    Extends([hello] + serverFlight + clientFlight + [clientFinished], tickets, false, 9);
    Extends([hello] + serverFlight + clientFlight + [clientFinished] + tickets, [serverFinished], false, 11);
    TranscriptRecoveredIff([hello] + serverFlight + clientFlight + [clientFinished] + tickets + [serverFinished],
                           false);
  }

  lemma Alone(x: Item, tls13: bool, k: nat)
    requires AllAt([x], tls13, k)
    ensures WellFormed([x]) && InPlace([x], tls13) && forall y :: y in [x] ==> Place(y, tls13) < k + 1
  {
    assert x in [x];
    hide Place;
  }

  /** TLS 1.3 without client authentication or a retried hello (section 2 of RFC 8446). */
  lemma Tls13IsRecovered(hello: Item, serverFlight: seq<Item>, serverFinished: Item, clientFinished: Item)
    requires Is(hello, Client, 0x01) && Flight(serverFlight, Server)
    requires Is(serverFinished, Server, FINISHED) && Is(clientFinished, Client, FINISHED)
    ensures var wire := [hello] + serverFlight + [serverFinished] + [clientFinished]; Recovered(wire, true) == wire
  {
    assert AllAt([hello], true, 0) && AllAt(serverFlight, true, 3) && AllAt([serverFinished], true, 7)
           && AllAt([clientFinished], true, 8);
    hide Place, Rank, Is, Flight, InPlace, WellFormed, AllAt, Recovered;
    Alone(hello, true, 0);
    Extends([hello], serverFlight, true, 3);
    Extends([hello] + serverFlight, [serverFinished], true, 7);
    Extends([hello] + serverFlight + [serverFinished], [clientFinished], true, 8);
    TranscriptRecoveredIff([hello] + serverFlight + [serverFinished] + [clientFinished], true);
  }

  /**
    * Handshakes that are not recovered: a resumed TLS 1.2 one (server Finished first), a TLS 1.3 one with
    * client authentication (a client flight after the server Finished) or a retried hello.
    */
  lemma OtherHandshakesAreReordered(wire: seq<Item>, tls13: bool, i: nat, j: nat)
    requires WellFormed(wire) && i < j < |wire|
    requires
      || (!tls13 && Is(wire[i], Server, FINISHED) && Is(wire[j], Client, FINISHED))
      || (tls13 && Is(wire[i], Server, FINISHED) && Flight([wire[j]], Client))
      || (Flight([wire[i]], Server) && Is(wire[j], Client, 0x01))
    ensures Recovered(wire, tls13) != wire
  {
    assert wire[i] in [wire[i]] && wire[j] in [wire[j]];
    assert Place(wire[i], tls13) > Place(wire[j], tls13);
    hide Recovered, Place;
    TranscriptRecoveredIff(wire, tls13);
  }
}
