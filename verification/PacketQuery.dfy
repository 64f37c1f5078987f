// Reading stored packets back: keyset pages in capture order, and a packet's raw bytes.
module PacketQuery {
  import opened Wrappers
  import opened Bytes
  import opened Storage
  import opened Lists
  import opened Capture

  // ------------------------------------------------------------ ORDER BY ts, id

  predicate NotAfter(a: PacketRow, b: PacketRow) { a.ts < b.ts || (a.ts == b.ts && a.id <= b.id) }

  function InOrder(rows: seq<PacketRow>): seq<PacketRow> { Sort(NotAfter, rows) }

  ghost predicate DistinctIds(rows: seq<PacketRow>) {
    forall i, j :: 0 <= i < j < |rows| ==> rows[i].id != rows[j].id
  }

  /** SQLite's LIMIT: a negative one is no limit. */
  function Limited<T>(s: seq<T>, n: int): seq<T> {
    if n < 0 || n >= |s| then s else s[..n]
  }

  /** WHERE ts > ? OR (ts = ? AND id > ?). */
  function AfterKey(ts: int, id: nat): PacketRow -> bool {
    (r: PacketRow) => r.ts > ts || (r.ts == ts && r.id > id)
  }

  /**
    * All packets, a page at a time, each page starting after the last key of the one before.
    * For every page size but zero (which reads nothing) this is the whole capture in order.
    */
  method AllPackets(rows: seq<PacketRow>, pageSize: int := 512) returns (all: seq<PacketRow>)
    requires DistinctIds(rows)
    ensures all == if pageSize == 0 then [] else InOrder(rows)
  {
    hide InOrder, Kept, AfterKey;
    all := [];
    var page := Limited(InOrder(rows), pageSize);
    InOrderKeepsContents(rows);
    while page != []
      invariant |all| <= |rows| && all == InOrder(rows)[..|all|]
      invariant page == Limited(InOrder(rows)[|all|..], pageSize)
      invariant pageSize == 0 ==> page == all == []
      decreases |rows| - |all|
    {
      var last := page[|page| - 1];
      all := all + page;
      PageReaches(InOrder(rows), all, page, pageSize);
      AfterKeyIsRest(rows, |all|);
      page := Limited(InOrder(Kept(AfterKey(last.ts, last.id), rows)), pageSize);
    }
  }

  lemma PageReaches(sorted: seq<PacketRow>, all: seq<PacketRow>, page: seq<PacketRow>, pageSize: int)
    requires page != [] && |page| <= |all|
    requires var before := all[..|all| - |page|];
             && |before| <= |sorted| && before == sorted[..|before|] && all == before + page
             && page == Limited(sorted[|before|..], pageSize)
    ensures |all| <= |sorted| && all == sorted[..|all|] && page[|page| - 1] == sorted[|all| - 1]
  {
  }

  // ------------------------------------------------------------ why the pages meet

  lemma NotAfterIsAnOrder()
    ensures TotalPreorder(NotAfter)
  {
  }

  lemma InOrderKeepsContents(rows: seq<PacketRow>)
    ensures |InOrder(rows)| == |rows| && multiset(InOrder(rows)) == multiset(rows) && SortedBy(NotAfter, InOrder(rows))
    ensures forall r :: r in InOrder(rows) <==> r in rows
  {
    NotAfterIsAnOrder();
    SortKeepsContents(NotAfter, rows);
    SortSorts(NotAfter, rows);
    assert |multiset(InOrder(rows))| == |multiset(rows)|;
    forall r ensures r in InOrder(rows) <==> r in rows {
      assert r in multiset(InOrder(rows)) <==> r in multiset(rows);
    }
  }

  /** Selecting before sorting is sorting before selecting. */
  lemma {:induction false} KeptSorts<T(!new)>(leq: (T, T) -> bool, p: T -> bool, s: seq<T>)
    requires TotalPreorder(leq)
    ensures Sort(leq, Kept(p, s)) == Kept(p, Sort(leq, s))
  {
    if s != [] {
      KeptSorts(leq, p, s[1..]);
      SortSorts(leq, s[1..]);
      KeptInserts(leq, p, s[0], Sort(leq, s[1..]));
      hide Insert, TotalPreorder, SortedBy;
      if p(s[0]) {
        assert Kept(p, s)[1..] == Kept(p, s[1..]);
        assert Sort(leq, Kept(p, s)) == Insert(leq, s[0], Sort(leq, Kept(p, s[1..])));
      }
    }
  }

  lemma {:induction false} KeptInserts<T(!new)>(leq: (T, T) -> bool, p: T -> bool, x: T, s: seq<T>)
    requires TotalPreorder(leq) && SortedBy(leq, s)
    ensures Kept(p, Insert(leq, x, s)) == if p(x) then Insert(leq, x, Kept(p, s)) else Kept(p, s)
  {
    if s == [] || leq(x, s[0]) {
      assert ([x] + s)[1..] == s;
      if p(x) && Kept(p, s) != [] {
        FirstKept(leq, p, x, s);
      }
    } else {
      KeptInserts(leq, p, x, s[1..]);
      var r := Insert(leq, x, s);
      assert r[0] == s[0] && r[1..] == Insert(leq, x, s[1..]);
      assert Kept(p, r) == if p(s[0]) then [s[0]] + Kept(p, r[1..]) else Kept(p, r[1..]);
      if p(x) && p(s[0]) {
        assert Kept(p, s)[1..] == Kept(p, s[1..]);
      } else if p(x) {
        assert Kept(p, s) == Kept(p, s[1..]);
      }
    }
  }

  /** What stands before a sorted list stands before what is kept of it. */
  lemma FirstKept<T(!new)>(leq: (T, T) -> bool, p: T -> bool, x: T, s: seq<T>)
    requires TotalPreorder(leq) && SortedBy(leq, s) && Kept(p, s) != [] && s != [] && leq(x, s[0])
    ensures leq(x, Kept(p, s)[0])
  {
    KeptIsSub(p, s);
    var first := Kept(p, s)[0];
    assert first in s;
    var k: nat :| k < |s| && s[k] == first;
    assert k == 0 || leq(s[0], s[k]);
  }

  /** A predicate that starts to hold at position k keeps the rest of the list. */
  lemma {:induction false} KeptSuffix<T>(p: T -> bool, s: seq<T>, k: nat)
    requires k <= |s| && forall i :: 0 <= i < |s| ==> (p(s[i]) <==> k <= i)
    ensures Kept(p, s) == s[k..]
  {
    if s != [] {
      KeptSuffix(p, s[1..], if k == 0 then 0 else k - 1);
      if k == 0 {
        assert s == [s[0]] + s[1..];
      } else {
        assert s[1..][k - 1..] == s[k..];
      }
    }
  }

  lemma InOrderIsStrict(rows: seq<PacketRow>, i: nat, j: nat)
    requires DistinctIds(rows) && i < j < |rows|
    ensures |InOrder(rows)| == |rows| && InOrder(rows)[i].id != InOrder(rows)[j].id
  {
    InOrderKeepsContents(rows);
    var sorted := InOrder(rows);
    hide InOrder;
    if sorted[i].id == sorted[j].id {
      TwoOccurrences(sorted, i, j);
      DistinctOccurOnce(rows, sorted[i]);
      assert false;
    }
  }

  lemma TwoOccurrences<T>(s: seq<T>, i: nat, j: nat)
    requires i < j < |s|
    ensures s[i] == s[j] ==> multiset(s)[s[i]] >= 2
  {
    assert s == s[..j] + s[j..];
    assert multiset(s) == multiset(s[..j]) + multiset(s[j..]);
    assert s[..j][i] == s[i] && s[j..][0] == s[j];
  }

  lemma DistinctOccurOnce(rows: seq<PacketRow>, r: PacketRow)
    requires DistinctIds(rows) && r in rows
    ensures multiset(rows)[r] == 1 && forall q :: q in rows && q.id == r.id ==> q == r
  {
    var k :| 0 <= k < |rows| && rows[k] == r;
    assert rows == rows[..k] + [r] + rows[k + 1..];
    assert r !in rows[..k] && r !in rows[k + 1..];
  }

  /** The rows after the key of row k - 1 are, in order, the rows from k on. */
  lemma AfterKeyIsRest(rows: seq<PacketRow>, k: nat)
    requires DistinctIds(rows) && 0 < k <= |rows| == |InOrder(rows)|
    ensures var last := InOrder(rows)[k - 1];
            InOrder(Kept(AfterKey(last.ts, last.id), rows)) == InOrder(rows)[k..]
  {
    var sorted := InOrder(rows);
    var last := sorted[k - 1];
    var p := AfterKey(last.ts, last.id);
    NotAfterIsAnOrder();
    KeptSorts(NotAfter, p, rows);
    InOrderKeepsContents(rows);
    hide Sort, Kept;
    forall i | 0 <= i < |sorted| ensures p(sorted[i]) <==> k <= i {
      if k <= i {
        InOrderIsStrict(rows, k - 1, i);
        assert NotAfter(sorted[k - 1], sorted[i]);
      } else if i < k - 1 {
        assert NotAfter(sorted[i], sorted[k - 1]);
      }
    }
    KeptSuffix(p, sorted, k);
  }

  // ------------------------------------------------------------ one packet's bytes

  /** `packet`: the blocks of a stored row joined in sequence; nothing for an unknown id. */
  ghost function RawOf(t: Tables, id: nat): Option<bytes> {
    if exists r :: r in t.packets && r.id == id then Some(Join(Payloads(if id in t.blocks then t.blocks[id] else [])))
    else None
  }

  /** What agrees with captured packets has distinct ids and gives every frame back byte for byte. */
  lemma CapturedBytesComeBack(t: Tables, ps: seq<Seen>)
    requires PacketsAgree(t.packets, t.blocks, ps)
    ensures DistinctIds(t.packets)
    ensures forall r :: r in t.packets ==> 1 <= r.id <= |ps| && RawOf(t, r.id) == Some(ps[r.id - 1].packet.raw)
  {
    hide Join, Payloads, ToMicros;
    forall i, j | 0 <= i < j < |t.packets| ensures t.packets[i].id != t.packets[j].id {
      assert Records(t.packets[i], i + 1, ps[i].packet) && Records(t.packets[j], j + 1, ps[j].packet);
    }
    forall r | r in t.packets ensures 1 <= r.id <= |ps| && RawOf(t, r.id) == Some(ps[r.id - 1].packet.raw) {
      var i :| 0 <= i < |t.packets| && t.packets[i] == r;
      assert Records(t.packets[i], i + 1, ps[i].packet) && Holds(t.blocks, i + 1, ps[i].packet.raw);
    }
  }

  /** The numbers of the captured packets, and no others, have bytes. */
  lemma BytesForCapturedOnly(t: Tables, ps: seq<Seen>, id: nat)
    requires PacketsAgree(t.packets, t.blocks, ps)
    ensures RawOf(t, id) == if 1 <= id <= |ps| then Some(ps[id - 1].packet.raw) else None
  {
    CapturedBytesComeBack(t, ps);
    hide Join, Payloads, ToMicros, Holds;
    if 1 <= id <= |ps| {
      assert Records(t.packets[id - 1], id, ps[id - 1].packet);
      assert t.packets[id - 1] in t.packets;
    }
  }
}
