// Incremental framers: a buffer from which whole items are taken off the front.
// `next` reads the first whole item of a buffer and how many bytes it spans.
module Framing {
  import opened Wrappers
  import opened Bytes
  import opened Lists

  type Reader<T> = bytes -> Option<(T, nat)>

  ghost predicate Progresses<T>(next: Reader<T>) {
    forall b :: next(b).Some? ==> 0 < next(b).value.1 <= |b|
  }

  /** More bytes at the end never change an item that is already whole. */
  ghost predicate PrefixStable<T>(next: Reader<T>) {
    forall a: bytes, b: bytes {:trigger next(a + b)} :: next(a).Some? ==> next(a + b) == next(a)
  }

  datatype Framed<T> = Framed(items: seq<T>, rest: bytes)

  /** All whole items at the front of a buffer, and what is left of it. */
  function Extract<T>(next: Reader<T>, buf: bytes): (f: Framed<T>)
    requires Progresses(next)
    ensures next(f.rest).None?
    decreases |buf|
  {
    match next(buf)
    case None => Framed([], buf)
    case Some((item, n)) =>
      var f := Extract(next, buf[n..]);
      Framed([item] + f.items, f.rest)
  }

  lemma ExtractStep<T>(next: Reader<T>, buf: bytes, item: T, n: nat)
    requires Progresses(next) && next(buf) == Some((item, n))
    ensures n <= |buf|
    ensures var f := Extract(next, buf[n..]); Extract(next, buf) == Framed([item] + f.items, f.rest)
  {
  }

  lemma ExtractStuck<T>(next: Reader<T>, buf: bytes)
    requires Progresses(next) && next(buf).None?
    ensures Extract(next, buf) == Framed([], buf)
  {
  }

  lemma DropThenAppend(a: bytes, b: bytes, n: nat)
    requires n <= |a|
    ensures (a + b)[n..] == a[n..] + b
  {
  }

  /** Feeding a and then b emits and leaves what feeding a + b does. */
  lemma {:induction false} ExtractTwice<T>(next: Reader<T>, a: bytes, b: bytes)
    requires Progresses(next) && PrefixStable(next)
    ensures var first := Extract(next, a);
            var second := Extract(next, first.rest + b);
            Extract(next, a + b) == Framed(first.items + second.items, second.rest)
    decreases |a|
  {
    hide Extract;
    match next(a) {
      case None =>
        ExtractStuck(next, a);
        assert [] + Extract(next, a + b).items == Extract(next, a + b).items;
      case Some((item, n)) =>
        assert next(a + b) == Some((item, n));
        ExtractStep(next, a, item, n);
        ExtractStep(next, a + b, item, n);
        DropThenAppend(a, b, n);
        ExtractTwice(next, a[n..], b);
        var f := Extract(next, a[n..]);
        Reassociate([item], f.items, Extract(next, f.rest + b).items);
    }
  }

  /** A framer fed chunk by chunk: the items of all calls in order, and the final buffer. */
  function FeedChunks<T>(next: Reader<T>, buf: bytes, chunks: seq<bytes>): Framed<T>
    requires Progresses(next)
    decreases |chunks|
  {
    if chunks == [] then Framed([], buf)
    else
      var f := Extract(next, buf + chunks[0]);
      var g := FeedChunks(next, f.rest, chunks[1..]);
      Framed(f.items + g.items, g.rest)
  }

  /** On every input, garbage included, the cut of the bytes into chunks does not matter. */
  lemma {:induction false} CutDoesNotMatter<T>(next: Reader<T>, buf: bytes, chunks: seq<bytes>)
    requires Progresses(next) && PrefixStable(next) && next(buf).None?
    ensures FeedChunks(next, buf, chunks) == Extract(next, buf + Join(chunks))
    decreases |chunks|
  {
    if chunks == [] {
      assert buf + [] == buf;
      ExtractStuck(next, buf);
    } else {
      hide Extract, Progresses, PrefixStable;
      var f := Extract(next, buf + chunks[0]);
      CutDoesNotMatter(next, f.rest, chunks[1..]);
      ExtractTwice(next, buf + chunks[0], Join(chunks[1..]));
      Reassociate(buf, chunks[0], Join(chunks[1..]));
    }
  }

  // ------------------------------------------------------------ against an encoder

  /** `encode` is what `next` reads back, for items that satisfy `fits`. */
  ghost predicate ReadsBack<T(!new)>(next: Reader<T>, encode: T -> bytes, fits: T -> bool) {
    forall item, tail: bytes {:trigger next(encode(item) + tail)} ::
      fits(item) ==> next(encode(item) + tail) == Some((item, |encode(item)|))
  }

  /** Whatever `next` reads is an item that fits, and the bytes taken are its encoding. */
  ghost predicate ReadsOnlyEncodings<T>(next: Reader<T>, encode: T -> bytes, fits: T -> bool) {
    forall b :: next(b).Some? ==>
                  var (item, n) := next(b).value;
                  0 < n <= |b| && fits(item) && encode(item) == b[..n]
  }

  function Encoded<T>(encode: T -> bytes, items: seq<T>): bytes {
    if items == [] then [] else encode(items[0]) + Encoded(encode, items[1..])
  }

  /** Encoded items come back one for one, and the bytes after them are framed on their own. */
  lemma {:induction false} EncodedItemsComeBack<T(!new)>(
    next: Reader<T>, encode: T -> bytes, fits: T -> bool, items: seq<T>, tail: bytes)
    requires Progresses(next) && ReadsBack(next, encode, fits)
    requires forall item :: item in items ==> fits(item)
    ensures var f := Extract(next, tail);
            Extract(next, Encoded(encode, items) + tail) == Framed(items + f.items, f.rest)
    decreases |items|
  {
    if items == [] {
      assert [] + tail == tail;
      assert [] + Extract(next, tail).items == Extract(next, tail).items;
    } else {
      var e, more := encode(items[0]), Encoded(encode, items[1..]) + tail;
      EncodedItemsComeBack(next, encode, fits, items[1..], tail);
      assert next(e + more) == Some((items[0], |e|));
      hide Extract, Progresses, ReadsBack;
      Reassociate(e, Encoded(encode, items[1..]), tail);
      ExtractStep(next, e + more, items[0], |e|);
      assert (e + more)[|e|..] == more;
      Reassociate([items[0]], items[1..], Extract(next, tail).items);
      assert [items[0]] + items[1..] == items;
    }
  }

  lemma OneRead<T>(next: Reader<T>, encode: T -> bytes, fits: T -> bool, buf: bytes, item: T, n: nat)
    requires ReadsOnlyEncodings(next, encode, fits) && next(buf) == Some((item, n))
    ensures 0 < n <= |buf| && fits(item) && encode(item) + buf[n..] == buf
  {
    assert buf == buf[..n] + buf[n..];
  }

  lemma ConsEncoded<T>(encode: T -> bytes, item: T, items: seq<T>, rest: bytes)
    ensures Encoded(encode, [item] + items) + rest == encode(item) + (Encoded(encode, items) + rest)
  {
    assert ([item] + items)[1..] == items;
    Reassociate(encode(item), Encoded(encode, items), rest);
  }

  /** Nothing is invented or dropped: re-encoding what was emitted and appending the rest gives the input. */
  lemma {:induction false} ExtractionIsExact<T>(next: Reader<T>, encode: T -> bytes, fits: T -> bool, buf: bytes)
    requires Progresses(next) && ReadsOnlyEncodings(next, encode, fits)
    ensures var f := Extract(next, buf);
            Encoded(encode, f.items) + f.rest == buf && forall item :: item in f.items ==> fits(item)
    decreases |buf|
  {
    hide Extract, Progresses, ReadsOnlyEncodings, Encoded;
    match next(buf) {
      case None =>
        ExtractStuck(next, buf);
        NothingEncoded(encode, buf);
      case Some((item, n)) =>
        OneRead(next, encode, fits, buf, item, n);
        ExtractStep(next, buf, item, n);
        ExtractionIsExact(next, encode, fits, buf[n..]);
        var f := Extract(next, buf[n..]);
        ConsEncoded(encode, item, f.items, f.rest);
    }
  }

  lemma NothingEncoded<T>(encode: T -> bytes, rest: bytes)
    ensures Encoded(encode, []) + rest == rest
  {
  }
}
