// Byte strings and the Python operations on them that the models share.
module Bytes {
  type byte = x: int | 0 <= x < 256
  type bytes = seq<byte>

  /** Python's `data[n:]` for n >= 0: slicing past the end yields the empty string. */
  function DropFirst(data: bytes, n: nat): bytes {
    if n <= |data| then data[n..] else []
  }

  /** Python's `data[lo:hi]` for 0 <= lo <= hi: both bounds are clamped. */
  function Slice(data: bytes, lo: nat, hi: nat): bytes
    requires lo <= hi
  {
    var h := if hi <= |data| then hi else |data|;
    var l := if lo <= h then lo else h;
    data[l..h]
  }

  /** One byte, as a number. */
  function At(data: bytes, off: nat): (v: nat)
    requires off < |data|
    ensures v < 256
  {
    data[off]
  }

  /** `int.from_bytes(b, "big")`. */
  function FromBig(b: bytes): nat {
    if b == [] then 0 else FromBig(b[..|b| - 1]) * 256 + b[|b| - 1]
  }

  /** `int.from_bytes(data[off:off + 2], "big")` when both bytes are there. */
  function Be16(data: bytes, off: nat): (v: nat)
    requires off + 2 <= |data|
    ensures v < 0x1_0000
  {
    (data[off] as int) * 256 + data[off + 1]
  }

  /** `v.to_bytes(2, "big")`. */
  function ToBig16(v: nat): (b: bytes)
    requires v < 0x1_0000
    ensures |b| == 2 && (b[0] as int) * 256 + b[1] == v
  {
    [v / 256, v % 256]
  }

  /** `v.to_bytes(3, "big")`. */
  function ToBig24(v: nat): (b: bytes)
    requires v < 0x100_0000
    ensures |b| == 3 && (b[0] as int) * 65536 + (b[1] as int) * 256 + b[2] == v
  {
    var high := v / 256;
    [high / 256, high % 256, v % 256]
  }

  /** The byte string with `patch` written over it from position `off`. */
  function Splice(data: bytes, off: nat, patch: bytes): (r: bytes)
    requires off + |patch| <= |data|
    ensures |r| == |data|
  {
    data[..off] + patch + data[off + |patch|..]
  }

  /** All chunks joined: Python's `b"".join(chunks)`. */
  function Join(chunks: seq<bytes>): bytes {
    if chunks == [] then [] else chunks[0] + Join(chunks[1..])
  }

  // ------------------------------------------------------------ overwriting in place

  lemma SpliceReads(data: bytes, off: nat, patch: bytes, lo: nat, hi: nat)
    requires off + |patch| <= |data| && lo <= hi <= |data|
    ensures hi <= off || off + |patch| <= lo ==> Splice(data, off, patch)[lo..hi] == data[lo..hi]
    ensures lo == off && hi == off + |patch| ==> Splice(data, off, patch)[lo..hi] == patch
    ensures lo <= off && off + |patch| <= hi
            ==> Splice(data, off, patch)[lo..hi] == Splice(data[lo..hi], off - lo, patch)
  {
  }

  lemma SpliceAt(data: bytes, off: nat, patch: bytes, i: nat)
    requires off + |patch| <= |data| && i < |data|
    ensures Splice(data, off, patch)[i] == if off <= i < off + |patch| then patch[i - off] else data[i]
  {
  }

  lemma SpliceTwice(data: bytes, off: nat, p: bytes, q: bytes)
    requires off + |p| <= |data| && |p| == |q|
    ensures Splice(Splice(data, off, p), off, q) == Splice(data, off, q)
  {
  }

  lemma SplicesCommute(data: bytes, a: nat, p: bytes, b: nat, q: bytes)
    requires a + |p| <= b && b + |q| <= |data|
    ensures Splice(Splice(data, a, p), b, q) == Splice(Splice(data, b, q), a, p)
  {
  }

  lemma SpliceSelf(data: bytes, lo: nat, hi: nat)
    requires lo <= hi <= |data|
    ensures Splice(data, lo, data[lo..hi]) == data
  {
  }
}
