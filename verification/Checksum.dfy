// The Internet checksum (sections 1 and 2 of RFC 1071).
module Checksum {
  import opened Bytes

  /** The sum of the big-endian 16-bit words, an odd last byte padded with zero. */
  function Sum16(data: bytes): nat {
    if data == [] then 0
    else if |data| == 1 then At(data, 0) * 256
    else Be16(data, 0) + Sum16(data[2..])
  }

  /** Carries folded back in until the total fits 16 bits. */
  function Fold(total: nat): nat {
    if total < 0x1_0000 then total else Fold(total % 0x1_0000 + total / 0x1_0000)
  }

  function ChecksumOf(data: bytes): (c: nat)
    ensures c < 0x1_0000
  {
    FoldIsResidue(Sum16(data));
    0xFFFF - Fold(Sum16(data))
  }

  /** Data with its checksum in place sums to all ones, so its own checksum is zero. */
  predicate Verifies(data: bytes) { ChecksumOf(data) == 0 }

  method Compute(data: bytes) returns (checksum: nat)
    ensures checksum == ChecksumOf(data)
  {
    var padded := if |data| % 2 == 1 then data + [0] else data;
    if |data| % 2 == 1 {
      PaddingAddsNothing(data);
    }
    var total: nat, i: nat := 0, 0;
    while i < |padded|
      invariant 0 <= i <= |padded| && i % 2 == 0 && |padded| % 2 == 0
      invariant total + Sum16(padded[i..]) == Sum16(padded)
    {
      assert padded[i..][2..] == padded[i + 2..];
      total := total + (padded[i] as int * 256 + padded[i + 1]);
      i := i + 2;
    }
    while total >= 0x1_0000
      invariant Fold(total) == Fold(Sum16(data))
    {
      total := total % 0x1_0000 + total / 0x1_0000;
    }
    checksum := 0xFFFF - total;
  }

  lemma {:induction false} PaddingAddsNothing(data: bytes)
    requires |data| % 2 == 1
    ensures Sum16(data + [0]) == Sum16(data)
  {
    var padded := data + [0];
    if |data| == 1 {
      assert padded[2..] == [];
    } else {
      PaddingAddsNothing(data[2..]);
      assert padded[2..] == data[2..] + [0];
    }
  }

  lemma FoldStep(total: nat)
    requires total >= 0x1_0000
    ensures var next := total % 0x1_0000 + total / 0x1_0000;
            0 < next < total && total % 0xFFFF == next % 0xFFFF && Fold(total) == Fold(next)
  {
    var q, r := total / 0x1_0000, total % 0x1_0000;
    assert total == (r + q) + q * 0xFFFF;
    AddsMultiple(r + q, q);
  }

  lemma AddsMultiple(a: nat, k: nat)
    ensures (a + k * 0xFFFF) % 0xFFFF == a % 0xFFFF
  {
  }

  /** Folding keeps the residue modulo 0xFFFF, and only zero folds to zero. */
  lemma {:induction false} FoldIsResidue(total: nat)
    ensures Fold(total) <= 0xFFFF && Fold(total) % 0xFFFF == total % 0xFFFF
    ensures Fold(total) == 0 <==> total == 0
  {
    if total >= 0x1_0000 {
      var next := total % 0x1_0000 + total / 0x1_0000;
      FoldIsResidue(next);
      hide Fold;
      FoldStep(total);
    }
  }

  lemma {:induction false} SumOfParts(a: bytes, b: bytes)
    requires |a| % 2 == 0
    ensures Sum16(a + b) == Sum16(a) + Sum16(b)
    decreases |a|
  {
    if a == [] {
      assert a + b == b;
    } else {
      SumOfParts(a[2..], b);
      assert (a + b)[2..] == a[2..] + b;
    }
  }

  lemma SumAround(head: bytes, w: bytes, tail: bytes)
    requires |head| % 2 == 0 && |w| == 2
    ensures Sum16(head + (w + tail)) == Sum16(head) + Be16(w, 0) + Sum16(tail)
  {
    SumOfParts(head, w + tail);
    SumOfParts(w, tail);
    SumOfWord(w);
  }

  lemma SumOfWord(w: bytes)
    requires |w| == 2
    ensures Sum16(w) == Be16(w, 0)
  {
    assert w[2..] == [];
  }

  lemma ZeroWord()
    ensures Be16([0, 0], 0) == 0
  {
  }

  lemma SpliceParts(data: bytes, off: nat, w: bytes)
    requires off + |w| <= |data|
    ensures data == data[..off] + (data[off..off + |w|] + data[off + |w|..])
    ensures Splice(data, off, w) == data[..off] + (w + data[off + |w|..])
  {
  }

  /** Replacing an aligned word by w changes the sum by w when the word was zero. */
  lemma SumWithWord(blank: bytes, off: nat, w: bytes)
    requires off % 2 == 0 && off + 2 <= |blank| && |w| == 2
    requires blank[off..off + 2] == [0, 0]
    ensures Sum16(Splice(blank, off, w)) == Sum16(blank) + Be16(w, 0)
  {
    hide *;
    var head, zero, tail := blank[..off], blank[off..off + 2], blank[off + 2..];
    SpliceParts(blank, off, w);
    SumAround(head, zero, tail);
    SumAround(head, w, tail);
    ZeroWord();
  }

  lemma FoldsToOnes(s: nat, c: nat)
    requires c == 0xFFFF - Fold(s)
    ensures Fold(s + c) == 0xFFFF
  {
    FoldIsResidue(s);
    FoldIsResidue(s + c);
    hide Fold;
    ComplementIsMultiple(s, Fold(s));
  }

  lemma ComplementIsMultiple(s: nat, f: nat)
    requires f <= 0xFFFF && f % 0xFFFF == s % 0xFFFF
    ensures (s + (0xFFFF - f)) % 0xFFFF == 0
  {
    var k := s / 0xFFFF - f / 0xFFFF;
    assert s - f == k * 0xFFFF;
    assert s + (0xFFFF - f) == (k + 1) * 0xFFFF;
  }

  /** A zeroed, aligned checksum field filled with the computed checksum makes the data verify. */
  lemma StoredChecksumVerifies(blank: bytes, off: nat)
    requires off % 2 == 0 && off + 2 <= |blank| && blank[off..off + 2] == [0, 0]
    ensures Verifies(Splice(blank, off, ToBig16(ChecksumOf(blank))))
  {
    hide Sum16, Fold, Splice;
    SumWithWord(blank, off, ToBig16(ChecksumOf(blank)));
    FoldsToOnes(Sum16(blank), ChecksumOf(blank));
  }

  /** Two words that both make the same data verify are equal or the two forms of zero. */
  lemma VerifyingWordIsUnique(blank: bytes, off: nat, v: bytes, w: bytes)
    requires off % 2 == 0 && off + 2 <= |blank| && blank[off..off + 2] == [0, 0] && |v| == 2 && |w| == 2
    requires Verifies(Splice(blank, off, v)) && Verifies(Splice(blank, off, w))
    ensures v == w || {Be16(v, 0), Be16(w, 0)} == {0, 0xFFFF}
  {
    hide Sum16, Fold, Splice;
    var s, a, b := Sum16(blank), Be16(v, 0), Be16(w, 0);
    SumWithWord(blank, off, v);
    SumWithWord(blank, off, w);
    FoldIsResidue(s + a);
    FoldIsResidue(s + b);
    SameResidue(s, a, b);
    if a == b {
      assert v == w;
    }
  }

  lemma SameResidue(s: nat, a: nat, b: nat)
    requires a <= 0xFFFF && b <= 0xFFFF && (s + a) % 0xFFFF == 0 && (s + b) % 0xFFFF == 0
    ensures a == b || {a, b} == {0, 0xFFFF}
  {
    assert (a - b) % 0xFFFF == 0;
  }
}
