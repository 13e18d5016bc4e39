/**
 The Internet checksum of drivers/network/vbox_net.c (RFC 1071, section 1), on a
 little-endian machine with a 32-bit accumulator.
 */
module Checksum {
  import opened Sector

  const WORD16: nat := 0x1_0000
  const WORD32: nat := 0x1_0000_0000
  /** Ones-complement arithmetic is arithmetic modulo this number. */
  const ONES: nat := 65535

  function Pair(lo: Byte, hi: Byte): nat { (lo as int) + 256 * (hi as int) }

  /** The 16-bit words of a buffer added up without any bound; an odd last byte counts
      as a word of its own. */
  function Sum(s: seq<Byte>): nat {
    if |s| == 0 then 0
    else if |s| == 1 then s[0]
    else Pair(s[0], s[1]) + Sum(s[2..])
  }

  /** Add the high half to the low half until nothing is left above. */
  function Fold(x: nat): (r: nat)
    ensures r < WORD16
  {
    if x < WORD16 then x
    else
      assert x % WORD16 + x / WORD16 < x;
      Fold(x % WORD16 + x / WORD16)
  }

  function Checksum(s: seq<Byte>): (c: nat)
    ensures c < WORD16
  {
    ONES - Fold(Sum(s) % WORD32)
  }

  // ------------------------------------------------------ ones-complement facts

  /** Folding keeps the value modulo 65535 and never turns a non-zero sum into zero. */
  lemma {:induction false} FoldMod(x: nat)
    ensures Fold(x) % ONES == x % ONES
    ensures Fold(x) == 0 <==> x == 0
    decreases x
  {
    if x >= WORD16 {
      var y := x % WORD16 + x / WORD16;
      assert y < x;
      FoldMod(y);
      assert x == y + x / WORD16 * ONES;
      ModPlus(y, x / WORD16);
    }
  }

  lemma {:induction false} ModPlus(y: nat, q: nat)
    ensures (y + q * ONES) % ONES == y % ONES
  {
    if q > 0 {
      ModPlus(y, q - 1);
      assert y + q * ONES == (y + (q - 1) * ONES) + ONES;
    }
  }

  /** A folded value is 65535 exactly for the non-zero multiples of 65535. */
  lemma FoldOnes(x: nat)
    ensures Fold(x) == ONES <==> x != 0 && x % ONES == 0
  {
    FoldMod(x);
  }

  /** Even pieces of a buffer add up, so the sum is that of its 16-bit words. */
  lemma {:induction false} SumConcat(a: seq<Byte>, b: seq<Byte>)
    requires |a| % 2 == 0
    ensures Sum(a + b) == Sum(a) + Sum(b)
  {
    if a == [] {
      assert a + b == b;
    } else {
      assert (a + b)[2..] == a[2..] + b;
      SumConcat(a[2..], b);
    }
  }

  /** A buffer of two bytes is one little-endian word, and its checksum the complement. */
  lemma OneWord(lo: Byte, hi: Byte)
    ensures Sum([lo, hi]) == (lo as int) + 256 * (hi as int)
    ensures Checksum([lo, hi]) == 65535 - ((lo as int) + 256 * (hi as int))
    ensures Checksum([]) == 65535
  {
    assert [lo, hi][2..] == [];
    assert Sum([]) == 0;
  }

  /** An odd last byte counts as the low byte of a word. */
  lemma OddTail(s: seq<Byte>)
    requires |s| % 2 == 1
    ensures Checksum(s) == Checksum(s + [0])
  {
    var front, last := s[..|s| - 1], s[|s| - 1];
    assert s == front + [last] && s + [0] == front + [last, 0];
    SumConcat(front, [last]);
    SumConcat(front, [last, 0]);
    OneWord(last, 0);
  }

  // --------------------------------------------------------------- storing it

  /** Store a 16-bit word, low byte first. */
  function Store(s: seq<Byte>, off: nat, c: nat): (r: seq<Byte>)
    requires off + 2 <= |s| && c < WORD16
    ensures |r| == |s|
  {
    s[off := c % 256][off + 1 := c / 256]
  }

  lemma {:induction false} StoreSum(s: seq<Byte>, off: nat, c: nat)
    requires off % 2 == 0 && off + 2 <= |s| && c < WORD16 && s[off] == 0 && s[off + 1] == 0
    ensures Sum(Store(s, off, c)) == Sum(s) + c
  {
    var r := Store(s, off, c);
    if off == 0 {
      assert r[2..] == s[2..];
    } else {
      StoreSum(s[2..], off - 2, c);
      assert r[2..] == Store(s[2..], off - 2, c);
      assert r[0] == s[0] && r[1] == s[1];
    }
  }

  /** What the checksum completes: from any folded value, the next multiple of 65535. */
  lemma SumToOnes(x: nat, f: nat) returns (q: nat)
    requires f < WORD16 && f % ONES == x % ONES && (f == 0 <==> x == 0)
    ensures x + (ONES - f) == q * ONES && q > 0
  {
    q := x / ONES;
    assert x == q * ONES + x % ONES;
    if f < ONES {
      q := q + 1;
    }
  }

  /** Since 2^32 - 1 is itself a multiple of 65535, that addition never carries out of
      the accumulator, whatever carries the summation itself has lost. */
  lemma NeverCarries(x: nat)
    requires x < WORD32
    ensures x + (ONES - Fold(x)) < WORD32
    ensures Fold(x + (ONES - Fold(x))) == ONES
  {
    FoldMod(x);
    var q := SumToOnes(x, Fold(x));
    assert q <= 65537 by {
      assert WORD32 - 1 == 65537 * ONES;
    }
    ModPlus(0, q);
    FoldOnes(q * ONES);
  }

  /** Self-verification: a buffer of any length, even or odd, that carries its own
      checksum in a field at an even offset checks to zero. */
  lemma SelfVerifies(s: seq<Byte>, off: nat)
    requires off % 2 == 0 && off + 2 <= |s| && s[off] == 0 && s[off + 1] == 0
    ensures Checksum(Store(s, off, Checksum(s))) == 0
  {
    hide Sum, Store, Fold;
    StoreSum(s, off, Checksum(s));
    NeverCarries(Sum(s) % WORD32);
  }

  /** Conversely the field is determined: as long as adding it does not carry out of the
      accumulator, no other value there, except the other zero of ones-complement
      arithmetic, makes the buffer check to zero. */
  lemma OnlyTheChecksumVerifies(s: seq<Byte>, off: nat, c: nat)
    requires off % 2 == 0 && off + 2 <= |s| && s[off] == 0 && s[off + 1] == 0 && c < WORD16
    requires Sum(s) % WORD32 + c < WORD32 && Checksum(Store(s, off, c)) == 0
    ensures c % ONES == Checksum(s) % ONES
  {
    hide Sum, Store, Fold;
    StoreSum(s, off, c);
    var x := Sum(s) % WORD32;
    assert Sum(Store(s, off, c)) % WORD32 == x + c;
    FoldOnes(x + c);
    FoldMod(x);
    SameResidue(x, Fold(x), c);
  }

  lemma {:induction false} SumBound(s: seq<Byte>)
    ensures Sum(s) <= (|s| + 1) / 2 * ONES
  {
    if |s| >= 2 {
      SumBound(s[2..]);
      assert (|s[2..]| + 1) / 2 + 1 == (|s| + 1) / 2;
    }
  }

  /** Every buffer shorter than 131072 bytes is far enough from the carry: there the
      field verifies if and only if it is the checksum, up to the two zeros; only a
      buffer that stays all zero does not verify. */
  lemma ShortBufferVerifiesIff(s: seq<Byte>, off: nat, c: nat)
    requires off % 2 == 0 && off + 2 <= |s| < 131072 && s[off] == 0 && s[off + 1] == 0 && c < WORD16
    ensures Checksum(Store(s, off, c)) == 0 <==> c % ONES == Checksum(s) % ONES && Sum(s) + c > 0
  {
    hide Sum, Store, Fold;
    SumBound(s);
    assert Sum(s) <= 65536 * ONES;
    if Checksum(Store(s, off, c)) == 0 {
      OnlyTheChecksumVerifies(s, off, c);
      StoreSum(s, off, c);
      FoldOnes(Sum(s) + c);
    } else if c % ONES == Checksum(s) % ONES && Sum(s) + c > 0 {
      EitherZeroVerifies(s, off, c);
    }
  }

  /** Either zero verifies, as long as the result is not all zero. */
  lemma EitherZeroVerifies(s: seq<Byte>, off: nat, c: nat)
    requires off % 2 == 0 && off + 2 <= |s| && s[off] == 0 && s[off + 1] == 0 && c < WORD16
    requires Sum(s) <= 65536 * ONES && c % ONES == Checksum(s) % ONES && Sum(s) + c > 0
    ensures Checksum(Store(s, off, c)) == 0
  {
    hide Sum, Store, Fold;
    StoreSum(s, off, c);
    var x := Sum(s);
    FoldMod(x);
    var q := SumToOnes(x, Fold(x));
    FoldOnes(x + c);
    if c != Checksum(s) {
      assert c == ONES && Checksum(s) == 0;
      ModPlus(0, q + 1);
    } else {
      ModPlus(0, q);
    }
  }

  lemma SameResidue(x: nat, f: nat, c: nat)
    requires f < WORD16 && f % ONES == x % ONES && (x + c) % ONES == 0 && c < WORD16
    ensures c % ONES == (ONES - f) % ONES
  {
    var q, r := x / ONES, x % ONES;
    assert x + c == q * ONES + (r + c);
    ModPlus(r + c, q);
  }

  // ------------------------------------------------------------ mutable buffers

  /** vbox_checksum over `len` bytes from `from`. */
  method ComputeChecksum(data: array<Byte>, from: nat, len: nat) returns (r: nat)
    requires from + len <= data.Length
    ensures r == Checksum(data[from..from + len])
  {
    hide Fold;
    ghost var s := data[from..from + len];
    var sum: nat, ptr, rest := 0, from, len;
    while rest > 1
      invariant from <= ptr && ptr + rest == from + len
      invariant sum < WORD32 && (sum + Sum(data[ptr..from + len])) % WORD32 == Sum(s) % WORD32
      decreases rest
    {
      ghost var tail := data[ptr..from + len];
      assert tail[2..] == data[ptr + 2..from + len];
      AccumulateMod(sum, Pair(data[ptr], data[ptr + 1]), Sum(tail[2..]));
      sum := (sum + Pair(data[ptr], data[ptr + 1])) % WORD32;
      ptr := ptr + 2;
      rest := rest - 2;
    }
    if rest > 0 {
      AccumulateMod(sum, data[ptr], 0);
      sum := (sum + data[ptr]) % WORD32;
    }
    assert sum == Sum(s) % WORD32;
    ghost var total := sum;
    while sum / WORD16 != 0
      invariant Fold(sum) == Fold(total)
      decreases sum
    {
      FoldStep(sum);
      sum := sum % WORD16 + sum / WORD16;
    }
    FoldStep(sum);
    r := ONES - sum % WORD16;
  }

  lemma AccumulateMod(sum: nat, w: nat, rest: nat)
    ensures ((sum + w) % WORD32 + rest) % WORD32 == (sum + w + rest) % WORD32
  {
  }

  lemma FoldStep(x: nat)
    ensures x >= WORD16 ==> Fold(x) == Fold(x % WORD16 + x / WORD16) && x % WORD16 + x / WORD16 < x
    ensures x < WORD16 ==> Fold(x) == x == x % WORD16
  {
  }

  /** How replies are sealed: clear the field, compute, store.  Afterwards the region
      checks to zero and only the field has changed. */
  method Seal(data: array<Byte>, from: nat, len: nat, off: nat)
    requires from + len <= data.Length && off % 2 == 0 && off + 2 <= len
    modifies data
    ensures Checksum(data[from..from + len]) == 0
    ensures forall i :: 0 <= i < data.Length && i != from + off && i != from + off + 1 ==> data[i] == old(data[i])
  {
    hide Checksum;
    var field := from + off;
    data[field], data[field + 1] := 0, 0;
    ghost var s := data[from..from + len];
    var c := ComputeChecksum(data, from, len);
    data[field], data[field + 1] := c % 256, c / 256;
    assert data[from..from + len] == Store(s, off, c);
    SelfVerifies(s, off);
  }
}
