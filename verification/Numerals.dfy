/**
 Number formatting of kernel/core/printk.c: digits produced backwards into a fixed
 buffer and then reversed in place.
 */
module Numerals {

  const NUMBUF_SIZE: nat := 32
  const U64: nat := 0x1_0000_0000_0000_0000
  const I64_LIMIT: int := 0x8000_0000_0000_0000

  type Base = b: nat | b == 10 || b == 16 witness 10

  const LOWER: string := "0123456789abcdef"
  const UPPER: string := "0123456789ABCDEF"

  function DigitChar(d: nat, upper: bool): char
    requires d < 16
  {
    if upper then UPPER[d] else LOWER[d]
  }

  function DigitValue(c: char): nat {
    if '0' <= c <= '9' then c as nat - '0' as nat
    else if 'a' <= c <= 'f' then c as nat - 'a' as nat + 10
    else if 'A' <= c <= 'F' then c as nat - 'A' as nat + 10
    else 0
  }

  /** The numeral of `n`, most significant digit first. */
  function Digits(n: nat, base: Base, upper: bool): (r: string)
    ensures |r| >= 1
  {
    if n < base then [DigitChar(n, upper)]
    else Digits(n / base, base, upper) + [DigitChar(n % base, upper)]
  }

  /** What itoa renders. */
  function NumText(val: int, base: Base, upper: bool): string {
    if val < 0 then "-" + Digits(-val, base, upper) else Digits(val, base, upper)
  }

  // ---------------------------------------------------------------- read back

  function ReadNumeral(s: string, base: Base): nat {
    if s == "" then 0 else ReadNumeral(s[..|s| - 1], base) * base + DigitValue(s[|s| - 1])
  }

  lemma DigitRoundTrip(d: nat, upper: bool)
    requires d < 16
    ensures DigitValue(DigitChar(d, upper)) == d
    ensures d != 0 ==> DigitChar(d, upper) != '0'
  {
    assert UPPER == "0123456789ABCDEF" && LOWER == "0123456789abcdef";
  }

  /** Digits read back give the number, and there is no leading zero. */
  lemma {:induction false} NumeralRoundTrip(n: nat, base: Base, upper: bool)
    ensures ReadNumeral(Digits(n, base, upper), base) == n
    ensures n > 0 ==> Digits(n, base, upper)[0] != '0'
  {
    var s := Digits(n, base, upper);
    if n < base {
      DigitRoundTrip(n, upper);
      assert s[..0] == "";
    } else {
      NumeralRoundTrip(n / base, base, upper);
      DigitRoundTrip(n % base, upper);
      assert s[..|s| - 1] == Digits(n / base, base, upper);
      assert n == n / base * base + n % base;
    }
  }

  function Pow10(k: nat): nat { if k == 0 then 1 else 10 * Pow10(k - 1) }

  lemma {:induction false} DigitsLength(n: nat, base: Base, upper: bool, k: nat)
    requires n < Pow10(k) && k > 0
    ensures |Digits(n, base, upper)| <= k
  {
    if n >= base {
      assert k > 1 by {
        assert Pow10(1) == 10;
      }
      assert n / base <= n / 10 < Pow10(k - 1);
      DigitsLength(n / base, base, upper, k - 1);
    }
  }

  /** No 64-bit number needs more than 20 digits. */
  lemma DigitsFit(n: nat, base: Base, upper: bool)
    requires n < U64
    ensures |Digits(n, base, upper)| <= 20
  {
    assert Pow10(5) == 10_0000;
    assert Pow10(10) == 100_0000_0000;
    assert Pow10(15) == 1000_0000_0000_0000;
    assert Pow10(20) == 1_0000_0000_0000_0000_0000;
    DigitsLength(n, base, upper, 20);
  }

  // ----------------------------------------------------------------- reversal

  function Reversed(s: string): (r: string)
    ensures |r| == |s|
    ensures forall i :: 0 <= i < |s| ==> r[i] == s[|s| - 1 - i]
  {
    seq(|s|, i requires 0 <= i < |s| => s[|s| - 1 - i])
  }

  method Reverse(str: array<char>, len: nat)
    requires len <= str.Length
    modifies str
    ensures str[..len] == Reversed(old(str[..len])) && str[len..] == old(str[len..])
  {
    var i, j := 0, len - 1;
    while i < j
      invariant 0 <= i <= j + 1 <= len && i + j == len - 1
      invariant forall k :: 0 <= k < i || j < k < len ==> str[k] == old(str[len - 1 - k])
      invariant forall k :: i <= k <= j ==> str[k] == old(str[k])
      invariant str[len..] == old(str[len..])
    {
      var tmp := str[i];
      str[i] := str[j];
      str[j] := tmp;
      i := i + 1;
      j := j - 1;
    }
    forall k | 0 <= k < len
      ensures str[k] == old(str[..len])[len - 1 - k]
    {
    }
  }

  // --------------------------------------------------------------------- itoa

  /** The digits of `n` not yet produced; nothing when the value has run out. */
  function Pending(n: nat, base: Base, upper: bool): string {
    if n == 0 then "" else Digits(n, base, upper)
  }

  /** Two's complement view of 64 bits. */
  function Signed64(bits: nat): int
    requires bits < U64
  {
    if bits < I64_LIMIT then bits else bits - U64
  }

  lemma PendingStep(n: nat, base: Base, upper: bool)
    requires n > 0
    ensures n / base < n && n % base < 16
    ensures Pending(n, base, upper) == Pending(n / base, base, upper) + [DigitChar(n % base, upper)]
  {
  }

  /** The digit loop: least significant digit first. */
  method ProduceDigits(n: nat, buf: array<char>, base: Base, upper: bool) returns (i: nat)
    requires buf.Length == NUMBUF_SIZE && 0 < n < U64
    modifies buf
    ensures i <= 20 && buf[..i] == Reversed(Digits(n, base, upper))
  {
    hide Reversed, Digits, DigitChar, Pending;
    DigitsFit(n, base, upper);
    i := 0;
    var uval: nat := n;
    ReversedEmpty();
    assert buf[..i] == "";
    PendingWhole(n, base, upper);
    while uval != 0
      invariant i <= |Digits(n, base, upper)|
      invariant Digits(n, base, upper) == Pending(uval, base, upper) + Reversed(buf[..i])
      decreases uval
    {
      PendingStep(uval, base, upper);
      ghost var made := buf[..i];
      var c := DigitChar(uval % base, upper);
      buf[i] := c;
      i := i + 1;
      assert buf[..i] == made + [c];
      ReversedSnoc(made, c);
      uval := uval / base;
    }
    PendingWhole(0, base, upper);
    ReversedTwice(buf[..i]);
  }

  lemma PendingWhole(n: nat, base: Base, upper: bool)
    ensures n > 0 ==> Pending(n, base, upper) == Digits(n, base, upper)
    ensures n == 0 ==> Pending(n, base, upper) == ""
  {
  }

  lemma ReversedEmpty()
    ensures Reversed("") == ""
  {
  }

  lemma ZeroDigits(base: Base, upper: bool)
    ensures Digits(0, base, upper) == "0" == Reversed("0")
  {
    assert UPPER == "0123456789ABCDEF" && LOWER == "0123456789abcdef";
  }

  lemma ReversedSnoc(s: string, c: char)
    ensures Reversed(s + [c]) == [c] + Reversed(s)
  {
  }

  lemma ReversedTwice(s: string)
    ensures Reversed(Reversed(s)) == s
  {
  }

  /** itoa: never writes past its 32-byte buffer and leaves a terminated numeral.  The
      most negative value, whose negation overflows, is excluded when signed. */
  method Itoa(val: int, buf: array<char>, base: Base, isSigned: bool, upper: bool) returns (len: nat)
    requires buf.Length == NUMBUF_SIZE && -I64_LIMIT <= val < I64_LIMIT && (isSigned ==> val > -I64_LIMIT)
    modifies buf
    ensures 0 < len <= 21 && buf[len] == '\0'
    ensures buf[..len] == NumText(if isSigned then val else val % U64, base, upper)
  {
    hide Reversed, Digits;
    var negative := isSigned && val < 0;
    var uval: nat := if negative then -val else val % U64;
    var i := 0;
    if uval == 0 {
      buf[i] := '0';
      i := i + 1;
      ZeroDigits(base, upper);
      assert buf[..i] == Digits(uval, base, upper);
    } else {
      i := ProduceDigits(uval, buf, base, upper);
    }
    ghost var made := buf[..i];
    ReversedTwice(Digits(uval, base, upper));
    if negative {
      buf[i] := '-';
      i := i + 1;
      assert buf[..i] == made + "-";
      ReversedSnoc(made, '-');
    }
    buf[i] := '\0';
    assert buf[..i] == if negative then made + "-" else made;
    Reverse(buf, i);
    assert buf[i] == buf[i..][0];
    len := i;
  }
}
