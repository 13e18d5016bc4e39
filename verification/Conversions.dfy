/**
 What the conversions of kernel/core/printk.c print, said of whole formats: how a
 conversion is written, what its output reads back as, and how formats combine.
 */
module Conversions {
  import opened Numerals
  import opened Formatter

  // ----------------------------------------------------- writing a conversion

  datatype Length = Plain | L | LL | Z
  {
    function Text(): string {
      match this
      case Plain => ""
      case L => "l"
      case LL => "ll"
      case Z => "z"
    }
  }

  /** A conversion as a programmer writes it. */
  function Written(zero: bool, width: nat, length: Length, c: char): (fmt: string)
    ensures |fmt| >= 2
  {
    "%" + (if zero then "0" else "") + (if width > 0 then Digits(width, 10, false) else "") + length.Text() + [c]
  }

  /** A conversion character cannot be taken for a flag, a width or a length. */
  predicate IsConversion(c: char) { !IsDigit(c) && c != 'l' && c != 'z' }

  lemma {:induction false} SkipZerosTo(fmt: string, i: nat, j: nat)
    requires i <= j <= |fmt| && (forall k :: i <= k < j ==> fmt[k] == '0') && (j < |fmt| ==> fmt[j] != '0')
    ensures SkipZeros(fmt, i) == j
    decreases j - i
  {
    if i < j {
      SkipZerosTo(fmt, i + 1, j);
    }
  }

  lemma {:induction false} SkipDigitsTo(fmt: string, i: nat, j: nat)
    requires i <= j <= |fmt| && (forall k :: i <= k < j ==> IsDigit(fmt[k])) && (j < |fmt| ==> !IsDigit(fmt[j]))
    ensures SkipDigits(fmt, i) == j
    decreases j - i
  {
    if i < j {
      SkipDigitsTo(fmt, i + 1, j);
    }
  }

  /** The width scanned so far is the number read so far. */
  lemma {:induction false} WidthReads(fmt: string, i: nat, m: nat, j: nat)
    requires i <= m <= j <= |fmt| && (forall k :: i <= k < j ==> IsDigit(fmt[k])) && (j < |fmt| ==> !IsDigit(fmt[j]))
    ensures Width(fmt, i, 0) == Width(fmt, m, ReadNumeral(fmt[i..m], 10))
    decreases m - i
  {
    if i < m {
      WidthReads(fmt, i, m - 1, j);
      assert fmt[i..m][..m - i - 1] == fmt[i..m - 1];
    } else {
      assert fmt[i..m] == "";
    }
  }

  lemma {:induction false} DigitsDecimal(n: nat, k: nat)
    requires k < |Digits(n, 10, false)|
    ensures IsDigit(Digits(n, 10, false)[k])
  {
    assert LOWER == "0123456789abcdef";
    if n >= 10 && k < |Digits(n, 10, false)| - 1 {
      DigitsDecimal(n / 10, k);
    }
  }

  lemma PartsAt(flag: string, digits: string, tail: string)
    ensures var fmt, z := "%" + flag + digits + tail, 1 + |flag|;
            && |fmt| == z + |digits| + |tail| && fmt[0] == '%'
            && (forall k :: 1 <= k < z ==> fmt[k] == flag[k - 1])
            && (forall k :: z <= k < z + |digits| ==> fmt[k] == digits[k - z])
            && fmt[z..z + |digits|] == digits && fmt[z + |digits|..] == tail
  {
  }

  /** Scanning flag, width, length and conversion character one after the other. */
  lemma ParseParts(zero: bool, digits: string, width: nat, length: Length, c: char)
    requires IsConversion(c) && ReadNumeral(digits, 10) == width
    requires (forall k :: 0 <= k < |digits| ==> IsDigit(digits[k])) && (digits != "" ==> digits[0] != '0')
    ensures var fmt := "%" + (if zero then "0" else "") + digits + (length.Text() + [c]);
            Parse(fmt, 0) == Spec(zero, width, length != Plain, |fmt| - 1) && fmt[0] == '%' && fmt[|fmt| - 1] == c
  {
    hide Width, ReadNumeral, SkipZeros, SkipDigits, SkipLength, Length.Text;
    var flag := if zero then "0" else "";
    var tail := length.Text() + [c];
    var fmt := "%" + flag + digits + tail;
    var z, w := 1 + |flag|, 1 + |flag| + |digits|;
    PartsAt(flag, digits, tail);
    AfterWidth(length, c, fmt, w);
    SkipZerosTo(fmt, 1, z);
    SkipDigitsTo(fmt, z, w);
    WidthReads(fmt, z, w, w);
    WidthEnds(fmt, w, width);
  }

  /** What was written is what is parsed. */
  lemma ParseWritten(zero: bool, width: nat, length: Length, c: char)
    requires IsConversion(c)
    ensures var fmt := Written(zero, width, length, c);
            Parse(fmt, 0) == Spec(zero, width, length != Plain, |fmt| - 1) && fmt[0] == '%' && fmt[|fmt| - 1] == c
  {
    hide Digits, Parse;
    var fmt := Written(zero, width, length, c);
    var digits := if width > 0 then Digits(width, 10, false) else "";
    assert fmt == "%" + (if zero then "0" else "") + digits + (length.Text() + [c]);
    NumeralRoundTrip(width, 10, false);
    forall k | 0 <= k < |digits|
      ensures IsDigit(digits[k])
    {
      DigitsDecimal(width, k);
    }
    ParseParts(zero, digits, width, length, c);
  }

  lemma WidthEnds(fmt: string, w: nat, acc: nat)
    requires w < |fmt| && !IsDigit(fmt[w])
    ensures Width(fmt, w, acc) == acc
  {
  }

  lemma AfterWidth(length: Length, c: char, fmt: string, w: nat)
    requires w <= |fmt| && fmt[w..] == length.Text() + [c] && IsConversion(c)
    ensures w < |fmt| && !IsDigit(fmt[w]) && SkipLength(fmt, w) == |fmt| - 1 && fmt[|fmt| - 1] == c
    ensures |fmt| - 1 > w <==> length != Plain
  {
    var tail := fmt[w..];
    assert |fmt| == w + |tail| && forall k :: 0 <= k < |tail| ==> fmt[w + k] == tail[k];
  }

  // ------------------------------------------------------- one conversion alone

  /** The argument list of a lone conversion. */
  function ArgsFor(c: char, arg: Arg): seq<Arg> { if WantsArg(c) then [arg] else [] }

  /** Rendering a lone conversion leaves just its own text. */
  lemma RenderOne(zero: bool, width: nat, length: Length, c: char, arg: Arg)
    requires IsConversion(c)
    requires WantsArg(c) ==> Fits(Spec(zero, width, length != Plain, |Written(zero, width, length, c)| - 1), c, arg)
    ensures var fmt := Written(zero, width, length, c);
            var spec := Spec(zero, width, length != Plain, |fmt| - 1);
            && Complete(fmt, 0, ArgsFor(c, arg))
            && Render(fmt, 0, ArgsFor(c, arg)) == Piece(spec, c, if WantsArg(c) then arg else Null)
  {
    hide Written, Parse, Piece, Fits;
    ParseWritten(zero, width, length, c);
    var fmt := Written(zero, width, length, c);
    assert Complete(fmt, |fmt|, []);
  }

  /** `s` is the numeral of `n`: digits of the base in the right case, no leading zero. */
  predicate IsNumeral(s: string, n: nat, base: Base, upper: bool) {
    && s != "" && (s[0] == '0' ==> |s| == 1)
    && (forall k :: 0 <= k < |s| ==>
          || '0' <= s[k] <= '9'
          || (base == 16 && if upper then 'A' <= s[k] <= 'F' else 'a' <= s[k] <= 'f'))
    && ReadNumeral(s, base) == n
  }

  lemma DigitsNumeral(n: nat, base: Base, upper: bool)
    ensures IsNumeral(Digits(n, base, upper), n, base, upper)
  {
    NumeralRoundTrip(n, base, upper);
    forall k | 0 <= k < |Digits(n, base, upper)|
      ensures var d := Digits(n, base, upper)[k];
              '0' <= d <= '9' || (base == 16 && if upper then 'A' <= d <= 'F' else 'a' <= d <= 'f')
    {
      DigitCase(n, base, upper, k);
    }
  }

  lemma {:induction false} DigitCase(n: nat, base: Base, upper: bool, k: nat)
    requires k < |Digits(n, base, upper)|
    ensures var d := Digits(n, base, upper)[k];
            '0' <= d <= '9' || (base == 16 && if upper then 'A' <= d <= 'F' else 'a' <= d <= 'f')
  {
    assert LOWER == "0123456789abcdef" && UPPER == "0123456789ABCDEF";
    if n >= base && k < |Digits(n, base, upper)| - 1 {
      DigitCase(n / base, base, upper, k);
    }
  }

  /** `text` is `body` brought to the width on the left, with zeros under the zero flag and
      blanks otherwise. */
  predicate PaddedTo(text: string, body: string, zero: bool, width: nat) {
    && |text| == (if |body| < width then width else |body|)
    && text[|text| - |body|..] == body
    && forall k :: 0 <= k < |text| - |body| ==> text[k] == if zero then '0' else ' '
  }

  lemma PaddedIs(spec: Spec, body: string)
    ensures PaddedTo(Padded(spec, body), body, spec.zeroPad, spec.width)
  {
    var text := Padded(spec, body);
    assert text[|text| - |body|..] == body;
  }

  /** %d and %i: the argument as a 32-bit number, or 64-bit under a length modifier, in
      two's complement; a minus sign for negative ones; decimal digits. */
  lemma SignedConversion(zero: bool, width: nat, length: Length, c: char, bits: nat)
      returns (v: int, body: string)
    requires c in "di" && bits < 0x1_0000_0000_0000_0000
    requires !(length != Plain && bits == 0x8000_0000_0000_0000)
    ensures length == Plain ==> -0x8000_0000 <= v < 0x8000_0000 && (bits - v) % 0x1_0000_0000 == 0
    ensures length != Plain ==> v == if bits < 0x8000_0000_0000_0000 then bits else bits - 0x1_0000_0000_0000_0000
    ensures if v < 0 then body != "" && body[0] == '-' && IsNumeral(body[1..], -v, 10, false)
            else IsNumeral(body, v, 10, false)
    ensures var fmt := Written(zero, width, length, c);
            Complete(fmt, 0, [Bits(bits)]) && PaddedTo(Render(fmt, 0, [Bits(bits)]), body, zero, width)
  {
    hide Written, Complete, Render, Digits, Parse, ReadNumeral, Padded, PaddedTo, IsNumeral;
    var spec := Spec(zero, width, length != Plain, |Written(zero, width, length, c)| - 1);
    v := Signed(spec, bits);
    body := NumText(v, 10, false);
    SignedIs(spec, bits);
    hide Signed, NumText;
    NumTextIs(v);
    RenderOne(zero, width, length, c, Bits(bits));
    PaddedIs(spec, body);
  }

  lemma NumTextIs(v: int)
    ensures var body := NumText(v, 10, false);
            if v < 0 then body != "" && body[0] == '-' && IsNumeral(body[1..], -v, 10, false)
            else IsNumeral(body, v, 10, false)
  {
    hide Digits, IsNumeral;
    DigitsNumeral(if v < 0 then -v else v, 10, false);
    if v < 0 {
      assert NumText(v, 10, false)[1..] == Digits(-v, 10, false);
    }
  }

  /** Two's complement in 32 or 64 bits. */
  lemma SignedIs(spec: Spec, bits: nat)
    requires bits < U64
    ensures var v := Signed(spec, bits);
            && (!spec.wide ==> -0x8000_0000 <= v < 0x8000_0000 && (bits - v) % 0x1_0000_0000 == 0)
            && (spec.wide ==> v == if bits < 0x8000_0000_0000_0000 then bits else bits - 0x1_0000_0000_0000_0000)
  {
    LowHalf(bits);
  }

  lemma LowHalf(bits: nat)
    ensures (bits - bits % 0x1_0000_0000) % 0x1_0000_0000 == 0
    ensures (bits - (bits % 0x1_0000_0000 - 0x1_0000_0000)) % 0x1_0000_0000 == 0
  {
    var q := bits / 0x1_0000_0000;
    assert bits - bits % 0x1_0000_0000 == q * 0x1_0000_0000;
    assert bits - (bits % 0x1_0000_0000 - 0x1_0000_0000) == (q + 1) * 0x1_0000_0000;
  }

  /** %u, %x and %X: the low 32 bits, or all 64 under a length modifier. */
  lemma UnsignedConversion(zero: bool, width: nat, length: Length, c: char, bits: nat) returns (body: string)
    requires c in "uxX" && bits < 0x1_0000_0000_0000_0000
    ensures IsNumeral(body, if length == Plain then bits % 0x1_0000_0000 else bits, if c == 'u' then 10 else 16, c == 'X')
    ensures var fmt := Written(zero, width, length, c);
            Complete(fmt, 0, [Bits(bits)]) && PaddedTo(Render(fmt, 0, [Bits(bits)]), body, zero, width)
  {
    hide Written, Complete, Render, Digits, Parse, ReadNumeral, Padded, PaddedTo, IsNumeral;
    var n := if length == Plain then bits % 0x1_0000_0000 else bits;
    var base: Base := if c == 'u' then 10 else 16;
    body := Digits(n, base, c == 'X');
    RenderOne(zero, width, length, c, Bits(bits));
    DigitsNumeral(n, base, c == 'X');
    PaddedIs(Spec(zero, width, length != Plain, |Written(zero, width, length, c)| - 1), body);
  }

  /** %p: "0x" and the 64-bit value in sixteen hexadecimal digits, whatever the flags. */
  lemma PointerConversion(zero: bool, width: nat, length: Length, bits: nat) returns (body: string)
    requires bits < 0x1_0000_0000_0000_0000
    ensures IsNumeral(body, bits, 16, false)
    ensures var fmt := Written(zero, width, length, 'p');
            && Complete(fmt, 0, [Bits(bits)])
            && var text := Render(fmt, 0, [Bits(bits)]);
               |text| >= 18 && text[..2] == "0x" && PaddedTo(text[2..], body, true, 16)
  {
    hide Written, Complete, Render, Digits, Parse, ReadNumeral;
    body := Digits(bits, 16, false);
    RenderOne(zero, width, length, 'p', Bits(bits));
    DigitsNumeral(bits, 16, false);
    var text := Render(Written(zero, width, length, 'p'), 0, [Bits(bits)]);
    assert text[2..] == Repeat('0', 16 - |body|) + body;
  }

  /** %s, %c, %% and characters that are no conversion. */
  lemma PlainConversions(zero: bool, width: nat, length: Length, text: CString, bits: nat, c: char)
    requires bits < 0x1_0000_0000_0000_0000 && IsConversion(c) && c !in "diuxXpsc%"
    ensures var f := Written(zero, width, length, 's');
            && Complete(f, 0, [Text(text)]) && Render(f, 0, [Text(text)]) == text
            && Complete(f, 0, [Null]) && Render(f, 0, [Null]) == "(null)"
    ensures var f := Written(zero, width, length, 'c');
            Complete(f, 0, [Bits(bits)]) && Render(f, 0, [Bits(bits)]) == [(bits % 256) as char]
    ensures var f := Written(zero, width, length, '%');
            Complete(f, 0, []) && Render(f, 0, []) == "%"
    ensures var f := Written(zero, width, length, c);
            Complete(f, 0, []) && Render(f, 0, []) == ['%', c]
  {
    hide Written, Complete, Render, Digits, Parse, ReadNumeral;
    RenderOne(zero, width, length, 's', Text(text));
    RenderOne(zero, width, length, 's', Null);
    RenderOne(zero, width, length, 'c', Bits(bits));
    RenderOne(zero, width, length, '%', Null);
    RenderOne(zero, width, length, c, Null);
  }

  // --------------------------------------------------------- formats in sequence

  /** How many arguments a format takes. */
  function Arity(fmt: string, i: nat): nat
    requires i <= |fmt|
    decreases |fmt| - i
  {
    if i == |fmt| then 0
    else if fmt[i] != '%' then Arity(fmt, i + 1)
    else
      var at := Parse(fmt, i).at;
      if at == |fmt| then 0 else Arity(fmt, at + 1) + if WantsArg(fmt[at]) then 1 else 0
  }

  lemma {:induction false} SkipsLocal(a: string, b: string, i: nat)
    requires i <= |a|
    ensures SkipZeros(a, i) < |a| ==> SkipZeros(a + b, i) == SkipZeros(a, i)
    ensures SkipDigits(a, i) < |a| ==> SkipDigits(a + b, i) == SkipDigits(a, i)
    ensures SkipDigits(a, i) < |a| ==> forall acc :: Width(a + b, i, acc) == Width(a, i, acc)
    decreases |a| - i
  {
    if i < |a| {
      SkipsLocal(a, b, i + 1);
    }
  }

  /** Parsing a conversion looks no further than its last character. */
  lemma ParseLocal(a: string, b: string, i: nat)
    requires i < |a| && Parse(a, i).at < |a|
    ensures Parse(a + b, i) == Parse(a, i)
  {
    hide SkipZeros, SkipDigits, Width;
    SkipsLocal(a, b, i + 1);
    SkipsLocal(a, b, SkipZeros(a, i + 1));
  }

  lemma {:induction false} SkipsShift(a: string, b: string, i: nat)
    requires i <= |b|
    ensures SkipZeros(a + b, |a| + i) == |a| + SkipZeros(b, i)
    ensures SkipDigits(a + b, |a| + i) == |a| + SkipDigits(b, i)
    ensures forall acc :: Width(a + b, |a| + i, acc) == Width(b, i, acc)
    decreases |b| - i
  {
    if i < |b| {
      SkipsShift(a, b, i + 1);
    }
  }

  lemma ParseShift(a: string, b: string, i: nat)
    requires i < |b|
    ensures var s := Parse(b, i);
            Parse(a + b, |a| + i) == s.(at := |a| + s.at)
  {
    hide SkipZeros, SkipDigits, Width;
    SkipsShift(a, b, i + 1);
    SkipsShift(a, b, SkipZeros(b, i + 1));
  }

  /** What comes before has no influence on the rest of a format. */
  lemma {:induction false} RenderShift(a: string, b: string, i: nat, args: seq<Arg>)
    requires i <= |b| && Complete(b, i, args)
    ensures Complete(a + b, |a| + i, args) && Render(a + b, |a| + i, args) == Render(b, i, args)
    decreases |b| - i
  {
    hide Parse, Fits, Piece;
    if i < |b| {
      if b[i] != '%' {
        RenderShift(a, b, i + 1, args);
      } else {
        ParseShift(a, b, i);
        var spec := Parse(b, i);
        var c := b[spec.at];
        assert (a + b)[|a| + spec.at] == c;
        SameAnywhere(spec, |a| + spec.at, c, if WantsArg(c) then args[0] else Null);
        hide WantsArg;
        RenderShift(a, b, spec.at + 1, if WantsArg(c) then args[1..] else args);
      }
    }
  }

  /** The place of a conversion has no influence on what it prints. */
  lemma SameAnywhere(spec: Spec, at: nat, c: char, arg: Arg)
    ensures Fits(spec.(at := at), c, arg) == Fits(spec, c, arg)
    ensures (WantsArg(c) ==> Fits(spec, c, arg)) ==> Piece(spec.(at := at), c, arg) == Piece(spec, c, arg)
  {
    var moved := spec.(at := at);
    if arg.Bits? && arg.bits < U64 {
      assert Signed(moved, arg.bits) == Signed(spec, arg.bits) && Unsigned(moved, arg.bits) == Unsigned(spec, arg.bits);
    }
    assert Fits(moved, c, arg) == Fits(spec, c, arg);
    forall text: string
      ensures Padded(moved, text) == Padded(spec, text)
    {
    }
    hide Digits, NumText, Signed, Unsigned, Padded, Repeat;
  }

  /** Formats one after the other print their texts one after the other. */
  lemma {:induction false} RenderConcat(a: string, b: string, i: nat, as1: seq<Arg>, as2: seq<Arg>)
    requires i <= |a| && Complete(a, i, as1) && |as1| == Arity(a, i) && Complete(b, 0, as2)
    ensures Complete(a + b, i, as1 + as2)
    ensures Render(a + b, i, as1 + as2) == Render(a, i, as1) + Render(b, 0, as2)
    decreases |a| - i
  {
    hide Parse, Fits, Piece, WantsArg;
    if i == |a| {
      assert as1 + as2 == as2;
      RenderShift(a, b, 0, as2);
    } else if a[i] != '%' {
      RenderConcat(a, b, i + 1, as1, as2);
    } else {
      ParseLocal(a, b, i);
      var at := Parse(a, i).at;
      assert (a + b)[at] == a[at];
      if WantsArg(a[at]) {
        assert (as1 + as2)[0] == as1[0] && (as1 + as2)[1..] == as1[1..] + as2;
        RenderConcat(a, b, at + 1, as1[1..], as2);
      } else {
        RenderConcat(a, b, at + 1, as1, as2);
      }
    }
  }

  /** Text without a percent sign is printed as it is. */
  lemma {:induction false} RenderText(text: string, i: nat)
    requires i <= |text| && '%' !in text
    ensures Complete(text, i, []) && Render(text, i, []) == text[i..] && Arity(text, i) == 0
    decreases |text| - i
  {
    if i < |text| {
      RenderText(text, i + 1);
    }
  }

  /** A lone conversion takes one argument or none. */
  lemma ArityOne(zero: bool, width: nat, length: Length, c: char)
    requires IsConversion(c)
    ensures Arity(Written(zero, width, length, c), 0) == if WantsArg(c) then 1 else 0
  {
    hide Written, Parse;
    ParseWritten(zero, width, length, c);
  }
}
