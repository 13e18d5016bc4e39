/**
 The bounded formatter kvsnprintf of kernel/core/printk.c and the unbounded
 rendering it truncates.
 */
module Formatter {
  import opened Numerals

  /** A C string: no embedded terminator. */
  type CString = s: string | '\0' !in s witness ""

  /** One variadic argument: a 64-bit slot or a string pointer. */
  datatype Arg = Bits(bits: nat) | Text(text: CString) | Null

  /** A parsed conversion: flags, width, 64-bit length modifier, and the index of the
      conversion character. */
  datatype Spec = Spec(zeroPad: bool, width: nat, wide: bool, at: nat)

  // ------------------------------------------------------------------- parsing

  function SkipZeros(fmt: string, i: nat): (j: nat)
    requires i <= |fmt|
    ensures i <= j <= |fmt|
    decreases |fmt| - i
  {
    if i < |fmt| && fmt[i] == '0' then SkipZeros(fmt, i + 1) else i
  }

  predicate IsDigit(c: char) { '0' <= c <= '9' }

  function SkipDigits(fmt: string, i: nat): (j: nat)
    requires i <= |fmt|
    ensures i <= j <= |fmt|
    decreases |fmt| - i
  {
    if i < |fmt| && IsDigit(fmt[i]) then SkipDigits(fmt, i + 1) else i
  }

  function Width(fmt: string, i: nat, acc: nat): nat
    requires i <= |fmt|
    decreases |fmt| - i
  {
    if i < |fmt| && IsDigit(fmt[i]) then Width(fmt, i + 1, acc * 10 + DigitValue(fmt[i])) else acc
  }

  /** Length modifiers: `l`, `ll` or `z`, all 64 bits wide. */
  function SkipLength(fmt: string, i: nat): (j: nat)
    requires i <= |fmt|
    ensures i <= j <= |fmt|
  {
    if i < |fmt| && fmt[i] == 'l' then (if i + 1 < |fmt| && fmt[i + 1] == 'l' then i + 2 else i + 1)
    else if i < |fmt| && fmt[i] == 'z' then i + 1
    else i
  }

  /** The conversion whose `%` is at `i`. */
  function Parse(fmt: string, i: nat): (s: Spec)
    requires i < |fmt|
    ensures i < s.at <= |fmt|
  {
    var z := SkipZeros(fmt, i + 1);
    var w := SkipDigits(fmt, z);
    var l := SkipLength(fmt, w);
    Spec(z > i + 1, Width(fmt, z, 0), l > w, l)
  }

  // ----------------------------------------------------------------- rendering

  function Repeat(c: char, n: int): (s: string)
    ensures |s| == if n < 0 then 0 else n
    ensures forall i :: 0 <= i < |s| ==> s[i] == c
  {
    if n <= 0 then "" else seq(n, _ => c)
  }

  function Padded(spec: Spec, text: string): string {
    Repeat(if spec.zeroPad then '0' else ' ', spec.width - |text|) + text
  }

  /** The value of an integer argument: 64 bits, or the low 32 of them. */
  function Unsigned(spec: Spec, bits: nat): nat
    requires bits < U64
  {
    if spec.wide then bits else bits % 0x1_0000_0000
  }

  function Signed(spec: Spec, bits: nat): (v: int)
    requires bits < U64
    ensures -I64_LIMIT <= v < I64_LIMIT
  {
    if spec.wide then Signed64(bits)
    else if bits % 0x1_0000_0000 < 0x8000_0000 then bits % 0x1_0000_0000
    else bits % 0x1_0000_0000 - 0x1_0000_0000
  }

  predicate WantsBits(c: char) { c in "diuxXpc" }

  predicate WantsArg(c: char) { WantsBits(c) || c == 's' }

  /** The argument a conversion may be given: of the right type, and not the one
      number whose negation overflows. */
  predicate Fits(spec: Spec, c: char, arg: Arg) {
    if c == 's' then arg.Text? || arg.Null?
    else arg.Bits? && arg.bits < U64 && (c in "di" ==> Signed(spec, arg.bits) > -I64_LIMIT)
  }

  /** The characters one conversion contributes. */
  function Piece(spec: Spec, c: char, arg: Arg): string
    requires WantsArg(c) ==> Fits(spec, c, arg)
  {
    if c == 'd' || c == 'i' then Padded(spec, NumText(Signed(spec, arg.bits), 10, false))
    else if c == 'u' then Padded(spec, Digits(Unsigned(spec, arg.bits), 10, false))
    else if c == 'x' || c == 'X' then Padded(spec, Digits(Unsigned(spec, arg.bits), 16, c == 'X'))
    else if c == 'p' then
      var hex := Digits(arg.bits, 16, false);
      "0x" + Repeat('0', 16 - |hex|) + hex
    else if c == 's' then (if arg.Null? then "(null)" else arg.text)
    else if c == 'c' then [(arg.bits % 256) as char]
    else if c == '%' then "%"
    else ['%', c]
  }

  /** No conversion is cut off by the end of the format, and every conversion finds a
      fitting argument. */
  predicate Complete(fmt: string, i: nat, args: seq<Arg>)
    requires i <= |fmt|
    decreases |fmt| - i
  {
    if i == |fmt| then true
    else if fmt[i] != '%' then Complete(fmt, i + 1, args)
    else
      var spec := Parse(fmt, i);
      && spec.at < |fmt|
      && var c := fmt[spec.at];
         if WantsArg(c)
         then args != [] && Fits(spec, c, args[0]) && Complete(fmt, spec.at + 1, args[1..])
         else Complete(fmt, spec.at + 1, args)
  }

  /** The ideal rendering, as long as it needs to be. */
  function Render(fmt: string, i: nat, args: seq<Arg>): string
    requires i <= |fmt| && Complete(fmt, i, args)
    decreases |fmt| - i
  {
    if i == |fmt| then ""
    else if fmt[i] != '%' then [fmt[i]] + Render(fmt, i + 1, args)
    else
      var spec := Parse(fmt, i);
      var c := fmt[spec.at];
      if WantsArg(c) then Piece(spec, c, args[0]) + Render(fmt, spec.at + 1, args[1..])
      else Piece(spec, c, Null) + Render(fmt, spec.at + 1, args)
  }

  // ---------------------------------------------------- only what there is room for

  function Left(room: nat, n: nat): nat { if n < room then room - n else 0 }

  /** Like Complete, but nothing is asked of the part of the format that is no longer
      looked at once `room` characters have been produced. */
  predicate Feasible(fmt: string, i: nat, args: seq<Arg>, room: nat)
    requires i <= |fmt|
    decreases |fmt| - i
  {
    if i == |fmt| || room == 0 then true
    else if fmt[i] != '%' then Feasible(fmt, i + 1, args, room - 1)
    else
      var spec := Parse(fmt, i);
      && spec.at < |fmt|
      && var c := fmt[spec.at];
         if WantsArg(c)
         then args != [] && Fits(spec, c, args[0])
              && Feasible(fmt, spec.at + 1, args[1..], Left(room, |Piece(spec, c, args[0])|))
         else Feasible(fmt, spec.at + 1, args, Left(room, |Piece(spec, c, Null)|))
  }

  /** The rendering up to the conversion that uses up the room. */
  function RenderWithin(fmt: string, i: nat, args: seq<Arg>, room: nat): string
    requires i <= |fmt| && Feasible(fmt, i, args, room)
    decreases |fmt| - i
  {
    if i == |fmt| || room == 0 then ""
    else if fmt[i] != '%' then [fmt[i]] + RenderWithin(fmt, i + 1, args, room - 1)
    else
      var spec := Parse(fmt, i);
      var c := fmt[spec.at];
      if WantsArg(c)
      then var piece := Piece(spec, c, args[0]);
           piece + RenderWithin(fmt, spec.at + 1, args[1..], Left(room, |piece|))
      else var piece := Piece(spec, c, Null);
           piece + RenderWithin(fmt, spec.at + 1, args, Left(room, |piece|))
  }

  // ------------------------------------------------------------- truncated output

  function Cut(s: string, end: nat): (r: string)
    ensures |r| == if |s| < end then |s| else end
    ensures r <= s
  {
    if |s| <= end then s else s[..end]
  }

  lemma CutAppend(a: string, b: string, end: nat)
    ensures Cut(Cut(a, end) + b, end) == Cut(a + b, end)
    ensures |Cut(a, end)| == end ==> Cut(a + b, end) == Cut(a, end)
  {
  }

  /** The buffer holds `done`, cut at `end`, in its first `p` places. */
  predicate Holds(buf: seq<char>, p: nat, end: nat, done: string) {
    p <= end < |buf| && buf[..p] == Cut(done, end)
  }

  /** Copy text while there is room. */
  method EmitText(buf: array<char>, p0: nat, end: nat, text: string, ghost done: string) returns (p: nat)
    requires Holds(buf[..], p0, end, done)
    modifies buf
    ensures Holds(buf[..], p, end, done + text)
    ensures buf[end..] == old(buf[end..])
  {
    hide Cut;
    p := p0;
    var i := 0;
    assert done + text[..0] == done;
    while i < |text| && p < end
      invariant 0 <= i <= |text|
      invariant Holds(buf[..], p, end, done + text[..i])
      invariant buf[end..] == old(buf[end..])
    {
      PutStep(buf[..], p, end, done + text[..i], text[i]);
      assert done + text[..i] + [text[i]] == done + text[..i + 1];
      assert buf[..][p := text[i]][end..] == buf[..][end..];
      buf[p] := text[i];
      p := p + 1;
      i := i + 1;
    }
    CutAppend(done + text[..i], text[i..], end);
    assert done + text == done + text[..i] + text[i..];
    if i == |text| {
      assert text[..i] == text;
    }
  }

  lemma PutStep(buf: seq<char>, p: nat, end: nat, done: string, c: char)
    requires Holds(buf, p, end, done) && p < end
    ensures Holds(buf[p := c], p + 1, end, done + [c])
  {
    assert buf[p := c][..p + 1] == buf[..p] + [c];
  }

  /** Padding: the loop runs on when the buffer is full, but writes nothing more. */
  method EmitPad(buf: array<char>, p0: nat, end: nat, c: char, len: nat, width: nat, ghost done: string) returns (p: nat)
    requires Holds(buf[..], p0, end, done)
    modifies buf
    ensures Holds(buf[..], p, end, done + Repeat(c, width - len))
    ensures buf[end..] == old(buf[end..])
  {
    hide Cut;
    p := p0;
    assert done + Repeat(c, 0) == done;
    var i := len;
    while i < width
      invariant len <= i && (i <= width || i == len)
      invariant Holds(buf[..], p, end, done + Repeat(c, i - len))
      invariant buf[end..] == old(buf[end..])
    {
      ghost var soFar := done + Repeat(c, i - len);
      assert done + Repeat(c, i + 1 - len) == soFar + [c];
      if p < end {
        PutStep(buf[..], p, end, soFar, c);
        assert buf[..][p := c][end..] == buf[..][end..];
        buf[p] := c;
        p := p + 1;
      } else {
        CutAppend(soFar, [c], end);
      }
      i := i + 1;
    }
    assert Repeat(c, i - len) == Repeat(c, width - len);
  }

  // ------------------------------------------------------------ the formatter

  /** Flags, width and length modifier, scanned left to right. */
  method ParseSpec(fmt: string, i: nat) returns (spec: Spec)
    requires i < |fmt|
    ensures spec == Parse(fmt, i)
  {
    var j := i + 1;
    var zeroPad, width: nat, wide := false, 0, false;
    while j < |fmt| && fmt[j] == '0'
      invariant i < j <= |fmt| && SkipZeros(fmt, i + 1) == SkipZeros(fmt, j)
      invariant zeroPad == (j > i + 1)
    {
      zeroPad := true;
      j := j + 1;
    }
    ghost var z := j;
    while j < |fmt| && IsDigit(fmt[j])
      invariant z <= j <= |fmt| && SkipDigits(fmt, z) == SkipDigits(fmt, j)
      invariant Width(fmt, z, 0) == Width(fmt, j, width)
    {
      width := width * 10 + DigitValue(fmt[j]);
      j := j + 1;
    }
    if j < |fmt| && fmt[j] == 'l' {
      wide := true;
      j := j + 1;
      if j < |fmt| && fmt[j] == 'l' {
        j := j + 1;
      }
    } else if j < |fmt| && fmt[j] == 'z' {
      wide := true;
      j := j + 1;
    }
    spec := Spec(zeroPad, width, wide, j);
  }

  /** A padded number, through the digit buffer. */
  method EmitNumber(buf: array<char>, p0: nat, end: nat, spec: Spec, val: int, base: Base, isSigned: bool, upper: bool,
                    numbuf: array<char>, ghost done: string)
    returns (p: nat)
    requires Holds(buf[..], p0, end, done) && numbuf != buf && numbuf.Length == NUMBUF_SIZE
    requires -I64_LIMIT <= val < I64_LIMIT && (isSigned ==> val > -I64_LIMIT)
    modifies buf, numbuf
    ensures Holds(buf[..], p, end, done + Padded(spec, NumText(if isSigned then val else val % U64, base, upper)))
    ensures buf[end..] == old(buf[end..])
  {
    hide NumText, Cut;
    var len := Itoa(val, numbuf, base, isSigned, upper);
    ghost var text := NumText(if isSigned then val else val % U64, base, upper);
    var pad := if spec.zeroPad then '0' else ' ';
    p := EmitPad(buf, p0, end, pad, len, spec.width, done);
    assert done + Repeat(pad, spec.width - len) + text == done + Padded(spec, text);
    p := EmitText(buf, p, end, numbuf[..len], done + Repeat(pad, spec.width - len));
  }

  /** One conversion: the switch of kvsnprintf. */
  method EmitConversion(buf: array<char>, p0: nat, end: nat, spec: Spec, c: char, arg: Arg,
                        numbuf: array<char>, ghost done: string)
    returns (p: nat)
    requires Holds(buf[..], p0, end, done) && numbuf != buf && numbuf.Length == NUMBUF_SIZE
    requires WantsArg(c) ==> Fits(spec, c, arg)
    modifies buf, numbuf
    ensures Holds(buf[..], p, end, done + Piece(spec, c, arg))
    ensures buf[end..] == old(buf[end..])
  {
    hide Cut, Digits, Padded;
    if c == 'd' || c == 'i' {
      p := EmitNumber(buf, p0, end, spec, Signed(spec, arg.bits), 10, true, false, numbuf, done);
    } else if c == 'u' {
      p := EmitNumber(buf, p0, end, spec, Signed64(Unsigned(spec, arg.bits)), 10, false, false, numbuf, done);
    } else if c == 'x' || c == 'X' {
      p := EmitNumber(buf, p0, end, spec, Signed64(Unsigned(spec, arg.bits)), 16, false, c == 'X', numbuf, done);
    } else if c == 'p' {
      p := EmitPointer(buf, p0, end, arg.bits, numbuf, done);
      PointerPiece(spec, arg, done);
    } else if c == 's' {
      p := EmitText(buf, p0, end, if arg.Null? then "(null)" else arg.text, done);
    } else if c == 'c' {
      p := EmitText(buf, p0, end, [(arg.bits % 256) as char], done);
    } else if c == '%' {
      p := EmitText(buf, p0, end, "%", done);
    } else {
      p := EmitText(buf, p0, end, ['%', c], done);
    }
  }

  /** Pointers: 0x and sixteen digits. */
  method EmitPointer(buf: array<char>, p0: nat, end: nat, bits: nat, numbuf: array<char>, ghost done: string)
    returns (p: nat)
    requires Holds(buf[..], p0, end, done) && numbuf != buf && numbuf.Length == NUMBUF_SIZE && bits < U64
    modifies buf, numbuf
    ensures var hex := Digits(bits, 16, false);
            Holds(buf[..], p, end, done + "0x" + Repeat('0', 16 - |hex|) + hex)
    ensures buf[end..] == old(buf[end..])
  {
    hide Cut, Digits;
    p := EmitText(buf, p0, end, "0x", done);
    var len := Itoa(Signed64(bits), numbuf, 16, false, false);
    p := EmitPad(buf, p, end, '0', len, 16, done + "0x");
    ghost var pad: int := 16 - |numbuf[..len]|;
    p := EmitText(buf, p, end, numbuf[..len], done + "0x" + Repeat('0', pad));
  }

  lemma PointerPiece(spec: Spec, arg: Arg, done: string)
    requires Fits(spec, 'p', arg)
    ensures var hex := Digits(arg.bits, 16, false);
            done + "0x" + Repeat('0', 16 - |hex|) + hex == done + Piece(spec, 'p', arg)
  {
  }

  lemma CutShift(piece: string, a: string, b: string, room: nat)
    requires Cut(a, Left(room, |piece|)) == Cut(b, Left(room, |piece|))
    ensures Cut(piece + a, room) == Cut(piece + b, room)
  {
    if |piece| < room {
      assert forall s: string :: |piece + s| > room ==> (piece + s)[..room] == piece + s[..room - |piece|];
    } else {
      assert (piece + a)[..room] == piece[..room] == (piece + b)[..room];
    }
  }

  /** Complete formats are feasible in any room, and rendering within the room agrees with
      the ideal rendering as far as the room goes. */
  lemma {:induction false} WithinIsPrefix(fmt: string, i: nat, args: seq<Arg>, room: nat)
    requires i <= |fmt| && Complete(fmt, i, args)
    ensures Feasible(fmt, i, args, room)
    ensures Cut(RenderWithin(fmt, i, args, room), room) == Cut(Render(fmt, i, args), room)
    decreases |fmt| - i
  {
    hide Parse, Piece, Fits, Cut, WantsArg;
    if i < |fmt| && room > 0 {
      if fmt[i] != '%' {
        WithinIsPrefix(fmt, i + 1, args, room - 1);
        CutShift([fmt[i]], RenderWithin(fmt, i + 1, args, room - 1), Render(fmt, i + 1, args), room);
      } else {
        var spec := Parse(fmt, i);
        var c := fmt[spec.at];
        var rest := if WantsArg(c) then args[1..] else args;
        var piece := Piece(spec, c, if WantsArg(c) then args[0] else Null);
        WithinIsPrefix(fmt, spec.at + 1, rest, Left(room, |piece|));
        CutShift(piece, RenderWithin(fmt, spec.at + 1, rest, Left(room, |piece|)), Render(fmt, spec.at + 1, rest), room);
      }
    } else if room == 0 {
      CutNothing(Render(fmt, i, args));
    }
  }

  lemma CutNothing(s: string)
    ensures Cut(s, 0) == "" == Cut("", 0)
  {
  }

  lemma WithinLiteral(fmt: string, i: nat, args: seq<Arg>, room: nat, done: string)
    requires i < |fmt| && room > 0 && Feasible(fmt, i, args, room) && fmt[i] != '%'
    ensures Feasible(fmt, i + 1, args, room - 1)
    ensures done + RenderWithin(fmt, i, args, room) == done + [fmt[i]] + RenderWithin(fmt, i + 1, args, room - 1)
  {
  }

  lemma WithinConversion(fmt: string, i: nat, args: seq<Arg>, room: nat, done: string)
    requires i < |fmt| && room > 0 && Feasible(fmt, i, args, room) && fmt[i] == '%'
    ensures var spec := Parse(fmt, i);
            && spec.at < |fmt|
            && var c := fmt[spec.at];
               var wants := WantsArg(c);
            && (wants ==> args != [] && Fits(spec, c, args[0]))
            && var rest := if wants then args[1..] else args;
               var piece := Piece(spec, c, if wants then args[0] else Null);
            && Feasible(fmt, spec.at + 1, rest, Left(room, |piece|))
            && done + RenderWithin(fmt, i, args, room)
               == done + piece + RenderWithin(fmt, spec.at + 1, rest, Left(room, |piece|))
  {
    hide Parse, Piece, Fits;
  }

  /** The room that is left after emitting a piece. */
  lemma LeftAfter(done: string, piece: string, end: nat)
    ensures end - |Cut(done + piece, end)| == Left(end - |Cut(done, end)|, |piece|)
  {
  }

  /** kvsnprintf: the first size - 1 characters of the ideal rendering, terminated, and
      nothing beyond them touched.  Only the part of the format that is reached has to be
      well formed and have its arguments. */
  method Format(buf: array<char>, size: nat, fmt: CString, args: seq<Arg>) returns (n: nat)
    requires 1 <= size <= buf.Length && Feasible(fmt, 0, args, size - 1)
    modifies buf
    ensures n < size && buf[n] == '\0'
    ensures buf[..n] == Cut(RenderWithin(fmt, 0, args, size - 1), size - 1)
    ensures Complete(fmt, 0, args) ==> buf[..n] == Cut(Render(fmt, 0, args), size - 1)
    ensures buf[size..] == old(buf[size..])
  {
    hide Cut, Parse, Piece, Fits, Feasible, RenderWithin, Complete, Render, WantsArg;
    var p: nat, i: nat, end: nat := 0, 0, size - 1;
    var rest := args;
    var numbuf := new char[NUMBUF_SIZE];
    ghost var whole, done := RenderWithin(fmt, 0, args, end), "";
    ghost var beyond := buf[size..];
    CutEmpty(end);
    while i < |fmt| && p < end
      invariant i <= |fmt| && Holds(buf[..], p, end, done)
      invariant Feasible(fmt, i, rest, end - p) && whole == done + RenderWithin(fmt, i, rest, end - p)
      invariant fresh(numbuf) && numbuf.Length == NUMBUF_SIZE
      invariant buf[size..] == beyond
      decreases |fmt| - i
    {
      ghost var tail := buf[end..];
      if fmt[i] != '%' {
        WithinLiteral(fmt, i, rest, end - p, done);
        PutStep(buf[..], p, end, done, fmt[i]);
        buf[p] := fmt[i];
        p, done, i := p + 1, done + [fmt[i]], i + 1;
        assert buf[end..] == tail;
      } else {
        WithinConversion(fmt, i, rest, end - p, done);
        var spec := ParseSpec(fmt, i);
        var c := fmt[spec.at];
        var arg := Null;
        if WantsArg(c) {
          arg := rest[0];
          rest := rest[1..];
        }
        LeftAfter(done, Piece(spec, c, arg), end);
        p := EmitConversion(buf, p, end, spec, c, arg, numbuf, done);
        done := done + Piece(spec, c, arg);
        i := spec.at + 1;
      }
      assert buf[size..] == buf[end..][1..] == tail[1..];
    }
    WithinEnd(fmt, i, rest, end - p);
    if Complete(fmt, 0, args) {
      WithinIsPrefix(fmt, 0, args, end);
    }
    assert buf[..][p := '\0'][..p] == buf[..p];
    assert buf[..][p := '\0'][size..] == buf[size..];
    buf[p] := '\0';
    n := p;
  }

  lemma CutEmpty(end: nat)
    ensures Cut("", end) == ""
  {
  }

  lemma WithinEnd(fmt: string, i: nat, rest: seq<Arg>, room: nat)
    requires i <= |fmt| && Feasible(fmt, i, rest, room) && (i == |fmt| || room == 0)
    ensures RenderWithin(fmt, i, rest, room) == ""
  {
  }
}
