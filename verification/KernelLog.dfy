/**
 The kernel log of kernel/core/printk.c: an overwriting ring that behaves like a
 window on everything ever logged.
 */
module KernelLog {
  import opened Formatter

  const LOG_SIZE: nat := 65536
  const PRINTK_BUFFER_SIZE: nat := 1024

  function Min(a: nat, b: nat): nat { if a < b then a else b }

  /** The last LOG_SIZE characters of a history. */
  function Retained(history: string): (r: string)
    ensures |r| == Min(|history|, LOG_SIZE)
  {
    history[|history| - Min(|history|, LOG_SIZE)..]
  }

  /** Ring position `i` places after `start`. */
  function Position(start: nat, i: nat): (p: nat)
    ensures p < LOG_SIZE
  {
    (start + i) % LOG_SIZE
  }

  /** The ring shows the retained part of the history, oldest first. */
  predicate Shows(ring: seq<char>, start: nat, count: nat, history: string) {
    && |ring| == LOG_SIZE && start < LOG_SIZE
    && count == |Retained(history)|
    && forall i: nat :: i < count ==> ring[Position(start, i)] == Retained(history)[i]
  }

  lemma PositionsDiffer(start: nat, i: nat, j: nat)
    requires i < j < i + LOG_SIZE
    ensures Position(start, i) != Position(start, j)
  {
    assert (start + j) - (start + i) == j - i;
  }

  lemma PositionShift(start: nat, i: nat)
    requires start < LOG_SIZE
    ensures Position((start + 1) % LOG_SIZE, i) == Position(start, i + 1)
  {
  }

  /** Appending one character, with or without overwriting the oldest. */
  lemma AppendStep(ring: seq<char>, start: nat, count: nat, history: string, c: char)
    requires Shows(ring, start, count, history)
    ensures var ring' := ring[Position(start, count) := c];
            if count < LOG_SIZE then Shows(ring', start, count + 1, history + [c])
            else Shows(ring', (start + 1) % LOG_SIZE, count, history + [c])
  {
    var ring' := ring[Position(start, count) := c];
    var before, after := Retained(history), Retained(history + [c]);
    if count < LOG_SIZE {
      assert after == before + [c];
      forall i: nat | i < count + 1
        ensures ring'[Position(start, i)] == after[i]
      {
        if i < count {
          PositionsDiffer(start, i, count);
        }
      }
    } else {
      assert after == before[1..] + [c];
      forall i: nat | i < count
        ensures ring'[Position((start + 1) % LOG_SIZE, i)] == after[i]
      {
        PositionShift(start, i);
        if i < count - 1 {
          PositionsDiffer(start, i + 1, count);
        }
      }
    }
  }

  /** A leading <0> to <7> sets the log level and is not printed. */
  predicate HasLevel(fmt: string) {
    |fmt| >= 3 && fmt[0] == '<' && '0' <= fmt[1] <= '7' && fmt[2] == '>'
  }

  function Body(fmt: CString): (b: CString) {
    if HasLevel(fmt) then fmt[3..] else fmt
  }

  /** Exactly the prefixes <0> to <7> are stripped, once, and nothing else is. */
  lemma LevelStripped(level: char, text: CString)
    requires level != '\0'
    ensures var fmt: CString := "<" + [level] + ">" + text;
            Body(fmt) == if level in "01234567" then text else fmt
    ensures |text| < 3 || text[0] != '<' || text[2] != '>' ==> Body(text) == text
  {
    var fmt := "<" + [level] + ">" + text;
    assert fmt[0] == '<' && fmt[1] == level && fmt[2] == '>' && fmt[3..] == text;
  }

  /** What one printk call adds to the log. */
  function Message(fmt: CString, args: seq<Arg>): string
    requires Feasible(Body(fmt), 0, args, PRINTK_BUFFER_SIZE - 1)
  {
    Cut(RenderWithin(Body(fmt), 0, args, PRINTK_BUFFER_SIZE - 1), PRINTK_BUFFER_SIZE - 1)
  }

  class Log {
    const ring: array<char>
    const buffer: array<char>
    var start: nat
    var count: nat
    ghost var history: string

    ghost predicate Valid()
      reads this, ring
    {
      && ring != buffer && ring.Length == LOG_SIZE && buffer.Length == PRINTK_BUFFER_SIZE
      && Shows(ring[..], start, count, history)
    }

    constructor ()
      ensures Valid() && history == "" && fresh(ring) && fresh(buffer)
    {
      ring := new char[LOG_SIZE];
      buffer := new char[PRINTK_BUFFER_SIZE];
      start, count, history := 0, 0, "";
    }

    /** printk_log_append. */
    method Append(text: string)
      requires Valid()
      modifies `start, `count, `history, ring
      ensures Valid() && history == old(history) + text
    {
      hide Shows;
      assert text[..0] == "";
      for i := 0 to |text|
        invariant Shows(ring[..], start, count, history) && ring.Length == LOG_SIZE
        invariant history == old(history) + text[..i]
      {
        AppendStep(ring[..], start, count, history, text[i]);
        ghost var ring' := ring[..][Position(start, count) := text[i]];
        var pos := (start + count) % LOG_SIZE;
        ring[pos] := text[i];
        assert ring[..] == ring';
        if count < LOG_SIZE {
          count := count + 1;
        } else {
          start := (start + 1) % LOG_SIZE;
        }
        history := history + [text[i]];
        assert text[..i + 1] == text[..i] + [text[i]];
      }
      assert text[..|text|] == text;
    }

    /** printk_log_size. */
    method Size() returns (n: nat)
      requires Valid()
      ensures n == Min(|history|, LOG_SIZE)
    {
      n := count;
    }

    /** printk_log_read into the caller's buffer. */
    method Read(out: array<char>, offset: nat, size: nat) returns (n: nat)
      requires Valid() && size <= out.Length && out != ring
      modifies out
      ensures Valid()
      ensures n == if offset >= |Retained(history)| then 0 else Min(size, |Retained(history)| - offset)
      ensures n > 0 ==> out[..n] == Retained(history)[offset..offset + n]
      ensures out[n..] == old(out[n..])
    {
      if size == 0 || offset >= count {
        return 0;
      }
      var available := count - offset;
      n := if size > available then available else size;
      for i := 0 to n
        invariant Valid()
        invariant forall j :: 0 <= j < i ==> out[j] == Retained(history)[offset + j]
        invariant out[n..] == old(out[n..])
      {
        var pos := (start + offset + i) % LOG_SIZE;
        assert pos == Position(start, offset + i);
        out[i] := ring[pos];
      }
    }

    /** vprintk: strip the level, format into the 1024-byte buffer, append. */
    method Printk(fmt: CString, args: seq<Arg>) returns (len: nat)
      requires Valid() && Feasible(Body(fmt), 0, args, PRINTK_BUFFER_SIZE - 1)
      modifies this, ring, buffer
      ensures Valid() && history == old(history) + Message(fmt, args)
      ensures len == |Message(fmt, args)| < PRINTK_BUFFER_SIZE
    {
      hide Feasible, RenderWithin, Complete, Render, Cut, Shows;
      var body: CString := if HasLevel(fmt) then fmt[3..] else fmt;
      len := Format(buffer, PRINTK_BUFFER_SIZE, body, args);
      Append(buffer[..len]);
    }
  }
}
