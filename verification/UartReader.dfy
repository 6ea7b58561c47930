/**
 `main/pc_control.c`, task `reader`: assembles command lines from the UART byte stream, drops
 lines that do not fit, whole, and resynchronises at the next line feed.
 */
module UartReader {
  import opened OctetStrings
  import opened Lines

  const LINE_SIZE := 1400

  function WithoutCr(s: seq<Byte>): seq<Byte> {
    if s == [] then []
    else if s[|s| - 1] == CR then WithoutCr(s[..|s| - 1])
    else WithoutCr(s[..|s| - 1]) + [s[|s| - 1]]
  }

  predicate Delivers(line: Line) {
    0 < |line| < LINE_SIZE
  }

  function Kept(lines: seq<Line>): seq<Line> {
    if lines == [] then []
    else (if Delivers(lines[0]) then [lines[0]] else []) + Kept(lines[1..])
  }

  /** The batch specification: drop CR, split at LF, keep the lines of 1 to 1399 bytes. */
  function Batch(s: seq<Byte>): seq<Line> {
    Kept(Complete(WithoutCr(s)))
  }

  lemma {:induction false} KeptAppend(a: seq<Line>, b: seq<Line>)
    ensures Kept(a + b) == Kept(a) + Kept(b)
  {
    if a == [] {
      assert a + b == b;
    } else {
      KeptAppend(a[1..], b);
      assert (a + b)[1..] == a[1..] + b;
      Regroup(if Delivers(a[0]) then [a[0]] else [], Kept(a[1..]), Kept(b));
    }
  }

  /** One more byte that is not a carriage return. */
  lemma OneByte(s: seq<Byte>, c: Byte)
    ensures c != LF ==> Complete(s + [c]) == Complete(s) && Partial(s + [c]) == Partial(s) + [c]
    ensures c == LF ==> Complete(s + [c]) == Complete(s) + [Partial(s)] && Partial(s + [c]) == []
  {
    CompleteAppend(s, [c]);
    PartialHasNoLf(s);
    if c != LF {
      Unbroken(Partial(s) + [c]);
    } else {
      assert Partial(s) + [c] == Partial(s) + [LF] + [];
      FirstLine(Partial(s), []);
    }
  }

  class Reader {
    const line: array<Byte>
    var used: nat
    var overflow: bool
    /** What went into the command queue. */
    var sent: seq<Line>
    /** The bytes read so far. */
    ghost var received: seq<Byte>

    ghost predicate Valid()
      reads this, line
    {
      var partial := Partial(WithoutCr(received));
      && line.Length == LINE_SIZE && used < LINE_SIZE
      && sent == Batch(received)
      && (overflow <==> |partial| >= LINE_SIZE)
      && (!overflow ==> line[..used] == partial)
    }

    constructor ()
      ensures Valid() && received == [] && fresh(line)
    {
      line := new Byte[LINE_SIZE](_ => 0);
      used, overflow, sent, received := 0, false, [], [];
      new;
      Unbroken([]);
    }

    /** The body of the loop, for the byte c. */
    method Receive(c: Byte)
      requires Valid()
      modifies this, line
      ensures Valid() && received == old(received) + [c]
    {
      ghost var s := WithoutCr(received);
      ghost var lines := Complete(s);
      assert (received + [c])[..|received|] == received;
      received := received + [c];
      if c == CR {
        return;
      }
      OneByte(s, c);
      if c == LF {
        KeptAppend(lines, [Partial(s)]);
        assert Kept([Partial(s)]) == if Delivers(Partial(s)) then [Partial(s)] else [];
        if !overflow && used != 0 {
          sent := sent + [line[..used]];
        }
        used, overflow := 0, false;
      } else if used < LINE_SIZE - 1 && !overflow {
        line[used] := c;
        used := used + 1;
      } else {
        overflow := true;
      }
    }
  }

  /** The task's loop over a stream: exactly the batch specification, for any bytes. */
  method Read(stream: seq<Byte>) returns (sent: seq<Line>)
    ensures sent == Batch(stream)
  {
    var reader := new Reader();
    var i := 0;
    while i < |stream|
      invariant 0 <= i <= |stream|
      invariant reader.Valid() && reader.received == stream[..i] && fresh(reader) && fresh(reader.line)
    {
      reader.Receive(stream[i]);
      i := i + 1;
    }
    assert stream[..i] == stream;
    sent := reader.sent;
  }

  lemma {:induction false} WithoutCrAppend(s: seq<Byte>, t: seq<Byte>)
    ensures WithoutCr(s + t) == WithoutCr(s) + WithoutCr(t)
  {
    if t == [] {
      assert s + t == s;
    } else {
      WithoutCrAppend(s, t[..|t| - 1]);
      assert (s + t)[..|s + t| - 1] == s + t[..|t| - 1];
    }
  }

  /**
   Resynchronisation: whatever came before, bytes after a line feed are read as if the reader had
   just started.
   */
  lemma Resynchronises(before: seq<Byte>, after: seq<Byte>)
    ensures Batch(before + [10] + after) == Batch(before + [10]) + Batch(after)
  {
    var s := WithoutCr(before);
    WithoutCrAppend(before + [LF], after);
    WithoutCrAppend(before, [LF]);
    assert WithoutCr([LF]) == WithoutCr([]) + [LF];
    OneByte(s, LF);
    CompleteAppend(s + [LF], WithoutCr(after));
    assert [] + WithoutCr(after) == WithoutCr(after);
    KeptAppend(Complete(s + [LF]), Complete(WithoutCr(after)));
  }

  /** A carriage return might as well not have been sent. */
  lemma CarriageReturnsVanish(s: seq<Byte>, t: seq<Byte>)
    ensures Batch(s + [13] + t) == Batch(s + t)
  {
    WithoutCrAppend(s + [CR], t);
    WithoutCrAppend(s, [CR]);
    WithoutCrAppend(s, t);
    assert WithoutCr([CR]) == WithoutCr([]) == [];
  }

  /** A line that fits is delivered whole; one that does not leaves no trace; nor does what has no line feed. */
  lemma LineByLine(line: Line)
    requires 10 !in line && 13 !in line
    ensures Batch(line + [10]) == if 1 <= |line| <= 1399 then [line] else []
    ensures Batch(line) == []
  {
    NoCr(line);
    WithoutCrAppend(line, [LF]);
    assert WithoutCr([LF]) == WithoutCr([]) + [LF];
    OneByte(line, LF);
    Unbroken(line);
    assert Complete(line + [LF]) == [line];
    assert Kept([line]) == (if Delivers(line) then [line] else []) + Kept([]);
  }

  lemma {:induction false} NoCr(s: seq<Byte>)
    requires CR !in s
    ensures WithoutCr(s) == s
  {
    if s != [] {
      NoCr(s[..|s| - 1]);
      assert s == s[..|s| - 1] + [s[|s| - 1]];
    }
  }
}
