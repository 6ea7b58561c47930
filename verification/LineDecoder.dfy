/**
 `pc/serial_link.py`, class `LineDecoder`: when do the lines not depend on how the stream is cut
 into chunks? Decoding to text is not modelled: a line feed or carriage return byte stands for
 itself in UTF-8.
 */
module LineDecoder {
  import opened OctetStrings
  import opened Lines

  const LIMIT := 16384

  /** rstrip("\r") */
  function Strip(line: Line): Line {
    if line != [] && line[|line| - 1] == CR then Strip(line[..|line| - 1]) else line
  }

  function StripAll(lines: seq<Line>): seq<Line> {
    if lines == [] then [] else [Strip(lines[0])] + StripAll(lines[1..])
  }

  lemma {:induction false} StripAppend(a: seq<Line>, b: seq<Line>)
    ensures StripAll(a + b) == StripAll(a) + StripAll(b)
  {
    if a == [] {
      assert a + b == b;
    } else {
      StripAppend(a[1..], b);
      assert (a + b)[1..] == a[1..] + b;
      Regroup([Strip(a[0])], StripAll(a[1..]), StripAll(b));
    }
  }

  /** The line without the carriage returns at its end. */
  ghost predicate IsStripped(text: Line, line: Line) {
    && text <= line && (text != [] ==> text[|text| - 1] != 13)
    && forall k :: |text| <= k < |line| ==> line[k] == 13
  }

  lemma {:induction false} StripMeans(line: Line)
    ensures IsStripped(Strip(line), line)
  {
    if line != [] && line[|line| - 1] == CR {
      StripMeans(line[..|line| - 1]);
    }
  }

  lemma {:induction false} StripAllMeans(lines: seq<Line>)
    ensures |StripAll(lines)| == |lines|
    ensures forall i :: 0 <= i < |lines| ==> IsStripped(StripAll(lines)[i], lines[i])
  {
    if lines != [] {
      StripMeans(lines[0]);
      StripAllMeans(lines[1..]);
    }
  }

  function Clip(partial: Line): Line {
    if |partial| > LIMIT then [] else partial
  }

  lemma TakeLine(buffer: seq<Byte>, i: nat)
    requires i < |buffer| && i == FirstLf(buffer)
    ensures StripAll(Complete(buffer)) == [Strip(buffer[..i])] + StripAll(Complete(buffer[i + 1..]))
    ensures Partial(buffer) == Partial(buffer[i + 1..])
  {
    StripCons(buffer[..i], Complete(buffer[i + 1..]));
  }

  class Decoder {
    var buffer: seq<Byte>

    constructor ()
      ensures buffer == []
    {
      buffer := [];
    }

    method Feed(chunk: seq<Byte>) returns (lines: seq<Line>)
      modifies this
      ensures lines == Fed(old(buffer), chunk)
      ensures buffer == Kept(old(buffer), chunk)
      ensures buffer == var rest := Partial(old(buffer) + chunk); if |rest| > 16384 then [] else rest
      ensures |lines| == |Complete(old(buffer) + chunk)|
      ensures forall i :: 0 <= i < |lines| ==> IsStripped(lines[i], Complete(old(buffer) + chunk)[i])
    {
      ghost var all := buffer + chunk;
      buffer := buffer + chunk;
      lines := [];
      while LF in buffer
        invariant lines + StripAll(Complete(buffer)) == StripAll(Complete(all))
        invariant Partial(buffer) == Partial(all)
        decreases |buffer|
      {
        var i := FirstLf(buffer);
        TakeLine(buffer, i);
        Regroup(lines, [Strip(buffer[..i])], StripAll(Complete(buffer[i + 1..])));
        lines := lines + [Strip(buffer[..i])];
        buffer := buffer[i + 1..];
      }
      assert FirstLf(buffer) == |buffer|;
      StripAllMeans(Complete(all));
      if |buffer| > LIMIT {
        buffer := [];
      }
    }
  }

  function Fed(buffer: seq<Byte>, chunk: seq<Byte>): seq<Line> {
    StripAll(Complete(buffer + chunk))
  }

  function Kept(buffer: seq<Byte>, chunk: seq<Byte>): seq<Byte> {
    Clip(Partial(buffer + chunk))
  }

  /** The lines from feeding chunk after chunk. */
  function FedAll(buffer: seq<Byte>, chunks: seq<seq<Byte>>): seq<Line>
    decreases |chunks|
  {
    if chunks == [] then [] else Fed(buffer, chunks[0]) + FedAll(Kept(buffer, chunks[0]), chunks[1..])
  }

  function Concat(chunks: seq<seq<Byte>>): seq<Byte> {
    if chunks == [] then [] else chunks[0] + Concat(chunks[1..])
  }

  function Batch(s: seq<Byte>): seq<Line> {
    StripAll(Complete(s))
  }

  /** No line of text exceeds the limit; a longer one holds carriage returns only. */
  predicate Harmless(lines: seq<Line>) {
    forall i :: 0 <= i < |lines| ==> |lines[i]| <= LIMIT || Strip(lines[i]) == []
  }

  predicate IsSuffix(a: seq<Byte>, b: seq<Byte>) {
    |a| <= |b| && b[|b| - |a|..] == a
  }

  /** The buffer is the partial line, or what is left of one that exceeded the limit. */
  predicate Tracks(buffer: seq<Byte>, partial: Line) {
    IsSuffix(buffer, partial) && (buffer == partial || |partial| > LIMIT)
  }

  lemma {:induction false} StripNothing(line: Line)
    ensures Strip(line) == [] <==> forall k :: 0 <= k < |line| ==> line[k] == CR
  {
    if line != [] {
      StripNothing(line[..|line| - 1]);
    }
  }

  lemma BlankSuffix(a: Line, b: Line)
    requires IsSuffix(a, b) && Strip(b) == []
    ensures Strip(a) == []
  {
    StripNothing(a);
    StripNothing(b);
    assert forall k :: 0 <= k < |a| ==> a[k] == b[|b| - |a| + k];
  }

  /** A chunk without a line feed makes both longer: b from the buffer, p from the partial line. */
  lemma GrowTracks(buffer: seq<Byte>, partial: Line, chunk: seq<Byte>, b: seq<Byte>, p: seq<Byte>)
    requires Tracks(buffer, partial) && b == buffer + chunk && p == partial + chunk
    requires LF !in p
    ensures Complete(b) == Complete(p) == []
    ensures Tracks(Clip(Partial(b)), Partial(p))
  {
    assert forall x :: x in buffer ==> x in partial;
    Unbroken(b);
    Unbroken(p);
  }

  /** A line feed ends both; what follows is common. */
  lemma EndTracks(buffer: seq<Byte>, partial: Line, head: seq<Byte>, rest: seq<Byte>, b: seq<Byte>, p: seq<Byte>)
    requires Tracks(buffer, partial) && LF !in partial + head
    requires b == buffer + head + [LF] + rest && p == partial + head + [LF] + rest
    requires Harmless(Complete(p))
    ensures StripAll(Complete(b)) == StripAll(Complete(p))
    ensures Partial(b) == Partial(p) == Partial(rest)
  {
    assert forall x :: x in buffer + head ==> x in partial + head;
    FirstLine(partial + head, rest);
    FirstLine(buffer + head, rest);
    assert Complete(p)[0] == partial + head;
    if buffer != partial {
      BlankSuffix(buffer + head, partial + head);
    }
    StripCons(partial + head, Complete(rest));
    StripCons(buffer + head, Complete(rest));
  }

  /** One chunk: same lines, and the buffer keeps track. */
  lemma FeedTracks(buffer: seq<Byte>, partial: Line, chunk: seq<Byte>, b: seq<Byte>, p: seq<Byte>)
    requires b == buffer + chunk && p == partial + chunk
    requires LF !in partial && Tracks(buffer, partial) && Harmless(Complete(p))
    ensures StripAll(Complete(b)) == StripAll(Complete(p))
    ensures Tracks(Clip(Partial(b)), Partial(p))
  {
    var i := FirstLf(chunk);
    if i == |chunk| {
      GrowTracks(buffer, partial, chunk, b, p);
    } else {
      var head, rest := chunk[..i], chunk[i + 1..];
      assert chunk == head + [LF] + rest;
      EndTracks(buffer, partial, head, rest, b, p);
    }
  }

  lemma StripCons(line: Line, lines: seq<Line>)
    ensures StripAll([line] + lines) == [Strip(line)] + StripAll(lines)
  {
    assert ([line] + lines)[1..] == lines;
  }

  lemma HarmlessParts(a: seq<Line>, b: seq<Line>)
    requires Harmless(a + b)
    ensures Harmless(a) && Harmless(b)
  {
    forall i | 0 <= i < |a| ensures |a[i]| <= LIMIT || Strip(a[i]) == [] {
      assert (a + b)[i] == a[i];
    }
    forall i | 0 <= i < |b| ensures |b[i]| <= LIMIT || Strip(b[i]) == [] {
      assert (a + b)[|a| + i] == b[i];
    }
  }

  lemma {:induction false} ChunksTrack(buffer: seq<Byte>, partial: Line, chunks: seq<seq<Byte>>)
    requires LF !in partial && Tracks(buffer, partial) && Harmless(Complete(partial + Concat(chunks)))
    ensures FedAll(buffer, chunks) == Batch(partial + Concat(chunks))
    decreases |chunks|
  {
    if chunks == [] {
      assert partial + Concat(chunks) == partial;
      Unbroken(partial);
    } else {
      var chunk, rest := chunks[0], Concat(chunks[1..]);
      var partial' := Partial(partial + chunk);
      assert partial + Concat(chunks) == partial + chunk + rest;
      CompleteAppend(partial + chunk, rest);
      HarmlessParts(Complete(partial + chunk), Complete(partial' + rest));
      FeedTracks(buffer, partial, chunk, buffer + chunk, partial + chunk);
      PartialHasNoLf(partial + chunk);
      ChunksTrack(Kept(buffer, chunk), partial', chunks[1..]);
      StripAppend(Complete(partial + chunk), Complete(partial' + rest));
    }
  }

  lemma BatchAround(before: seq<Byte>, line: Line, after: seq<Byte>)
    requires Partial(before) == [] && LF !in line
    ensures Batch(before + (line + [LF] + after)) == StripAll(Complete(before)) + ([Strip(line)] + StripAll(Complete(after)))
  {
    CompleteAppend(before, line + [LF] + after);
    assert [] + (line + [LF] + after) == line + [LF] + after;
    FirstLine(line, after);
    StripCons(line, Complete(after));
    StripAppend(Complete(before), [line] + Complete(after));
  }

  /** The first part of the cut is dropped when it exceeds the limit. */
  lemma CutDrops(before: seq<Byte>, head: Line, c: seq<Byte>)
    requires Partial(before) == [] && LF !in head && |head| > LIMIT && c == before + head
    ensures Fed([], c) == StripAll(Complete(before)) && Kept([], c) == []
  {
    CompleteAppend(before, head);
    assert [] + head == head && [] + c == c;
    Unbroken(head);
    assert Complete(c) == Complete(before) && Partial(c) == head;
  }

  lemma CutFeeds(before: seq<Byte>, head: Line, tail: Line, after: seq<Byte>, c: seq<Byte>, d: seq<Byte>)
    requires Partial(before) == [] && LF !in head && LF !in tail && |head| > LIMIT
    requires c == before + head && d == tail + [LF] + after
    ensures FedAll([], [c, d]) == StripAll(Complete(before)) + ([Strip(tail)] + StripAll(Complete(after)))
  {
    TwoChunks(c, d);
    CutDrops(before, head, c);
    assert [] + d == d;
    FirstLine(tail, after);
    StripCons(tail, Complete(after));
    assert Complete(d) == [tail] + Complete(after);
    assert StripAll(Complete(d)) == [Strip(tail)] + StripAll(Complete(after));
    assert Fed(Kept([], c), d) == StripAll(Complete(d));
  }

  /** Cutting inside a long line loses its beginning. */
  lemma LongLineCut(before: seq<Byte>, line: Line, after: seq<Byte>) returns (chunks: seq<seq<Byte>>)
    requires Partial(before) == [] && LF !in line && |line| > LIMIT && Strip(line) != []
    ensures var s := before + (line + [LF] + after);
      Concat(chunks) == s && FedAll([], chunks) != Batch(s)
  {
    var head, tail := line[..LIMIT + 1], line[LIMIT + 1..];
    chunks := [before + head, tail + [LF] + after];
    ConcatTwo(before + head, tail + [LF] + after);
    assert before + head + (tail + [LF] + after) == before + (line + [LF] + after);
    BatchAround(before, line, after);
    CutFeeds(before, head, tail, after, before + head, tail + [LF] + after);
    StripShorter(line);
    OneDifference(StripAll(Complete(before)), Strip(line), Strip(tail), StripAll(Complete(after)));
  }

  lemma OneDifference(a: seq<Line>, x: Line, y: Line, b: seq<Line>)
    requires x != y
    ensures a + ([x] + b) != a + ([y] + b)
  {
    assert (a + ([x] + b))[|a|] == x && (a + ([y] + b))[|a|] == y;
  }

  lemma ConcatTwo(c: seq<Byte>, d: seq<Byte>)
    ensures Concat([c, d]) == c + d
  {
    var last: seq<seq<Byte>> := [d];
    assert [c, d][1..] == last;
    assert Concat(last) == d + Concat(last[1..]);
  }

  lemma TwoChunks(c: seq<Byte>, d: seq<Byte>)
    ensures FedAll([], [c, d]) == Fed([], c) + Fed(Kept([], c), d)
  {
    var chunks := [c, d];
    assert chunks[1..] == [d];
    assert FedAll(Kept([], c), [d]) == Fed(Kept([], c), d) + FedAll(Kept(Kept([], c), d), []);
  }

  lemma SameByte(line: Line, n: nat)
    requires |line| > LIMIT
    ensures 0 < n <= |line[LIMIT + 1..]| ==> line[LIMIT + 1..][n - 1] == line[LIMIT + n]
  {
  }

  lemma StripShorter(line: Line)
    requires |line| > LIMIT && Strip(line) != []
    ensures Strip(line[LIMIT + 1..]) != Strip(line)
  {
    var tail := line[LIMIT + 1..];
    StripMeans(line);
    StripMeans(tail);
    SameByte(line, |Strip(line)|);
  }

  /** Where line i of a stream begins. */
  lemma {:induction false} FindLine(s: seq<Byte>, i: nat) returns (before: seq<Byte>, after: seq<Byte>)
    requires i < |Complete(s)|
    ensures s == before + (Complete(s)[i] + [LF] + after)
    ensures Partial(before) == [] && LF !in Complete(s)[i]
    decreases i
  {
    var k := FirstLf(s);
    var line, rest := s[..k], s[k + 1..];
    assert s == line + [LF] + rest;
    if i == 0 {
      before, after := [], rest;
    } else {
      var b;
      b, after := FindLine(rest, i - 1);
      before := line + [LF] + b;
      FirstLine(line, b);
      assert Complete(s)[i] == Complete(rest)[i - 1];
      Regroup(line + [LF], b, Complete(s)[i] + [LF] + after);
    }
  }

  ghost predicate SameForEveryChunking(s: seq<Byte>) {
    forall chunks {:trigger FedAll([], chunks)} :: Concat(chunks) == s ==> FedAll([], chunks) == Batch(s)
  }

  /**
   The lines are those of the whole stream, for every chunking, exactly if each complete line
   has at most 16384 bytes before its line feed, or nothing but carriage returns.
   */
  lemma ChunkingDoesNotMatter(s: seq<Byte>)
    ensures SameForEveryChunking(s) <==>
      forall i :: 0 <= i < |Complete(s)| ==> |Complete(s)[i]| <= 16384 || forall k :: 0 <= k < |Complete(s)[i]| ==> Complete(s)[i][k] == 13
  {
    forall i | 0 <= i < |Complete(s)|
      ensures Strip(Complete(s)[i]) == [] <==> forall k :: 0 <= k < |Complete(s)[i]| ==> Complete(s)[i][k] == 13
    {
      StripNothing(Complete(s)[i]);
    }
    if Harmless(Complete(s)) {
      forall chunks | Concat(chunks) == s ensures FedAll([], chunks) == Batch(s) {
        assert [] + Concat(chunks) == s;
        ChunksTrack([], [], chunks);
      }
    } else {
      var i :| 0 <= i < |Complete(s)| && !(|Complete(s)[i]| <= LIMIT || Strip(Complete(s)[i]) == []);
      var before, after := FindLine(s, i);
      var chunks := LongLineCut(before, Complete(s)[i], after);
    }
  }
}
