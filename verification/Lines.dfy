/** Splitting a byte stream at line feeds: the batch specification of both line assemblers. */
module Lines {
  import opened OctetStrings

  const LF: Byte := 10
  const CR: Byte := 13

  type Line = seq<Byte>

  function ScanLf(s: seq<Byte>, i: nat): (j: nat)
    requires i <= |s|
    ensures i <= j <= |s|
    ensures forall k :: i <= k < j ==> s[k] != LF
    ensures j < |s| ==> s[j] == LF
    decreases |s| - i
  {
    if i == |s| || s[i] == LF then i else ScanLf(s, i + 1)
  }

  /** The first line feed, or the end. */
  function FirstLf(s: seq<Byte>): (i: nat)
    ensures i <= |s|
    ensures forall k :: 0 <= k < i ==> s[k] != LF
    ensures i < |s| ==> s[i] == LF
  {
    ScanLf(s, 0)
  }

  /** The lines that a line feed ends. */
  function Complete(s: seq<Byte>): seq<Line>
    decreases |s|
  {
    var i := FirstLf(s);
    if i == |s| then [] else [s[..i]] + Complete(s[i + 1..])
  }

  /** What follows the last line feed. */
  function Partial(s: seq<Byte>): Line
    decreases |s|
  {
    var i := FirstLf(s);
    if i == |s| then s else Partial(s[i + 1..])
  }

  lemma FirstLfIs(s: seq<Byte>, i: nat)
    requires i <= |s| && (i < |s| ==> s[i] == LF)
    requires forall k :: 0 <= k < i ==> s[k] != LF
    ensures FirstLf(s) == i
  {
    var j := FirstLf(s);
    if j < i || i < j {
      assert false;
    }
  }

  lemma {:induction false} PartialHasNoLf(s: seq<Byte>)
    ensures LF !in Partial(s) && Complete(Partial(s)) == [] && Partial(Partial(s)) == Partial(s)
    decreases |s|
  {
    var i := FirstLf(s);
    if i < |s| {
      PartialHasNoLf(s[i + 1..]);
    }
  }

  lemma Unbroken(s: seq<Byte>)
    requires LF !in s
    ensures Complete(s) == [] && Partial(s) == s
  {
    FirstLfIs(s, |s|);
  }

  /** A line without a line feed, the line feed, and more. */
  lemma FirstLine(line: Line, t: seq<Byte>)
    requires LF !in line
    ensures Complete(line + [LF] + t) == [line] + Complete(t)
    ensures Partial(line + [LF] + t) == Partial(t)
  {
    var s := line + [LF] + t;
    FirstLfIs(s, |line|);
    assert s[..|line|] == line && s[|line| + 1..] == t;
  }

  lemma Regroup<T>(a: seq<T>, b: seq<T>, c: seq<T>)
    ensures a + b + c == a + (b + c)
  {
  }

  /** Splitting may pause anywhere. */
  lemma {:induction false} CompleteAppend(s: seq<Byte>, t: seq<Byte>)
    ensures Complete(s + t) == Complete(s) + Complete(Partial(s) + t)
    ensures Partial(s + t) == Partial(Partial(s) + t)
    decreases |s|
  {
    var i := FirstLf(s);
    if i < |s| {
      var line, rest := s[..i], s[i + 1..];
      assert s == line + [LF] + rest;
      assert s + t == line + [LF] + (rest + t);
      FirstLine(line, rest);
      FirstLine(line, rest + t);
      CompleteAppend(rest, t);
      Regroup([line], Complete(rest), Complete(Partial(rest) + t));
    }
  }

  function Join(lines: seq<Line>): seq<Byte> {
    if lines == [] then [] else lines[0] + [LF] + Join(lines[1..])
  }

  lemma JoinCons(line: Line, lines: seq<Line>)
    ensures Join([line] + lines) == line + [LF] + Join(lines)
  {
    assert ([line] + lines)[1..] == lines;
  }

  /** Nothing is lost: the lines with their line feeds and the partial line are the stream. */
  lemma {:induction false} SplitJoins(s: seq<Byte>)
    ensures Join(Complete(s)) + Partial(s) == s
    decreases |s|
  {
    var i := FirstLf(s);
    if i < |s| {
      var rest := s[i + 1..];
      SplitJoins(rest);
      JoinCons(s[..i], Complete(rest));
      Regroup(s[..i] + [LF], Join(Complete(rest)), Partial(rest));
      assert s == s[..i] + [LF] + rest;
    }
  }

  /** And any such decomposition is the one that splitting finds. */
  lemma {:induction false} SplitIsUnique(lines: seq<Line>, partial: Line)
    requires forall i :: 0 <= i < |lines| ==> LF !in lines[i]
    requires LF !in partial
    ensures Complete(Join(lines) + partial) == lines && Partial(Join(lines) + partial) == partial
  {
    if lines == [] {
      assert Join(lines) + partial == partial;
      Unbroken(partial);
    } else {
      SplitIsUnique(lines[1..], partial);
      assert Join(lines) + partial == lines[0] + [LF] + (Join(lines[1..]) + partial);
      FirstLine(lines[0], Join(lines[1..]) + partial);
      assert lines == [lines[0]] + lines[1..];
    }
  }
}
