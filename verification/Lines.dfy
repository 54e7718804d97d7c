/** Text as bytes, and its split into lines that keep their newline. */
module Lines {
  import opened Bytes

  const NEWLINE: byte := 10

  type Line = seq<byte>

  /** Length of the first line of a non-empty text, its newline included. */
  function FirstLine(s: seq<byte>): (n: nat)
    requires s != []
    ensures 0 < n <= |s|
  {
    if s[0] == NEWLINE || |s| == 1 then 1 else 1 + FirstLine(s[1..])
  }

  function SplitLines(s: seq<byte>): seq<Line>
    decreases |s|
  {
    if s == [] then [] else [s[..FirstLine(s)]] + SplitLines(s[FirstLine(s)..])
  }

  function Joined(lines: seq<Line>): seq<byte> {
    if lines == [] then [] else lines[0] + Joined(lines[1..])
  }

  predicate Ended(line: Line) {
    line != [] && line[|line|-1] == NEWLINE
  }

  /** Non-empty, and no newline before its last byte. */
  ghost predicate IsLine(line: Line) {
    line != [] && forall i | 0 <= i < |line| - 1 :: line[i] != NEWLINE
  }

  /** A list of lines that a text can split into: only the last may lack its newline. */
  ghost predicate WellSplit(lines: seq<Line>) {
    && (forall i | 0 <= i < |lines| :: IsLine(lines[i]))
    && (forall i | 0 <= i < |lines| - 1 :: Ended(lines[i]))
  }

  lemma {:induction false} FirstLineIsLine(s: seq<byte>)
    requires s != []
    ensures IsLine(s[..FirstLine(s)])
    ensures FirstLine(s) < |s| ==> Ended(s[..FirstLine(s)])
  {
    if s[0] != NEWLINE && |s| > 1 {
      FirstLineIsLine(s[1..]);
      var n := FirstLine(s[1..]);
      var line := s[..n+1];
      assert line[1..] == s[1..][..n];
      forall i | 0 <= i < |line| - 1
        ensures line[i] != NEWLINE
      {
        if i > 0 {
          assert line[i] == s[1..][..n][i-1];
        }
      }
      assert line[|line|-1] == s[1..][..n][n-1];
    }
  }

  lemma WellSplitCons(line: Line, rest: seq<Line>)
    requires IsLine(line) && WellSplit(rest) && (rest != [] ==> Ended(line))
    ensures WellSplit([line] + rest)
  {
    var lines := [line] + rest;
    forall i | 0 <= i < |lines|
      ensures IsLine(lines[i]) && (i < |lines| - 1 ==> Ended(lines[i]))
    {
      if i > 0 {
        assert lines[i] == rest[i-1];
      }
    }
  }

  lemma WellSplitTail(lines: seq<Line>)
    requires WellSplit(lines) && lines != []
    ensures WellSplit(lines[1..])
  {
    forall i | 0 <= i < |lines[1..]|
      ensures IsLine(lines[1..][i]) && (i < |lines[1..]| - 1 ==> Ended(lines[1..][i]))
    {
      assert IsLine(lines[i+1]);
    }
  }

  lemma SplitStep(s: seq<byte>)
    requires s != []
    ensures SplitLines(s) == [s[..FirstLine(s)]] + SplitLines(s[FirstLine(s)..])
  {
  }

  lemma NothingSplits(s: seq<byte>)
    ensures SplitLines(s) == [] <==> s == []
  {
  }

  lemma NoLines()
    ensures SplitLines([]) == [] && Joined([]) == [] && WellSplit([])
  {
  }

  lemma JoinStep(line: Line, rest: seq<Line>)
    ensures Joined([line] + rest) == line + Joined(rest)
  {
    assert ([line] + rest)[1..] == rest;
  }

  /** Splitting loses nothing, and yields lines. */
  lemma {:induction false} SplitJoins(s: seq<byte>)
    ensures Joined(SplitLines(s)) == s
    ensures WellSplit(SplitLines(s))
    decreases |s|
  {
    hide FirstLine, IsLine, Ended, WellSplit, SplitLines, Joined;
    if s == [] {
      NoLines();
    } else {
      var n := FirstLine(s);
      SplitStep(s);
      FirstLineIsLine(s);
      SplitJoins(s[n..]);
      NothingSplits(s[n..]);
      WellSplitCons(s[..n], SplitLines(s[n..]));
      JoinStep(s[..n], SplitLines(s[n..]));
      assert s[..n] + s[n..] == s;
    }
  }

  lemma {:induction false} FirstLineOf(line: Line, rest: seq<byte>)
    requires IsLine(line) && (rest == [] || Ended(line))
    ensures FirstLine(line + rest) == |line|
  {
    var s := line + rest;
    if |line| > 1 {
      assert line[0] != NEWLINE;
      assert s[1..] == line[1..] + rest;
      assert IsLine(line[1..]);
      FirstLineOf(line[1..], rest);
    } else if rest != [] {
      assert s[0] == NEWLINE;
    }
  }

  /** A text splits in one way only: joined lines split back into themselves. */
  lemma {:induction false} JoinSplits(lines: seq<Line>)
    requires WellSplit(lines)
    ensures SplitLines(Joined(lines)) == lines
  {
    if lines == [] {
    } else {
      var line, rest := lines[0], Joined(lines[1..]);
      WellSplitTail(lines);
      JoinSplits(lines[1..]);
      if |lines| == 1 {
        assert lines[1..] == [];
      }
      FirstLineOf(line, rest);
      assert (line + rest)[..|line|] == line && (line + rest)[|line|..] == rest;
    }
  }

  lemma {:induction false} JoinedAppend(a: seq<Line>, b: seq<Line>)
    ensures Joined(a + b) == Joined(a) + Joined(b)
  {
    if a == [] {
      assert a + b == b;
    } else {
      assert (a + b)[1..] == a[1..] + b;
      JoinedAppend(a[1..], b);
    }
  }
}
