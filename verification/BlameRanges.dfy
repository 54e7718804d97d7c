/** Reporting a file's authorship: byte ranges, and the lines they touch. */
module BlameRanges {
  import opened Tilings
  import opened Authorship
  import opened Bytes
  import opened Lines
  import opened BlameMaps

  datatype BlameRange = BlameRange(lineStart: nat, lineEnd: nat, byteStart: nat, byteEnd: nat, author: Author)

  datatype Report = Ranges(ranges: seq<BlameRange>) | Corrupt | UnknownActor(actor: int)

  function Newlines(s: seq<byte>): nat {
    if s == [] then 0 else Newlines(s[..|s|-1]) + if s[|s|-1] == NEWLINE then 1 else 0
  }

  lemma {:induction false} NewlinesAppend(a: seq<byte>, b: seq<byte>)
    ensures Newlines(a + b) == Newlines(a) + Newlines(b)
  {
    if b == [] {
      assert a + b == a;
    } else {
      assert (a + b)[..|a + b|-1] == a + b[..|b|-1];
      NewlinesAppend(a, b[..|b|-1]);
    }
  }

  /** The 1-based line a byte is on. */
  ghost function LineOf(text: seq<byte>, at: nat): nat
    requires at <= |text|
  {
    1 + Newlines(text[..at])
  }

  /** Line `n` of a text, counted from 1, holds byte `k`. */
  ghost predicate HoldsByte(text: seq<byte>, n: nat, k: nat) {
    var lines := SplitLines(text);
    && 1 <= n <= |lines|
    && |Joined(lines[..n-1])| <= k < |Joined(lines[..n-1])| + |lines[n-1]|
  }

  /** The lines counted are those the text splits into. */
  lemma {:induction false} CountedLineHolds(text: seq<byte>, k: nat)
    requires k < |text|
    ensures HoldsByte(text, LineOf(text, k), k)
    decreases |text|
  {
    hide SplitLines, FirstLine, IsLine, Newlines, Joined;
    var f := FirstLine(text);
    var line, rest := text[..f], text[f..];
    SplitStep(text);
    FirstLineIsLine(text);
    assert SplitLines(text)[0] == line && SplitLines(text)[1..] == SplitLines(rest);
    if k < f {
      assert text[..k] == line[..k];
      OneLine(line, k);
      NoLines();
      assert SplitLines(text)[..0] == [];
    } else {
      CountedLineHolds(rest, k - f);
      OneLine(line, f - 1);
      assert text[..k] == line[..f-1] + [line[f-1]] + rest[..k-f];
      NewlinesAppend(line[..f-1] + [line[f-1]], rest[..k-f]);
      EndedByNewline(line[..f-1], line[f-1]);
      var n := LineOf(rest, k - f);
      JoinStep(line, SplitLines(rest)[..n-1]);
      assert SplitLines(text)[..n] == [line] + SplitLines(rest)[..n-1];
    }
  }

  lemma EndedByNewline(s: seq<byte>, b: byte)
    ensures Newlines(s + [b]) == Newlines(s) + if b == NEWLINE then 1 else 0
  {
    assert (s + [b])[..|s|] == s;
  }

  /** No newline before a line's last byte. */
  lemma {:induction false} OneLine(line: Line, k: nat)
    requires IsLine(line) && k < |line|
    ensures Newlines(line[..k]) == 0
    decreases k
  {
    if k == 0 {
    } else {
      OneLine(line, k - 1);
      EndedByNewline(line[..k-1], line[k-1]);
      assert line[..k] == line[..k-1] + [line[k-1]];
    }
  }

  /** The lines a range reports hold its first byte and its last. */
  lemma ReportsItsLines(range: BlameRange, text: seq<byte>, map_: BlameMap, i: nat)
    requires i < |map_| && Reports(range, text, map_, i) && map_[i].len > 0
    ensures HoldsByte(text, range.lineStart, range.byteStart)
    ensures HoldsByte(text, range.lineEnd, range.byteEnd - 1)
  {
    hide HoldsByte, LineOf;
    CountedLineHolds(text, range.byteStart);
    CountedLineHolds(text, range.byteEnd - 1);
  }

  /** What one run reports: its exact bytes, the line of its first byte and of its last. */
  ghost predicate Reports(range: BlameRange, text: seq<byte>, map_: BlameMap, i: nat)
    requires i < |map_|
  {
    && range.byteStart == Total(map_[..i])
    && range.byteEnd == range.byteStart + map_[i].len <= |text|
    && range.author == map_[i].stamp
    && range.lineStart == LineOf(text, range.byteStart)
    && range.lineEnd == LineOf(text, if map_[i].len == 0 then range.byteStart else range.byteEnd - 1)
  }

  lemma LinesOfSlice(text: seq<byte>, start: nat, end: nat)
    requires start <= end <= |text|
    ensures Newlines(text[..start]) + Newlines(text[start..end]) == Newlines(text[..end])
    ensures start < end ==>
      LineOf(text, start) + Newlines(text[start..end][..end - start - 1]) == LineOf(text, end - 1)
  {
    assert text[..start] + text[start..end] == text[..end];
    NewlinesAppend(text[..start], text[start..end]);
    if start < end {
      assert text[..start] + text[start..end][..end - start - 1] == text[..end - 1];
      NewlinesAppend(text[..start], text[start..end][..end - start - 1]);
    }
  }

  /** A map that does not cover the content is refused before any of it is used. */
  method Blame(text: seq<byte>, map_: BlameMap, actors: set<int>) returns (r: Report)
    ensures r.Corrupt? <==> Total(map_) != |text|
    ensures r.UnknownActor? <==> Total(map_) == |text| && exists i :: 0 <= i < |map_| && map_[i].stamp.actor !in actors
    ensures r.Ranges? ==>
      && |r.ranges| == |map_|
      && forall i | 0 <= i < |map_| :: Reports(r.ranges[i], text, map_, i)
  {
    hide Total, Newlines, Expand;
    if Total(map_) != |text| {
      return Corrupt;
    }
    var out: seq<BlameRange> := [];
    var pos: nat, line: nat := 0, 1;
    TotalWhole(map_, 0);
    NoNewlines(text);
    for k := 0 to |map_|
      invariant pos == Total(map_[..k]) <= |text|
      invariant line == LineOf(text, pos)
      invariant |out| == k && forall i | 0 <= i < k :: Reports(out[i], text, map_, i)
      invariant forall i | 0 <= i < k :: map_[i].stamp.actor in actors
    {
      var r := map_[k];
      TotalPrefix(map_, k);
      TotalWhole(map_, k + 1);
      var start, end := pos, pos + r.len;
      var slice := text[start..end];
      LinesOfSlice(text, start, end);
      var newlinesBeforeLast := if slice == [] then 0 else Newlines(slice[..|slice|-1]);
      if r.stamp.actor !in actors {
        return UnknownActor(r.stamp.actor);
      }
      out := out + [BlameRange(line, line + newlinesBeforeLast, start, end, r.stamp)];
      line := line + Newlines(slice);
      pos := end;
    }
    r := Ranges(out);
  }

  lemma NoNewlines(text: seq<byte>)
    ensures LineOf(text, 0) == 1
  {
  }

  /** The reported byte ranges are exactly the authors of the content: byte by byte
      each is inside the range that names its author. */
  lemma RangesNameAuthors(text: seq<byte>, map_: BlameMap, ranges: seq<BlameRange>, i: nat, k: nat)
    requires Total(map_) == |text| && |ranges| == |map_| && i < |map_|
    requires forall j | 0 <= j < |map_| :: Reports(ranges[j], text, map_, j)
    requires ranges[i].byteStart <= k < ranges[i].byteEnd
    ensures |Expand(map_)| == |text| && k < |text| && Expand(map_)[k] == ranges[i].author
    ensures i + 1 < |ranges| ==> ranges[i+1].byteStart == ranges[i].byteEnd
    ensures ranges[0].byteStart == 0 && ranges[|ranges|-1].byteEnd == |text|
  {
    hide Total, Newlines, Expand;
    assert Reports(ranges[i], text, map_, i);
    ExpandAt(map_, i, k - ranges[i].byteStart);
    ExpandLength(map_);
    TotalPrefix(map_, i);
    if i + 1 < |map_| {
      assert Reports(ranges[i+1], text, map_, i + 1);
    }
    var last := |map_| - 1;
    assert Reports(ranges[0], text, map_, 0) && Reports(ranges[last], text, map_, last);
    TotalWhole(map_, 0);
    TotalPrefix(map_, last);
    TotalWhole(map_, last + 1);
  }
}
