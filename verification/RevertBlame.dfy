/** Reverting a session: every line it solely wrote is dropped from a file, every
    other line is kept with its authors. */
module RevertBlame {
  import opened Tilings
  import opened Authorship
  import opened Bytes
  import opened Lines
  import opened BlameMaps

  /** A line is reverted when it has authors and all are the target. */
  ghost predicate Solely(authors: seq<Author>, target: Author) {
    authors != [] && forall i | 0 <= i < |authors| :: authors[i] == target
  }

  ghost function KeptLines(lines: seq<Line>, authors: seq<Author>, target: Author): seq<Line>
    requires |authors| == |Joined(lines)|
  {
    if lines == [] then []
    else
      var n := |lines[0]|;
      (if Solely(authors[..n], target) then [] else [lines[0]]) + KeptLines(lines[1..], authors[n..], target)
  }

  ghost function KeptAuthors(lines: seq<Line>, authors: seq<Author>, target: Author): seq<Author>
    requires |authors| == |Joined(lines)|
  {
    if lines == [] then []
    else
      var n := |lines[0]|;
      (if Solely(authors[..n], target) then [] else authors[..n]) + KeptAuthors(lines[1..], authors[n..], target)
  }

  /** Some line is the target's alone. */
  ghost predicate AnySolely(lines: seq<Line>, authors: seq<Author>, target: Author)
    requires |authors| == |Joined(lines)|
  {
    lines != [] &&
    (Solely(authors[..|lines[0]|], target) || AnySolely(lines[1..], authors[|lines[0]|..], target))
  }

  // ----- what is kept

  lemma {:induction false} KeptCovers(lines: seq<Line>, authors: seq<Author>, target: Author)
    requires |authors| == |Joined(lines)|
    ensures |KeptAuthors(lines, authors, target)| == |Joined(KeptLines(lines, authors, target))|
  {
    if lines == [] {
    } else {
      hide Solely;
      var n := |lines[0]|;
      KeptCovers(lines[1..], authors[n..], target);
      JoinStep(lines[0], KeptLines(lines[1..], authors[n..], target));
      NothingKept(KeptLines(lines[1..], authors[n..], target));
    }
  }

  lemma NothingKept<T>(s: seq<T>)
    ensures [] + s == s
  {
  }

  /** The positions kept, counted from `at`. */
  ghost function KeptPositions(lines: seq<Line>, authors: seq<Author>, target: Author, at: nat): seq<nat>
    requires |authors| == |Joined(lines)|
  {
    if lines == [] then []
    else
      var n := |lines[0]|;
      (if Solely(authors[..n], target) then [] else From(at, n))
      + KeptPositions(lines[1..], authors[n..], target, at + n)
  }

  ghost function From(at: nat, n: nat): (r: seq<nat>)
    ensures |r| == n
    ensures forall i | 0 <= i < n :: r[i] == at + i
    decreases n
  {
    if n == 0 then [] else [at] + From(at + 1, n - 1)
  }

  lemma KeptStep(lines: seq<Line>, authors: seq<Author>, target: Author)
    requires lines != [] && |authors| == |Joined(lines)|
    ensures var n, rest := |lines[0]|, lines[1..];
      && n <= |authors| && |authors[n..]| == |Joined(rest)|
      && (AnySolely(lines, authors, target) <==> Solely(authors[..n], target) || AnySolely(rest, authors[n..], target))
      && Joined(KeptLines(lines, authors, target))
         == (if Solely(authors[..n], target) then [] else lines[0]) + Joined(KeptLines(rest, authors[n..], target))
      && KeptAuthors(lines, authors, target)
         == (if Solely(authors[..n], target) then [] else authors[..n]) + KeptAuthors(rest, authors[n..], target)
  {
    hide Solely;
    var n, rest := |lines[0]|, lines[1..];
    JoinStep(lines[0], KeptLines(rest, authors[n..], target));
    NothingKept(KeptLines(rest, authors[n..], target));
    NothingKept(Joined(KeptLines(rest, authors[n..], target)));
  }

  lemma PositionsStep(lines: seq<Line>, authors: seq<Author>, target: Author, at: nat)
    requires lines != [] && |authors| == |Joined(lines)|
    ensures var n, rest := |lines[0]|, lines[1..];
      && n <= |authors| && |authors[n..]| == |Joined(rest)|
      && KeptPositions(lines, authors, target, at)
         == (if Solely(authors[..n], target) then [] else From(at, n))
            + KeptPositions(rest, authors[n..], target, at + n)
  {
    hide Solely, From;
  }

  lemma NoPositions(lines: seq<Line>, authors: seq<Author>, target: Author, at: nat)
    requires lines == [] && |authors| == |Joined(lines)|
    ensures KeptPositions(lines, authors, target, at) == []
  {
  }

  lemma {:induction false} PositionsCover(lines: seq<Line>, authors: seq<Author>, target: Author, at: nat)
    requires |authors| == |Joined(lines)|
    ensures |KeptPositions(lines, authors, target, at)| == |KeptAuthors(lines, authors, target)|
         == |Joined(KeptLines(lines, authors, target))|
    decreases |lines|
  {
    KeptCovers(lines, authors, target);
    if lines == [] {
    } else {
      hide Solely, From;
      PositionsCover(lines[1..], authors[|lines[0]|..], target, at + |lines[0]|);
    }
  }

  /** Every kept byte is a byte of the file under the author it had. */
  lemma {:induction false} KeptByte(lines: seq<Line>, authors: seq<Author>, target: Author, at: nat, k: nat)
    requires |authors| == |Joined(lines)|
    requires k < |KeptAuthors(lines, authors, target)|
    ensures |KeptPositions(lines, authors, target, at)| == |KeptAuthors(lines, authors, target)|
         == |Joined(KeptLines(lines, authors, target))|
    ensures var j := KeptPositions(lines, authors, target, at)[k];
      && at <= j < at + |authors|
      && KeptAuthors(lines, authors, target)[k] == authors[j - at]
      && Joined(KeptLines(lines, authors, target))[k] == Joined(lines)[j - at]
    decreases |lines|
  {
    hide Solely, From, KeptPositions, KeptAuthors, KeptLines, Joined;
    PositionsCover(lines, authors, target, at);
    if lines == [] {
      NoPositions(lines, authors, target, at);
    } else {
      KeptStep(lines, authors, target);
      PositionsStep(lines, authors, target, at);
      var n := |lines[0]|;
      var rest, more := lines[1..], authors[n..];
      JoinStep(lines[0], rest);
      assert lines == [lines[0]] + rest;
      if Solely(authors[..n], target) {
        KeptByte(rest, more, target, at + n, k);
      } else if k >= n {
        KeptByte(rest, more, target, at + n, k - n);
      }
    }
  }

  /** In order. */
  lemma {:induction false} KeptInOrder(lines: seq<Line>, authors: seq<Author>, target: Author, at: nat, k: nat, m: nat)
    requires |authors| == |Joined(lines)|
    requires k < m < |KeptPositions(lines, authors, target, at)|
    ensures KeptPositions(lines, authors, target, at)[k] < KeptPositions(lines, authors, target, at)[m]
    decreases |lines|
  {
    hide Solely, From, KeptPositions, KeptAuthors, KeptLines, Joined;
    if lines == [] {
      NoPositions(lines, authors, target, at);
    } else {
      PositionsStep(lines, authors, target, at);
      var n := |lines[0]|;
      var rest, more := lines[1..], authors[n..];
      if Solely(authors[..n], target) {
        KeptInOrder(rest, more, target, at + n, k, m);
      } else if k >= n {
        KeptInOrder(rest, more, target, at + n, k - n, m - n);
      } else if m >= n {
        PositionsCover(rest, more, target, at + n);
        KeptByte(rest, more, target, at + n, m - n);
      }
    }
  }

  /** Nobody else's byte is dropped. */
  lemma {:induction false} OthersAreKept(lines: seq<Line>, authors: seq<Author>, target: Author, at: nat, j: nat)
    returns (k: nat)
    requires |authors| == |Joined(lines)|
    requires j < |authors| && authors[j] != target
    ensures k < |KeptPositions(lines, authors, target, at)| && KeptPositions(lines, authors, target, at)[k] == at + j
    decreases |lines|
  {
    hide From, KeptPositions;
    var n := |lines[0]|;
    var rest, more := lines[1..], authors[n..];
    PositionsStep(lines, authors, target, at);
    if j < n {
      assert authors[..n][j] != target;
      k := j;
    } else {
      k := OthersAreKept(rest, more, target, at + n, j - n);
      if !Solely(authors[..n], target) {
        k := k + n;
      }
    }
  }

  // ----- a second revert changes nothing

  /** Dropping lines leaves lines a text can split into. */
  lemma {:induction false} KeptLinesWellSplit(lines: seq<Line>, authors: seq<Author>, target: Author)
    requires |authors| == |Joined(lines)| && WellSplit(lines)
    ensures WellSplit(KeptLines(lines, authors, target))
    decreases |lines|
  {
    if lines == [] {
    } else {
      hide Solely, Joined;
      HeadOfJoined(lines);
      var n := |lines[0]|;
      var rest := KeptLines(lines[1..], authors[n..], target);
      WellSplitTail(lines);
      KeptLinesWellSplit(lines[1..], authors[n..], target);
      NothingKept(rest);
      if lines[1..] == [] {
        assert rest == [];
      }
      assert IsLine(lines[0]);
      WellSplitCons(lines[0], rest);
    }
  }

  lemma HeadOfJoined(lines: seq<Line>)
    requires lines != []
    ensures |Joined(lines)| == |lines[0]| + |Joined(lines[1..])|
  {
  }

  lemma {:induction false} NothingLeftToRevert(lines: seq<Line>, authors: seq<Author>, target: Author)
    requires |authors| == |Joined(lines)|
    ensures |KeptAuthors(lines, authors, target)| == |Joined(KeptLines(lines, authors, target))|
    ensures !AnySolely(KeptLines(lines, authors, target), KeptAuthors(lines, authors, target), target)
    decreases |lines|
  {
    KeptCovers(lines, authors, target);
    if lines == [] {
    } else {
      var n := |lines[0]|;
      var rest, more := lines[1..], authors[n..];
      NothingLeftToRevert(rest, more, target);
      var kept, keptAuthors := KeptLines(rest, more, target), KeptAuthors(rest, more, target);
      if Solely(authors[..n], target) {
        NothingKept(kept);
        NothingKept(keptAuthors);
      } else {
        var all := authors[..n] + keptAuthors;
        assert ([lines[0]] + kept)[1..] == kept;
        assert all[..n] == authors[..n] && all[n..] == keptAuthors;
      }
    }
  }

  /** The kept text splits back into the kept lines, none of them the target's. */
  lemma RevertTwice(text: seq<byte>, authors: seq<Author>, target: Author)
    requires |authors| == |text|
    ensures Joined(SplitLines(text)) == text
    ensures var kept := KeptLines(SplitLines(text), authors, target);
      var keptAuthors := KeptAuthors(SplitLines(text), authors, target);
      && SplitLines(Joined(kept)) == kept
      && |keptAuthors| == |Joined(kept)|
      && !AnySolely(SplitLines(Joined(kept)), keptAuthors, target)
  {
    hide KeptLines, KeptAuthors, Joined, WellSplit, SplitLines;
    SplitJoins(text);
    KeptLinesWellSplit(SplitLines(text), authors, target);
    JoinSplits(KeptLines(SplitLines(text), authors, target));
    NothingLeftToRevert(SplitLines(text), authors, target);
  }

  // ----- the algorithm

  datatype Outcome = Unchanged | Reverted(body: seq<byte>, map_: BlameMap)

  /** Revert one file's content. Binary content, and a map that does not cover the
      content, are left alone. */
  method RevertContent(text: seq<byte>, map_: BlameMap, target: Author, isText: seq<byte> -> bool)
    returns (r: Outcome)
    ensures Joined(SplitLines(text)) == text
    ensures Total(map_) == |Expand(map_)|
    ensures r.Reverted? <==>
      isText(text) && Total(map_) == |text| && AnySolely(SplitLines(text), Expand(map_), target)
    ensures r.Reverted? ==>
      && r.body == Joined(KeptLines(SplitLines(text), Expand(map_), target))
      && Expand(r.map_) == KeptAuthors(SplitLines(text), Expand(map_), target)
      && Canonical(r.map_) && Total(r.map_) == |r.body|
  {
    hide Expand, Total, SplitLines, Joined, KeptLines, KeptAuthors, AnySolely, Canonical, Coalesce, Solely, Clip;
    SplitJoins(text);
    ExpandLength(map_);
    if !isText(text) || Total(map_) != |text| {
      return Unchanged;
    }
    var lines := SplitLines(text);
    var keptBody: seq<byte>, keptSpans: seq<Run<Author>> := [], [];
    var removed, off: nat := false, 0;
    ghost var authors := Expand(map_);
    ghost var goalBody, goalAuthors := Joined(KeptLines(lines, authors, target)), KeptAuthors(lines, authors, target);
    ghost var goalRemoved := AnySolely(lines, authors, target);
    ExpandEmpty<Author>();
    assert lines[0..] == lines && authors[0..] == authors;
    assert [] + goalBody == goalBody && [] + goalAuthors == goalAuthors;
    for k := 0 to |lines|
      invariant off <= |authors| && |authors[off..]| == |Joined(lines[k..])|
      invariant goalBody == keptBody + Joined(KeptLines(lines[k..], authors[off..], target))
      invariant goalAuthors == Expand(keptSpans) + KeptAuthors(lines[k..], authors[off..], target)
      invariant goalRemoved <==> removed || AnySolely(lines[k..], authors[off..], target)
    {
      var line := lines[k];
      ghost var rest, here := lines[k+1..], authors[off..];
      assert lines[k..][0] == line && lines[k..][1..] == rest;
      HeadOfJoined(lines[k..]);
      KeptStep(lines[k..], here, target);
      assert here[|line|..] == authors[off + |line|..];
      var spans := Slice(map_, off, |line|);
      ClipInside(authors, off, |line|);
      assert here[..|line|] == authors[off..off + |line|];
      SolelyBySpans(spans, target);
      if spans != [] && forall i | 0 <= i < |spans| :: spans[i].stamp == target {
        removed := true;
      } else {
        Concat3(keptBody, line, Joined(KeptLines(rest, here[|line|..], target)));
        Concat3(Expand(keptSpans), Expand(spans), KeptAuthors(rest, here[|line|..], target));
        ExpandAppend(keptSpans, spans);
        keptBody := keptBody + line;
        keptSpans := keptSpans + spans;
      }
      off := off + |line|;
    }
    assert lines[|lines|..] == [];
    KeptNothing(lines[|lines|..], authors[off..], target);
    assert keptBody + [] == keptBody && Expand(keptSpans) + [] == Expand(keptSpans);
    if !removed {
      return Unchanged;
    }
    var newMap := FromSpans(keptSpans);
    ExpandLength(newMap);
    KeptCovers(lines, authors, target);
    r := Reverted(keptBody, newMap);
  }

  lemma KeptNothing(lines: seq<Line>, authors: seq<Author>, target: Author)
    requires lines == [] && |authors| == |Joined(lines)|
    ensures KeptLines(lines, authors, target) == [] && Joined(KeptLines(lines, authors, target)) == []
    ensures KeptAuthors(lines, authors, target) == [] && !AnySolely(lines, authors, target)
  {
  }

  lemma ClipInside<S>(s: seq<S>, start: nat, len: nat)
    requires start + len <= |s|
    ensures Clip(s, start, len) == s[start..start+len]
  {
  }

  /** Asking the clipped spans is asking every byte. */
  lemma {:induction false} SolelyBySpans(spans: seq<Run<Author>>, target: Author)
    requires forall i | 0 <= i < |spans| :: spans[i].len > 0
    ensures Solely(Expand(spans), target) <==> spans != [] && forall i | 0 <= i < |spans| :: spans[i].stamp == target
  {
    if spans == [] {
    } else {
      SolelyBySpans(spans[1..], target);
      assert Expand(spans) == Repeat(spans[0].stamp, spans[0].len) + Expand(spans[1..]);
      if Solely(Expand(spans), target) {
        assert Expand(spans)[0] == spans[0].stamp == target;
        forall k | 0 <= k < |Expand(spans[1..])|
          ensures Expand(spans[1..])[k] == target
        {
          assert Expand(spans[1..])[k] == Expand(spans)[spans[0].len + k];
        }
        if spans[1..] != [] {
          assert Expand(spans[1..])[0] == spans[1].stamp;
        }
        forall i | 0 <= i < |spans|
          ensures spans[i].stamp == target
        {
          if i > 0 {
            assert spans[i] == spans[1..][i-1];
          }
        }
      }
      if forall i | 0 <= i < |spans| :: spans[i].stamp == target {
        assert Expand(spans)[0] == target;
        forall i | 0 <= i < |spans[1..]|
          ensures spans[1..][i].stamp == target
        {
          assert spans[1..][i] == spans[i+1];
        }
        if spans[1..] == [] {
          assert Expand(spans[1..]) == [];
        }
      }
    }
  }

  /** Reverting what a revert left changes nothing more. */
  method RevertAgain(text: seq<byte>, map_: BlameMap, target: Author, isText: seq<byte> -> bool)
    returns (first: Outcome, second: Outcome)
    ensures second.Unchanged?
    ensures first.Reverted? ==> |first.body| < |text|
  {
    hide Expand, Total, SplitLines, Joined, KeptLines, KeptAuthors, AnySolely, Canonical;
    first := RevertContent(text, map_, target, isText);
    if first.Unchanged? {
      second := RevertContent(text, map_, target, isText);
    } else {
      RevertTwice(text, Expand(map_), target);
      DropsSomething(SplitLines(text), Expand(map_), target);
      second := RevertContent(first.body, first.map_, target, isText);
    }
  }

  lemma {:induction false} DropsSomething(lines: seq<Line>, authors: seq<Author>, target: Author)
    requires |authors| == |Joined(lines)|
    ensures |Joined(KeptLines(lines, authors, target))| <= |Joined(lines)|
    ensures AnySolely(lines, authors, target) ==> |Joined(KeptLines(lines, authors, target))| < |Joined(lines)|
  {
    if lines == [] {
    } else {
      var n := |lines[0]|;
      DropsSomething(lines[1..], authors[n..], target);
      JoinStep(lines[0], KeptLines(lines[1..], authors[n..], target));
      NothingKept(KeptLines(lines[1..], authors[n..], target));
    }
  }
}
