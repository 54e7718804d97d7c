/** Deriving a new map from a line diff: unchanged lines keep their authors, a moved
    or re-indented line reclaims the author of the line it was. */
module DiffBlame {
  import opened Tilings
  import opened Authorship
  import opened Bytes
  import opened Lines
  import opened BlameMaps

  /** One line of a diff; `index` is that of the old line. */
  datatype LineChange = Equal(index: nat, value: Line) | Delete(index: nat, value: Line) | Insert(value: Line)

  /** The diff passes the old lines once, in order, from `from` on. */
  ghost predicate PassesOldLines(script: seq<LineChange>, from: nat, oldLines: seq<Line>) {
    if script == [] then from == |oldLines|
    else if script[0].Insert? then PassesOldLines(script[1..], from, oldLines)
    else
      && from < |oldLines| && script[0].index == from && script[0].value == oldLines[from]
      && PassesOldLines(script[1..], from + 1, oldLines)
  }

  /** The text the diff's kept and inserted lines spell. */
  ghost function NewText(script: seq<LineChange>): seq<byte> {
    if script == [] then []
    else NewText(script[..|script|-1]) + if script[|script|-1].Delete? then [] else script[|script|-1].value
  }

  // ----- which old line a new line takes its authors from

  datatype Donor = Kept(index: nat) | Reclaimed(index: nat) | Fresh

  /** The deleted lines with one normalised content, in order. */
  ghost function DeletedBy(script: seq<LineChange>, norm: Line -> seq<byte>, key: seq<byte>): seq<nat> {
    if script == [] then []
    else
      var last := script[|script|-1];
      DeletedBy(script[..|script|-1], norm, key) + if last.Delete? && norm(last.value) == key then [last.index] else []
  }

  /** How many lines with that content are inserted. */
  ghost function InsertsOf(script: seq<LineChange>, norm: Line -> seq<byte>, key: seq<byte>): nat {
    if script == [] then 0
    else
      var last := script[|script|-1];
      InsertsOf(script[..|script|-1], norm, key) + if last.Insert? && norm(last.value) == key then 1 else 0
  }

  /** The n-th inserted line of a content takes the n-th deleted line of it. */
  ghost function DonorAt(script: seq<LineChange>, norm: Line -> seq<byte>, p: nat): Donor
    requires p < |script|
  {
    match script[p]
    case Equal(i, _) => Kept(i)
    case Delete(_, _) => Fresh
    case Insert(value) =>
      var deleted, before := DeletedBy(script, norm, norm(value)), InsertsOf(script[..p], norm, norm(value));
      if before < |deleted| then Reclaimed(deleted[before]) else Fresh
  }

  /** An old byte range's authors, padded with the writer where the old map ends. */
  ghost function Carried(prior: seq<Author>, start: nat, len: nat, who: Author): (r: seq<Author>)
    ensures |r| == len
  {
    Clip(prior, start, len) + Repeat(who, len - |Clip(prior, start, len)|)
  }

  ghost function Offset(lines: seq<Line>, i: nat): nat
    requires i <= |lines|
  {
    |Joined(lines[..i])|
  }

  /** The authors of one new line. */
  ghost function LineAuthors(donor: Donor, value: Line, oldLines: seq<Line>, prior: seq<Author>,
                             who: Author): (r: seq<Author>)
    requires donor.Kept? ==> donor.index < |oldLines| && oldLines[donor.index] == value
    requires donor.Reclaimed? ==> donor.index < |oldLines|
    ensures |r| == |value|
  {
    match donor
    case Kept(i) => Carried(prior, Offset(oldLines, i), |value|, who)
    case Reclaimed(i) =>
      var start, len := Offset(oldLines, i), |oldLines[i]|;
      if len == |value| then Carried(prior, start, len, who)
      else Repeat(if Clip(prior, start, len) != [] then Clip(prior, start, len)[0] else who, |value|)
    case Fresh => Repeat(who, |value|)
  }

  // ----- the old lines of a diff

  lemma {:induction false} OldLineAt(script: seq<LineChange>, from: nat, oldLines: seq<Line>, p: nat)
    requires PassesOldLines(script, from, oldLines)
    requires p < |script| && !script[p].Insert?
    ensures from <= script[p].index < |oldLines| && script[p].value == oldLines[script[p].index]
  {
    if p == 0 {
    } else {
      assert script[p] == script[1..][p-1];
      OldLineAt(script[1..], if script[0].Insert? then from else from + 1, oldLines, p - 1);
    }
  }

  lemma {:induction false} OldLinesInOrder(script: seq<LineChange>, from: nat, oldLines: seq<Line>, p: nat, q: nat)
    requires PassesOldLines(script, from, oldLines)
    requires p < q < |script| && !script[p].Insert? && !script[q].Insert?
    ensures script[p].index < script[q].index
  {
    var next := if script[0].Insert? then from else from + 1;
    assert script[q] == script[1..][q-1];
    if p > 0 {
      assert script[p] == script[1..][p-1];
      OldLinesInOrder(script[1..], next, oldLines, p - 1, q - 1);
    } else {
      OldLineAt(script[1..], next, oldLines, q - 1);
    }
  }

  /** The deleted lines of a content are lines the diff deletes, of that content. */
  lemma {:induction false} DeletedPosition(script: seq<LineChange>, norm: Line -> seq<byte>, key: seq<byte>, r: nat)
    returns (p: nat)
    requires r < |DeletedBy(script, norm, key)|
    ensures p < |script| && script[p].Delete? && norm(script[p].value) == key
    ensures script[p].index == DeletedBy(script, norm, key)[r]
    ensures |DeletedBy(script[..p], norm, key)| == r
    decreases |script|
  {
    var init := script[..|script|-1];
    if r < |DeletedBy(init, norm, key)| {
      p := DeletedPosition(init, norm, key, r);
      assert init[..p] == script[..p];
    } else {
      p := |script| - 1;
    }
  }

  lemma {:induction false} CountsGrow(script: seq<LineChange>, norm: Line -> seq<byte>, key: seq<byte>, p: nat)
    requires p <= |script|
    ensures InsertsOf(script[..p], norm, key) <= InsertsOf(script, norm, key)
    ensures DeletedBy(script[..p], norm, key) <= DeletedBy(script, norm, key)
    decreases |script| - p
  {
    if p < |script| {
      CountsGrow(script, norm, key, p + 1);
      assert script[..p+1][..p] == script[..p];
    } else {
      assert script[..p] == script;
    }
  }

  // ----- properties of the donors

  /** Two different new lines never take the same old line. */
  lemma EachOldLineDonatesOnce(script: seq<LineChange>, norm: Line -> seq<byte>, oldLines: seq<Line>, p: nat, q: nat)
    requires PassesOldLines(script, 0, oldLines)
    requires p < q < |script|
    requires !DonorAt(script, norm, p).Fresh? && !DonorAt(script, norm, q).Fresh?
    ensures DonorAt(script, norm, p).index != DonorAt(script, norm, q).index
  {
    var a := DonorPosition(script, norm, p);
    var b := DonorPosition(script, norm, q);
    if a != b {
      OldLinesInOrder(script, 0, oldLines, if a < b then a else b, if a < b then b else a);
    } else {
      hide DeletedBy, InsertsOf;
      SameContentEarlier(script, norm, p, q);
    }
  }

  /** The place in the diff of the line a new line takes. */
  lemma DonorPosition(script: seq<LineChange>, norm: Line -> seq<byte>, p: nat) returns (a: nat)
    requires p < |script| && !DonorAt(script, norm, p).Fresh?
    ensures a < |script| && !script[a].Insert? && script[a].index == DonorAt(script, norm, p).index
    ensures script[p].Equal? ==> a == p
    ensures script[p].Insert? ==>
      && script[a].Delete? && norm(script[a].value) == norm(script[p].value)
      && |DeletedBy(script[..a], norm, norm(script[p].value))| == InsertsOf(script[..p], norm, norm(script[p].value))
  {
    if script[p].Equal? {
      a := p;
    } else {
      var key := norm(script[p].value);
      a := DeletedPosition(script, norm, key, InsertsOf(script[..p], norm, key));
    }
  }

  /** An insert is counted by every later insert of its content. */
  lemma SameContentEarlier(script: seq<LineChange>, norm: Line -> seq<byte>, p: nat, q: nat)
    requires p < q < |script|
    ensures script[p].Insert? && script[q].Insert? && norm(script[p].value) == norm(script[q].value) ==>
      InsertsOf(script[..p], norm, norm(script[p].value)) < InsertsOf(script[..q], norm, norm(script[p].value))
  {
    if script[p].Insert? {
      var key := norm(script[p].value);
      assert script[..p+1][..p] == script[..p];
      assert script[..q][..p+1] == script[..p+1];
      CountsGrow(script[..q], norm, key, p + 1);
    }
  }

  /** How many of the first `n` changes are inserts of a content that reclaim a line. */
  ghost function ReclaimsOf(script: seq<LineChange>, norm: Line -> seq<byte>, key: seq<byte>, n: nat): nat
    requires n <= |script|
  {
    if n == 0 then 0
    else
      var c := script[n-1];
      ReclaimsOf(script, norm, key, n - 1)
      + if c.Insert? && norm(c.value) == key && DonorAt(script, norm, n - 1).Reclaimed? then 1 else 0
  }

  /** For each content, exactly as many inserted lines reclaim a deleted one as there
      are pairs to be made. */
  lemma {:induction false} ReclaimsAreMaximal(script: seq<LineChange>, norm: Line -> seq<byte>, key: seq<byte>, n: nat)
    requires n <= |script|
    ensures ReclaimsOf(script, norm, key, n)
         == Min(InsertsOf(script[..n], norm, key), |DeletedBy(script, norm, key)|)
  {
    if n == 0 {
    } else {
      ReclaimsAreMaximal(script, norm, key, n - 1);
      assert script[..n][..n-1] == script[..n-1];
    }
  }

  // ----- the authors of the new text

  ghost predicate DonorFits(script: seq<LineChange>, norm: Line -> seq<byte>, oldLines: seq<Line>, p: nat)
    requires p < |script|
  {
    var donor := DonorAt(script, norm, p);
    && (donor.Kept? ==> donor.index < |oldLines| && oldLines[donor.index] == script[p].value)
    && (donor.Reclaimed? ==> donor.index < |oldLines|)
  }

  lemma DonorsFit(script: seq<LineChange>, norm: Line -> seq<byte>, oldLines: seq<Line>, p: nat)
    requires PassesOldLines(script, 0, oldLines) && p < |script|
    ensures DonorFits(script, norm, oldLines, p)
  {
    hide DeletedBy, InsertsOf;
    if !DonorAt(script, norm, p).Fresh? {
      var a := DonorPosition(script, norm, p);
      OldLineAt(script, 0, oldLines, a);
    }
  }

  /** The authors of the lines among the first `n` changes. */
  ghost function DiffAuthors(script: seq<LineChange>, norm: Line -> seq<byte>, oldLines: seq<Line>,
                             prior: seq<Author>, who: Author, n: nat): (r: seq<Author>)
    requires n <= |script| && PassesOldLines(script, 0, oldLines)
    ensures |r| == |NewText(script[..n])|
  {
    if n == 0 then []
    else
      DonorsFit(script, norm, oldLines, n - 1);
      assert script[..n][..n-1] == script[..n-1];
      DiffAuthors(script, norm, oldLines, prior, who, n - 1)
      + if script[n-1].Delete? then []
        else LineAuthors(DonorAt(script, norm, n - 1), script[n-1].value, oldLines, prior, who)
  }

  /** The new map covers the new text exactly; an unchanged line inside the old map
      keeps, byte for byte, the authors it had. */
  lemma UnchangedLinesKeepAuthors(script: seq<LineChange>, norm: Line -> seq<byte>, oldLines: seq<Line>,
                                  prior: seq<Author>, who: Author, p: nat)
    requires PassesOldLines(script, 0, oldLines) && p < |script| && script[p].Equal?
    requires |prior| >= |Joined(oldLines)|
    ensures script[p].index < |oldLines|
    ensures var at, start, len := |NewText(script[..p])|, Offset(oldLines, script[p].index), |script[p].value|;
      var all := DiffAuthors(script, norm, oldLines, prior, who, |script|);
      && |all| == |NewText(script)|
      && at + len <= |all| && start + len <= |prior|
      && all[at..at+len] == prior[start..start+len]
  {
    hide DonorAt, PassesOldLines, NewText, Joined, Carried;
    OldLineAt(script, 0, oldLines, p);
    DonorsFit(script, norm, oldLines, p);
    KeptDonor(script, norm, p);
    PrefixAuthors(script, norm, oldLines, prior, who, p + 1, |script|);
    assert script[..|script|] == script;
    LineInside(oldLines, script[p].index);
    CarriedInside(prior, Offset(oldLines, script[p].index), |script[p].value|, who);
    var all := DiffAuthors(script, norm, oldLines, prior, who, |script|);
    var upTo := DiffAuthors(script, norm, oldLines, prior, who, p + 1);
    var before := DiffAuthors(script, norm, oldLines, prior, who, p);
    assert upTo == before + LineAuthors(DonorAt(script, norm, p), script[p].value, oldLines, prior, who);
    assert all[..|upTo|] == upTo;
  }

  lemma KeptDonor(script: seq<LineChange>, norm: Line -> seq<byte>, p: nat)
    requires p < |script| && script[p].Equal?
    ensures DonorAt(script, norm, p) == Kept(script[p].index)
  {
  }

  lemma LineInside(lines: seq<Line>, i: nat)
    requires i < |lines|
    ensures Offset(lines, i) + |lines[i]| <= |Joined(lines)|
  {
    assert lines == lines[..i] + ([lines[i]] + lines[i+1..]);
    JoinedAppend(lines[..i], [lines[i]] + lines[i+1..]);
    JoinStep(lines[i], lines[i+1..]);
  }

  lemma CarriedInside(prior: seq<Author>, start: nat, len: nat, who: Author)
    requires start + len <= |prior|
    ensures Carried(prior, start, len, who) == prior[start..start+len]
  {
  }

  lemma {:induction false} PrefixAuthors(script: seq<LineChange>, norm: Line -> seq<byte>, oldLines: seq<Line>,
                                         prior: seq<Author>, who: Author, n: nat, m: nat)
    requires n <= m <= |script| && PassesOldLines(script, 0, oldLines)
    ensures DiffAuthors(script, norm, oldLines, prior, who, n) <= DiffAuthors(script, norm, oldLines, prior, who, m)
    decreases m
  {
    hide DonorAt, PassesOldLines, NewText, LineAuthors;
    if n < m {
      PrefixAuthors(script, norm, oldLines, prior, who, n, m - 1);
    }
  }

  /** The authors of one new line are whom it should be credited to: byte for byte those of
      a kept or equally long reclaimed line; throughout, the first author of a reclaimed
      line of another length; the writer when it is new, and where the old map ends. */
  ghost predicate RightlyCredited(line: seq<Author>, donor: Donor, oldLines: seq<Line>, prior: seq<Author>,
                                  who: Author) {
    if donor.Fresh? then forall k | 0 <= k < |line| :: line[k] == who
    else
      && donor.index < |oldLines|
      && var start, size := |Joined(oldLines[..donor.index])|, |oldLines[donor.index]|;
      if size == |line| then
        && (forall k | 0 <= k < |line| && start + k < |prior| :: line[k] == prior[start + k])
        && (forall k | 0 <= k < |line| && start + k >= |prior| :: line[k] == who)
      else if 0 < size && start < |prior| then
        forall k | 0 <= k < |line| :: line[k] == prior[start]
      else
        forall k | 0 <= k < |line| :: line[k] == who
  }

  /** The line of change `p`, where it stands in the new text, is credited so. */
  ghost predicate CreditsLine(script: seq<LineChange>, norm: Line -> seq<byte>, oldLines: seq<Line>,
                              prior: seq<Author>, who: Author, p: nat, all: seq<Author>)
    requires p < |script| && !script[p].Delete?
  {
    var at, len := |NewText(script[..p])|, |script[p].value|;
    at + len <= |all| && RightlyCredited(all[at..at + len], DonorAt(script, norm, p), oldLines, prior, who)
  }

  /** Every line of the new text is credited so. */
  lemma LineCredits(script: seq<LineChange>, norm: Line -> seq<byte>, oldLines: seq<Line>, prior: seq<Author>,
                    who: Author, p: nat)
    requires PassesOldLines(script, 0, oldLines) && p < |script| && !script[p].Delete?
    ensures var all := DiffAuthors(script, norm, oldLines, prior, who, |script|);
      CreditsLine(script, norm, oldLines, prior, who, p, all)
  {
    hide DonorAt, DonorFits, PassesOldLines, NewText, Joined, LineAuthors, RightlyCredited, DiffAuthors;
    DonorsFit(script, norm, oldLines, p);
    GivesALine(script, norm, oldLines, p);
    DiffStep(script, norm, oldLines, prior, who, p);
    PrefixAuthors(script, norm, oldLines, prior, who, p + 1, |script|);
    var all := DiffAuthors(script, norm, oldLines, prior, who, |script|);
    var upTo := DiffAuthors(script, norm, oldLines, prior, who, p + 1);
    var before := DiffAuthors(script, norm, oldLines, prior, who, p);
    var line := LineAuthors(DonorAt(script, norm, p), script[p].value, oldLines, prior, who);
    LineGiven(DonorAt(script, norm, p), script[p].value, oldLines, prior, who);
    MiddleOf(all, upTo, before, line);
  }

  lemma GivesALine(script: seq<LineChange>, norm: Line -> seq<byte>, oldLines: seq<Line>, p: nat)
    requires p < |script| && DonorFits(script, norm, oldLines, p)
    ensures var donor := DonorAt(script, norm, p);
      && (donor.Kept? ==> donor.index < |oldLines| && oldLines[donor.index] == script[p].value)
      && (donor.Reclaimed? ==> donor.index < |oldLines|)
  {
  }

  lemma MiddleOf<T>(all: seq<T>, upTo: seq<T>, before: seq<T>, line: seq<T>)
    requires upTo <= all && upTo == before + line
    ensures |before| + |line| <= |all| && all[|before|..|before| + |line|] == line
  {
    assert all[..|upTo|] == upTo;
  }

  lemma LineGiven(donor: Donor, value: Line, oldLines: seq<Line>, prior: seq<Author>, who: Author)
    requires donor.Kept? ==> donor.index < |oldLines| && oldLines[donor.index] == value
    requires donor.Reclaimed? ==> donor.index < |oldLines|
    ensures RightlyCredited(LineAuthors(donor, value, oldLines, prior, who), donor, oldLines, prior, who)
  {
    hide Joined;
  }

  /** Of the inserts with one content the first ones reclaim, and the deleted lines with that
      content go to them in order, the first first. */
  lemma ReclaimsInOrder(script: seq<LineChange>, norm: Line -> seq<byte>, oldLines: seq<Line>, p: nat, q: nat)
    requires PassesOldLines(script, 0, oldLines) && p < q < |script|
    requires script[p].Insert? && script[q].Insert? && norm(script[p].value) == norm(script[q].value)
    requires DonorAt(script, norm, q).Reclaimed?
    ensures DonorAt(script, norm, p).Reclaimed? && DonorAt(script, norm, p).index < DonorAt(script, norm, q).index
  {
    hide PassesOldLines;
    SameContentEarlier(script, norm, p, q);
    var a := DonorPosition(script, norm, p);
    var b := DonorPosition(script, norm, q);
    var key := norm(script[p].value);
    if b < a {
      assert script[..a][..b] == script[..b];
      CountsGrow(script[..a], norm, key, b);
    }
    OldLinesInOrder(script, 0, oldLines, a, b);
  }

  // ----- the algorithm

  ghost function Queue(moved: map<seq<byte>, seq<nat>>, key: seq<byte>): seq<nat> {
    if key in moved then moved[key] else []
  }

  ghost function Rest(deleted: seq<nat>, used: nat): seq<nat> {
    if used <= |deleted| then deleted[used..] else []
  }

  /** Queue the deleted lines by content. */
  method DeletedQueues(script: seq<LineChange>, norm: Line -> seq<byte>) returns (moved: map<seq<byte>, seq<nat>>)
    ensures forall key :: Queue(moved, key) == DeletedBy(script, norm, key)
  {
    moved := map[];
    for k := 0 to |script|
      invariant forall key :: Queue(moved, key) == DeletedBy(script[..k], norm, key)
    {
      assert script[..k+1][..k] == script[..k];
      var c := script[k];
      ghost var before := moved;
      if c.Delete? {
        var key := norm(c.value);
        moved := moved[key := (if key in moved then moved[key] else []) + [c.index]];
      }
      forall key
        ensures Queue(moved, key) == DeletedBy(script[..k+1], norm, key)
      {
        assert Queue(before, key) == DeletedBy(script[..k], norm, key);
      }
    }
    assert script[..|script|] == script;
  }

  method LineOffsets(lines: seq<Line>) returns (offsets: seq<nat>)
    ensures |offsets| == |lines|
    ensures forall i | 0 <= i < |lines| :: offsets[i] == Offset(lines, i)
  {
    offsets := [];
    var acc: nat := 0;
    for k := 0 to |lines|
      invariant |offsets| == k && acc == Offset(lines, k)
      invariant forall i | 0 <= i < k :: offsets[i] == Offset(lines, i)
    {
      assert lines[..k+1] == lines[..k] + [lines[k]];
      JoinedAppend(lines[..k], [lines[k]]);
      JoinStep(lines[k], []);
      assert Joined([lines[k]] + []) == Joined([lines[k]]);
      offsets := offsets + [acc];
      acc := acc + |lines[k]|;
    }
  }

  /** Carry an old byte range's authors into as many new bytes. */
  method Carry(oldMap: BlameMap, start: nat, len: nat, who: Author) returns (spans: seq<Run<Author>>)
    ensures Expand(spans) == Carried(Expand(oldMap), start, len, who)
  {
    hide Expand, Total, Repeat, Clip;
    spans := Slice(oldMap, start, len);
    ExpandLength(spans);
    ClipLength(Expand(oldMap), start, len);
    var covered := Total(spans);
    if covered < len {
      ExpandAppend(spans, [Run(who, len - covered)]);
      ExpandOne(Run(who, len - covered));
      spans := spans + [Run(who, len - covered)];
    } else {
      RepeatStep(who, 0);
      assert Expand(spans) + [] == Expand(spans);
    }
  }

  lemma ClipLength<S>(s: seq<S>, start: nat, len: nat)
    ensures |Clip(s, start, len)| <= len
  {
  }

  /** The spans of one new line, given the line it takes. */
  method LineSpans(donor: Donor, value: Line, oldLines: seq<Line>, offsets: seq<nat>, oldMap: BlameMap, who: Author)
    returns (spans: seq<Run<Author>>)
    requires |offsets| == |oldLines| && forall i | 0 <= i < |oldLines| :: offsets[i] == Offset(oldLines, i)
    requires donor.Kept? ==> donor.index < |oldLines| && oldLines[donor.index] == value
    requires donor.Reclaimed? ==> donor.index < |oldLines|
    ensures Expand(spans) == LineAuthors(donor, value, oldLines, Expand(oldMap), who)
  {
    hide Expand, Carried, Offset;
    match donor
    case Kept(i) =>
      spans := Carry(oldMap, offsets[i], |oldLines[i]|, who);
    case Reclaimed(i) =>
      if |oldLines[i]| == |value| {
        spans := Carry(oldMap, offsets[i], |oldLines[i]|, who);
      } else {
        var covering := Slice(oldMap, offsets[i], |oldLines[i]|);
        FirstStamp(covering);
        var author := if covering != [] then covering[0].stamp else who;
        ExpandOne(Run(author, |value|));
        spans := [Run(author, |value|)];
      }
    case Fresh =>
      ExpandOne(Run(who, |value|));
      spans := [Run(who, |value|)];
  }

  lemma FirstStamp(spans: seq<Run<Author>>)
    requires forall i | 0 <= i < |spans| :: spans[i].len > 0
    ensures Expand(spans) == [] <==> spans == []
    ensures spans != [] ==> Expand(spans)[0] == spans[0].stamp
  {
  }

  /** Derive the authorship of the diff's new text. */
  method DiffSpans(oldLines: seq<Line>, script: seq<LineChange>, norm: Line -> seq<byte>, oldMap: BlameMap, who: Author)
    returns (newMap: BlameMap)
    requires PassesOldLines(script, 0, oldLines)
    ensures Expand(newMap) == DiffAuthors(script, norm, oldLines, Expand(oldMap), who, |script|)
    ensures forall p | 0 <= p < |script| && !script[p].Delete? ::
      CreditsLine(script, norm, oldLines, Expand(oldMap), who, p, Expand(newMap))
    ensures Canonical(newMap)
    ensures Total(newMap) == |NewText(script)|
  {
    hide Expand, PassesOldLines, Offset, LineAuthors, NewText, Canonical, Coalesce, DiffAuthors, Queued;
    var offsets := LineOffsets(oldLines);
    var moved := DeletedQueues(script, norm);
    var spans: seq<Run<Author>> := [];
    ExpandEmpty<Author>();
    StartOfDiff(script, norm, oldLines, Expand(oldMap), who);
    AllQueued(moved, script, norm);
    hide DonorAt, Queue;
    for k := 0 to |script|
      invariant Expand(spans) == DiffAuthors(script, norm, oldLines, Expand(oldMap), who, k)
      invariant Queued(moved, script, norm, k)
    {
      var c := script[k];
      DonorsFit(script, norm, oldLines, k);
      DiffStep(script, norm, oldLines, Expand(oldMap), who, k);
      var line: seq<Run<Author>> := [];
      if c.Insert? {
        var key, donor := norm(c.value), Fresh;
        TakeQueued(moved, script, norm, k);
        if key in moved && moved[key] != [] {
          donor := Reclaimed(moved[key][0]);
          moved := moved[key := moved[key][1..]];
        }
        line := LineSpans(donor, c.value, oldLines, offsets, oldMap, who);
      } else {
        StayQueued(moved, script, norm, k);
        if c.Equal? {
          line := LineSpans(Kept(c.index), c.value, oldLines, offsets, oldMap, who);
        }
      }
      ExpandAppend(spans, line);
      spans := spans + line;
    }
    newMap := FromSpans(spans);
    ExpandLength(newMap);
    assert script[..|script|] == script;
    hide CreditsLine;
    forall p | 0 <= p < |script| && !script[p].Delete?
      ensures CreditsLine(script, norm, oldLines, Expand(oldMap), who, p, Expand(newMap))
    {
      LineCredits(script, norm, oldLines, Expand(oldMap), who, p);
    }
  }

  lemma StartOfDiff(script: seq<LineChange>, norm: Line -> seq<byte>, oldLines: seq<Line>, prior: seq<Author>,
                    who: Author)
    requires PassesOldLines(script, 0, oldLines)
    ensures DiffAuthors(script, norm, oldLines, prior, who, 0) == []
  {
  }

  /** The queues hold what the inserts before the `k`th change have not reclaimed. */
  ghost predicate Queued(moved: map<seq<byte>, seq<nat>>, script: seq<LineChange>, norm: Line -> seq<byte>, k: nat)
    requires k <= |script|
  {
    forall key :: Queue(moved, key) == Rest(DeletedBy(script, norm, key), InsertsOf(script[..k], norm, key))
  }

  lemma AllQueued(moved: map<seq<byte>, seq<nat>>, script: seq<LineChange>, norm: Line -> seq<byte>)
    requires forall key :: Queue(moved, key) == DeletedBy(script, norm, key)
    ensures Queued(moved, script, norm, 0)
  {
    hide Queue, DeletedBy, InsertsOf;
    forall key
      ensures Queue(moved, key) == Rest(DeletedBy(script, norm, key), InsertsOf(script[..0], norm, key))
    {
      InsertsBefore(script, norm, key);
    }
  }

  lemma StayQueued(moved: map<seq<byte>, seq<nat>>, script: seq<LineChange>, norm: Line -> seq<byte>, k: nat)
    requires k < |script| && !script[k].Insert? && Queued(moved, script, norm, k)
    ensures Queued(moved, script, norm, k + 1)
    ensures DonorAt(script, norm, k) == if script[k].Equal? then Kept(script[k].index) else Fresh
  {
    hide Queue, Rest, DeletedBy, InsertsOf;
    forall key
      ensures Queue(moved, key) == Rest(DeletedBy(script, norm, key), InsertsOf(script[..k+1], norm, key))
    {
      InsertsStep(script, norm, key, k);
    }
  }

  /** An insert takes the head of its content's queue. */
  lemma TakeQueued(moved: map<seq<byte>, seq<nat>>, script: seq<LineChange>, norm: Line -> seq<byte>, k: nat)
    requires k < |script| && script[k].Insert? && Queued(moved, script, norm, k)
    ensures var key := norm(script[k].value);
      if key in moved && moved[key] != []
      then DonorAt(script, norm, k) == Reclaimed(moved[key][0])
           && Queued(moved[key := moved[key][1..]], script, norm, k + 1)
      else DonorAt(script, norm, k) == Fresh && Queued(moved, script, norm, k + 1)
  {
    hide DeletedBy, InsertsOf;
    var own := norm(script[k].value);
    var after := if own in moved && moved[own] != [] then moved[own := moved[own][1..]] else moved;
    assert Queue(moved, own) == Rest(DeletedBy(script, norm, own), InsertsOf(script[..k], norm, own));
    forall key
      ensures Queue(after, key) == Rest(DeletedBy(script, norm, key), InsertsOf(script[..k+1], norm, key))
    {
      InsertsStep(script, norm, key, k);
      assert Queue(moved, key) == Rest(DeletedBy(script, norm, key), InsertsOf(script[..k], norm, key));
    }
  }

  lemma InsertsBefore(script: seq<LineChange>, norm: Line -> seq<byte>, key: seq<byte>)
    ensures InsertsOf(script[..0], norm, key) == 0
  {
  }

  lemma InsertsStep(script: seq<LineChange>, norm: Line -> seq<byte>, key: seq<byte>, k: nat)
    requires k < |script|
    ensures InsertsOf(script[..k+1], norm, key)
         == InsertsOf(script[..k], norm, key) + if script[k].Insert? && norm(script[k].value) == key then 1 else 0
  {
    assert script[..k+1][..k] == script[..k];
  }

  lemma DiffStep(script: seq<LineChange>, norm: Line -> seq<byte>, oldLines: seq<Line>, prior: seq<Author>,
                 who: Author, k: nat)
    requires k < |script| && PassesOldLines(script, 0, oldLines) && DonorFits(script, norm, oldLines, k)
    ensures DiffAuthors(script, norm, oldLines, prior, who, k + 1)
         == DiffAuthors(script, norm, oldLines, prior, who, k)
            + if script[k].Delete? then []
              else LineAuthors(DonorAt(script, norm, k), script[k].value, oldLines, prior, who)
  {
    hide DonorAt, PassesOldLines, NewText, LineAuthors;
  }
}
