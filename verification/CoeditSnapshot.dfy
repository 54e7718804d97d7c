/** The passage between a live document and its durable form: flat text plus
    per-span authorship. */
module CoeditSnapshot {
  import opened Tilings
  import opened Authorship
  import opened CoeditStamps
  import opened CoeditDocs
  import opened SpanCursors
  import opened CoeditReconcile

  datatype Rebuilt<B> = Document(cells: seq<DocCell<B>>) | NotOnCharBoundary

  /** How a stamp reads back: no stamp is nobody. */
  function Reads(stamp: Option<Author>): Author {
    match stamp
    case Some(author) => author
    case None => NOBODY
  }

  /** The author every byte reads back as. */
  ghost function Authors(stamps: seq<Option<Author>>): (r: seq<Author>)
    ensures |r| == |stamps|
    ensures forall i | 0 <= i < |r| :: r[i] == Reads(stamps[i])
  {
    if stamps == [] then [] else [Reads(stamps[0])] + Authors(stamps[1..])
  }

  lemma AuthorsAppend(a: seq<Option<Author>>, b: seq<Option<Author>>)
    ensures Authors(a + b) == Authors(a) + Authors(b)
  {
  }

  lemma {:induction false} StampsAppend<B, S>(a: seq<Cell<B, S>>, b: seq<Cell<B, S>>)
    ensures Stamps(a + b) == Stamps(a) + Stamps(b)
  {
    hide Flat, Stamps;
    if a == [] {
      NoCells(a);
      assert a + b == b && [] + Stamps(b) == Stamps(b);
    } else {
      assert (a + b)[1..] == a[1..] + b;
      FirstCell(a);
      FirstCell(a + b);
      StampsAppend(a[1..], b);
      if a[0].Text? {
        Concat3([a[0].stamp], Stamps(a[1..]), Stamps(b));
      }
    }
  }

  /** What inserting under an author leaves to be read: actor 0 leaves no stamp. */
  function Heard(author: Author): Author {
    if author.actor != 0 then author else NOBODY
  }

  /** The spans as they read back. */
  function HeardSpans(spans: seq<Run<Author>>): (r: seq<Run<Author>>)
    ensures |r| == |spans|
  {
    if spans == [] then []
    else HeardSpans(spans[..|spans|-1]) + [Run(Heard(spans[|spans|-1].stamp), spans[|spans|-1].len)]
  }

  /** Byte by byte. */
  lemma {:induction false} HeardBytes(spans: seq<Run<Author>>)
    ensures |Expand(HeardSpans(spans))| == |Expand(spans)|
    ensures forall k | 0 <= k < |Expand(spans)| :: Expand(HeardSpans(spans))[k] == Heard(Expand(spans)[k])
    decreases |spans|
  {
    hide Expand, Heard, Repeat;
    if spans == [] {
      ExpandEmpty<Author>();
    } else {
      var init, last := spans[..|spans|-1], spans[|spans|-1];
      HeardBytes(init);
      assert spans == init + [last];
      ExpandAppend(init, [last]);
      ExpandOne(last);
      ExpandAppend(HeardSpans(init), [Run(Heard(last.stamp), last.len)]);
      ExpandOne(Run(Heard(last.stamp), last.len));
    }
  }

  /** They read back as they are when no actor is 0, and are as long in any case. */
  lemma {:induction false} HeardSame(spans: seq<Run<Author>>)
    ensures Total(HeardSpans(spans)) == Total(spans)
    ensures (forall i | 0 <= i < |spans| :: spans[i].stamp.actor != 0) ==> HeardSpans(spans) == spans
    decreases |spans|
  {
    hide Total;
    if spans == [] {
      assert HeardSpans(spans) == spans;
    } else {
      var front := spans[..|spans|-1];
      HeardSame(front);
      HeardStep(spans, |front|);
      assert spans[..|spans|] == spans;
      TotalPrefix(spans, |front|);
      TotalPrefix(HeardSpans(spans), |front|);
      assert HeardSpans(spans)[..|front|] == HeardSpans(front) && HeardSpans(spans)[..|spans|] == HeardSpans(spans);
      assert spans == front + [spans[|front|]];
    }
  }

  lemma HeardStep(spans: seq<Run<Author>>, k: nat)
    requires k < |spans|
    ensures HeardSpans(spans[..k+1]) == HeardSpans(spans[..k]) + [Run(Heard(spans[k].stamp), spans[k].len)]
  {
    assert spans[..k+1][..k] == spans[..k];
  }

  /** A typed piece reads back under its author, under nobody for actor 0. */
  lemma {:induction false} TypedReads<B>(piece: seq<B>, author: Author)
    ensures Authors(Stamps(Typed(piece, author))) == Repeat(Heard(author), |piece|)
  {
    if piece == [] {
    } else {
      var cells := Typed(piece, author);
      assert cells[1..] == Typed(piece[1..], author);
      TypedReads(piece[1..], author);
      FirstCell(cells);
    }
  }

  /** Rebuild a document from flat text and its spans, inserting piece after piece. */
  method FromBlamed<B>(text: seq<B>, spans: seq<Run<Author>>, boundary: nat -> bool) returns (r: Rebuilt<B>)
    ensures r.Document? <==> Cuttable(spans, 0, |text|, boundary)
    ensures r.Document? ==>
      && Total(spans) <= |text|
      && AllText(r.cells) && Flat(r.cells) == text[..Total(spans)]
      && Authors(Stamps(r.cells)) == Expand(HeardSpans(spans))
  {
    hide Flat, Stamps, Expand, Total, Typed, Authors, Repeat, HeardSpans;
    var cells: seq<DocCell<B>> := [];
    var byteOff: nat := 0;
    ExpandEmpty<Author>();
    NoCells(cells);
    StartOfSpans(spans);
    assert Authors([]) == [];
    for k := 0 to |spans|
      invariant byteOff == Total(spans[..k]) <= |text|
      invariant Cuttable(spans, 0, |text|, boundary) <==> Cuttable(spans[k..], byteOff, |text|, boundary)
      invariant AllText(cells) && Flat(cells) == text[..byteOff]
      invariant Authors(Stamps(cells)) == Expand(HeardSpans(spans[..k]))
    {
      var span := spans[k];
      assert spans[k..][0] == span && spans[k..][1..] == spans[k+1..];
      var end := byteOff + span.len;
      if end > |text| || !boundary(end) {
        return NotOnCharBoundary;
      }
      var piece := text[byteOff..end];
      TotalPrefix(spans, k);
      HeardStep(spans, k);
      ExpandAppend(HeardSpans(spans[..k]), [Run(Heard(span.stamp), span.len)]);
      ExpandOne(Run(Heard(span.stamp), span.len));
      TypedText(piece, span.stamp);
      TypedReads(piece, span.stamp);
      FlatAppend(cells, Typed(piece, span.stamp));
      StampsAppend(cells, Typed(piece, span.stamp));
      AuthorsAppend(Stamps(cells), Stamps(Typed(piece, span.stamp)));
      assert text[..byteOff] + piece == text[..end];
      cells := cells + Typed(piece, span.stamp);
      byteOff := end;
    }
    assert spans[|spans|..] == [] && spans[..|spans|] == spans;
    r := Document(cells);
  }

  lemma StartOfSpans(spans: seq<Run<Author>>)
    ensures Total(spans[..0]) == 0 && Expand(HeardSpans(spans[..0])) == [] && spans[0..] == spans
  {
  }

  /** The text and its coalesced authorship, walked from one run list. */
  method Snapshot<B>(runs: seq<DocRun<Option<Author>>>, cells: seq<DocCell<B>>)
    returns (text: seq<B>, spans: seq<Run<Author>>)
    requires Describes(runs, cells)
    ensures text == Flat(cells)
    ensures Expand(spans) == Authors(Stamps(cells))
    ensures Canonical(spans)
  {
    hide Expand, Stamps, Flat, Push, Canonical, Heads, Repeat, Authors;
    text := Flat(cells);
    spans := [];
    ghost var rest := cells;
    ExpandEmpty<Author>();
    assert runs[0..] == runs && [] + Authors(Stamps(cells)) == Authors(Stamps(cells));
    for k := 0 to |runs|
      invariant Describes(runs[k..], rest)
      invariant Authors(Stamps(cells)) == Expand(spans) + Authors(Stamps(rest))
      invariant Canonical(spans)
    {
      var run := runs[k];
      assert runs[k..][0] == run && runs[k..][1..] == runs[k+1..];
      DescribesHead(runs[k..], rest);
      HeadBytes(run, rest);
      AuthorsAppend(Repeat(run.stamp, run.byteLen), Stamps(rest[run.docLen..]));
      RepeatReads(run.stamp, run.byteLen);
      Concat3(Expand(spans), Repeat(Reads(run.stamp), run.byteLen), Authors(Stamps(rest[run.docLen..])));
      ExpandPush(spans, Reads(run.stamp), run.byteLen);
      spans := Push(spans, Reads(run.stamp), run.byteLen);
      rest := rest[run.docLen..];
    }
    assert runs[|runs|..] == [];
    NoCells(rest);
    assert Authors([]) == [];
    assert Expand(spans) + [] == Expand(spans);
  }

  lemma RepeatReads(stamp: Option<Author>, n: nat)
    ensures Authors(Repeat(stamp, n)) == Repeat(Reads(stamp), n)
  {
  }

  /** Rebuilding a document from a file and its blame, in whatever runs the CRDT then
      reports it, snapshots back to the file and the canonical form of that blame. */
  lemma SnapshotOfRebuilt<B>(text: seq<B>, spans: seq<Run<Author>>, cells: seq<DocCell<B>>,
                             text': seq<B>, spans': seq<Run<Author>>)
    requires Total(spans) <= |text|
    requires Flat(cells) == text[..Total(spans)] && Authors(Stamps(cells)) == Expand(HeardSpans(spans))
    requires text' == Flat(cells) && Expand(spans') == Authors(Stamps(cells)) && Canonical(spans')
    ensures text' == text[..Total(spans)] && spans' == Coalesce(HeardSpans(spans))
  {
    hide Flat, Stamps, Expand, Coalesce, HeardSpans;
    ExpandCoalesce(HeardSpans(spans));
    CanonicalUnique(spans', Coalesce(HeardSpans(spans)));
  }

  /** The round trip as one operation. */
  method RebuildAndSnapshot<B(==)>(text: seq<B>, spans: seq<Run<Author>>, boundary: nat -> bool)
    returns (rebuilt: bool, text': seq<B>, spans': seq<Run<Author>>)
    ensures rebuilt <==> Cuttable(spans, 0, |text|, boundary)
    ensures rebuilt ==> Total(spans) <= |text| && text' == text[..Total(spans)] && spans' == Coalesce(HeardSpans(spans))
    ensures rebuilt && (forall i | 0 <= i < |spans| :: spans[i].stamp.actor != 0) ==> spans' == Coalesce(spans)
    ensures rebuilt ==>
      && |Expand(spans')| == |Expand(spans)|
      && forall k | 0 <= k < |Expand(spans)| ::
           Expand(spans')[k] == if Expand(spans)[k].actor != 0 then Expand(spans)[k] else Author(0, 0)
  {
    hide Flat, Stamps, Expand, Canonical, Authors, Coalesce, Describes, Total, HeardSpans;
    HeardSame(spans);
    var doc := FromBlamed(text, spans, boundary);
    if doc.NotOnCharBoundary? {
      return false, [], [];
    }
    var runs: seq<DocRun<Option<Author>>> := CellRuns(doc.cells);
    text', spans' := Snapshot(runs, doc.cells);
    SnapshotOfRebuilt(text, spans, doc.cells, text', spans');
    ExpandCoalesce(HeardSpans(spans));
    HeardBytes(spans);
    rebuilt := true;
  }
}
