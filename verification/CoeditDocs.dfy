/** A co-edited document as the CRDT presents it: a sequence of indexed cells, each
    one byte of text or one embed, every cell carrying an author stamp. The text
    leaves embeds out, so byte offsets and document indices differ after one. */
module CoeditDocs {
  import opened Tilings
  import opened CoeditStamps

  datatype Cell<+B, +S> = Text(byte: B, stamp: S) | Embed(item: nat, stamp: S)

  /** The flat string: embeds contribute nothing. */
  function Flat<B, S>(cells: seq<Cell<B, S>>): seq<B> {
    if cells == [] then []
    else (if cells[0].Text? then [cells[0].byte] else []) + Flat(cells[1..])
  }

  /** The stamp of every byte of the flat string. */
  ghost function Stamps<B, S>(cells: seq<Cell<B, S>>): (r: seq<S>)
    ensures |r| == |Flat(cells)|
  {
    if cells == [] then []
    else (if cells[0].Text? then [cells[0].stamp] else []) + Stamps(cells[1..])
  }

  predicate SameKind<B(==), S>(a: Cell<B, S>, b: Cell<B, S>) {
    match a
    case Text(x, _) => b.Text? && b.byte == x
    case Embed(i, _) => b.Embed? && b.item == i
  }

  /** The same bytes and embeds at the same indices; stamps may differ. */
  ghost predicate SameLayout<B, S>(a: seq<Cell<B, S>>, b: seq<Cell<B, S>>) {
    |a| == |b| && forall i | 0 <= i < |a| :: SameKind(a[i], b[i])
  }

  lemma {:induction false} SameLayoutSameText<B, S>(a: seq<Cell<B, S>>, b: seq<Cell<B, S>>)
    requires SameLayout(a, b)
    ensures Flat(a) == Flat(b)
  {
    if a == [] {
    } else {
      assert SameKind(a[0], b[0]);
      assert SameLayout(a[1..], b[1..]) by {
        forall i | 0 <= i < |a[1..]|
          ensures SameKind(a[1..][i], b[1..][i])
        {
          assert SameKind(a[i+1], b[i+1]);
        }
      }
      SameLayoutSameText(a[1..], b[1..]);
    }
  }

  // ----- byte offsets and document indices

  /** The index of the `off`-th byte; the end of the text is the end of the document. */
  ghost function IndexOf<B, S>(cells: seq<Cell<B, S>>, off: nat): (i: nat)
    requires off <= |Flat(cells)|
    ensures i <= |cells|
  {
    if off == |Flat(cells)| then |cells|
    else if cells[0].Embed? then 1 + IndexOf(cells[1..], off)
    else if off == 0 then 0
    else 1 + IndexOf(cells[1..], off - 1)
  }

  lemma {:induction false} ByteAtIndex<B, S>(cells: seq<Cell<B, S>>, off: nat)
    requires off < |Flat(cells)|
    ensures IndexOf(cells, off) < |cells|
    ensures var cell := cells[IndexOf(cells, off)];
      cell.Text? && cell.byte == Flat(cells)[off] && cell.stamp == Stamps(cells)[off]
  {
    if cells[0].Embed? {
      ByteAtIndex(cells[1..], off);
    } else if off > 0 {
      ByteAtIndex(cells[1..], off - 1);
    }
  }

  lemma {:induction false} IndexMonotone<B, S>(cells: seq<Cell<B, S>>, a: nat, b: nat)
    requires a < b <= |Flat(cells)|
    ensures IndexOf(cells, a) < IndexOf(cells, b)
  {
    ByteAtIndex(cells, a);
    if b < |Flat(cells)| {
      if cells[0].Embed? {
        IndexMonotone(cells[1..], a, b);
      } else if a > 0 {
        IndexMonotone(cells[1..], a - 1, b - 1);
      }
    }
  }

  lemma {:induction false} SameLayoutSameIndex<B, S>(a: seq<Cell<B, S>>, b: seq<Cell<B, S>>, off: nat)
    requires SameLayout(a, b) && off <= |Flat(a)|
    ensures Flat(a) == Flat(b) && IndexOf(a, off) == IndexOf(b, off)
  {
    SameLayoutSameText(a, b);
    if off < |Flat(a)| {
      assert SameKind(a[0], b[0]);
      assert SameLayout(a[1..], b[1..]) by {
        forall i | 0 <= i < |a[1..]|
          ensures SameKind(a[1..][i], b[1..][i])
        {
          assert SameKind(a[i+1], b[i+1]);
        }
      }
      if a[0].Embed? {
        SameLayoutSameIndex(a[1..], b[1..], off);
      } else if off > 0 {
        SameLayoutSameIndex(a[1..], b[1..], off - 1);
      }
    }
  }

  // ----- runs: the document as the CRDT hands it out

  /** A run of cells: a text run has as many indices as bytes, an embed has one
      index and no byte. */
  datatype DocRun<+S> = DocRun(stamp: S, byteLen: nat, docLen: nat)

  /** `run` describes the first cells of a document. */
  ghost predicate Heads<B, S>(run: DocRun<S>, cells: seq<Cell<B, S>>) {
    && run.docLen <= |cells|
    && (if run.byteLen == run.docLen
        then forall i | 0 <= i < run.docLen :: cells[i].Text? && cells[i].stamp == run.stamp
        else run.byteLen == 0 && run.docLen == 1 && cells[0].Embed? && cells[0].stamp == run.stamp)
  }

  ghost predicate Describes<B, S>(runs: seq<DocRun<S>>, cells: seq<Cell<B, S>>) {
    if runs == [] then cells == []
    else Heads(runs[0], cells) && Describes(runs[1..], cells[runs[0].docLen..])
  }

  /** One fragmentation of a document: every cell its own run. */
  function CellRuns<B, S>(cells: seq<Cell<B, S>>): (runs: seq<DocRun<S>>)
    ensures Describes(runs, cells)
  {
    if cells == [] then []
    else
      var run := match cells[0]
        case Text(_, stamp) => DocRun(stamp, 1, 1)
        case Embed(_, stamp) => DocRun(stamp, 0, 1);
      var rest := CellRuns(cells[1..]);
      assert ([run] + rest)[1..] == rest;
      [run] + rest
  }

  lemma FirstCell<B, S>(cells: seq<Cell<B, S>>)
    requires cells != []
    ensures cells[0].Text? ==> Flat(cells) == [cells[0].byte] + Flat(cells[1..])
    ensures cells[0].Text? ==> Stamps(cells) == [cells[0].stamp] + Stamps(cells[1..])
    ensures cells[0].Embed? ==> Flat(cells) == Flat(cells[1..]) && Stamps(cells) == Stamps(cells[1..])
  {
    assert [] + Flat(cells[1..]) == Flat(cells[1..]);
    assert [] + Stamps(cells[1..]) == Stamps(cells[1..]);
  }

  lemma FirstIndex<B, S>(cells: seq<Cell<B, S>>, off: nat)
    requires cells != [] && off < |Flat(cells)|
    ensures cells[0].Embed? ==> off < |Flat(cells[1..])| && IndexOf(cells, off) == 1 + IndexOf(cells[1..], off)
    ensures cells[0].Text? && off == 0 ==> IndexOf(cells, off) == 0
    ensures cells[0].Text? && off > 0 ==>
      off - 1 < |Flat(cells[1..])| && IndexOf(cells, off) == 1 + IndexOf(cells[1..], off - 1)
  {
    hide Stamps;
  }

  /** The run after its first cell. */
  ghost function TailRun<S>(run: DocRun<S>): DocRun<S>
    requires run.docLen > 0
  {
    DocRun(run.stamp, if run.byteLen == 0 then 0 else run.byteLen - 1, run.docLen - 1)
  }

  lemma TailHeads<B, S>(run: DocRun<S>, cells: seq<Cell<B, S>>)
    requires Heads(run, cells) && run.docLen > 0
    ensures cells != [] && cells[0].stamp == run.stamp && (cells[0].Text? <==> run.byteLen > 0)
    ensures Heads(TailRun(run), cells[1..]) && TailRun(run).byteLen <= run.byteLen
    ensures cells[1..][TailRun(run).docLen..] == cells[run.docLen..]
  {
    if run.byteLen == run.docLen {
      forall i | 0 <= i < run.docLen - 1
        ensures cells[1..][i].Text? && cells[1..][i].stamp == run.stamp
      {
        assert cells[i+1].Text? && cells[i+1].stamp == run.stamp;
      }
    }
  }

  /** A run contributes its bytes, all under its stamp. */
  lemma {:induction false} HeadBytes<B, S>(run: DocRun<S>, cells: seq<Cell<B, S>>)
    requires Heads(run, cells)
    ensures run.docLen <= |cells|
    ensures |Flat(cells)| == run.byteLen + |Flat(cells[run.docLen..])|
    ensures Stamps(cells) == Repeat(run.stamp, run.byteLen) + Stamps(cells[run.docLen..])
    decreases run.docLen
  {
    if run.docLen == 0 {
      assert cells[0..] == cells;
    } else {
      hide Flat, Stamps, Repeat, Heads;
      TailHeads(run, cells);
      FirstCell(cells);
      HeadBytes(TailRun(run), cells[1..]);
      RepeatStep(run.stamp, run.byteLen);
      if run.byteLen > 0 {
        Concat3([run.stamp], Repeat(run.stamp, run.byteLen - 1), Stamps(cells[run.docLen..]));
      }
    }
  }

  lemma HeadsNothing<B, S>(run: DocRun<S>, cells: seq<Cell<B, S>>)
    requires Heads(run, cells) && run.docLen == 0
    ensures run.byteLen == 0
  {
  }

  /** Offsets inside a text run count its cells, later ones step over the run. */
  lemma {:induction false} HeadIndex<B, S>(run: DocRun<S>, cells: seq<Cell<B, S>>, off: nat)
    requires Heads(run, cells) && off < |Flat(cells)|
    ensures run.docLen <= |cells|
    ensures |Flat(cells)| == run.byteLen + |Flat(cells[run.docLen..])|
    ensures off < run.byteLen ==> IndexOf(cells, off) == off
    ensures off >= run.byteLen ==> IndexOf(cells, off) == run.docLen + IndexOf(cells[run.docLen..], off - run.byteLen)
    decreases run.docLen
  {
    hide Flat, Stamps, Repeat, IndexOf, Heads;
    HeadBytes(run, cells);
    if run.docLen == 0 {
      HeadsNothing(run, cells);
      assert cells[0..] == cells;
    } else {
      TailHeads(run, cells);
      FirstCell(cells);
      FirstIndex(cells, off);
      if cells[0].Embed? {
        HeadIndex(TailRun(run), cells[1..], off);
      } else if off > 0 {
        HeadIndex(TailRun(run), cells[1..], off - 1);
      }
    }
  }

  /** The stamps of the text, with embeds dropped, as a canonical tiling. */
  method StampTiling<B, S(==)>(runs: seq<DocRun<S>>, ghost cells: seq<Cell<B, S>>) returns (out: seq<Run<S>>)
    requires Describes(runs, cells)
    ensures Expand(out) == Stamps(cells)
    ensures Canonical(out)
  {
    hide Expand, Stamps, Flat, Push, Canonical, Heads, Repeat;
    out := [];
    ghost var rest := cells;
    ExpandEmpty<S>();
    assert runs[0..] == runs && [] + Stamps(cells) == Stamps(cells);
    for k := 0 to |runs|
      invariant Describes(runs[k..], rest)
      invariant Stamps(cells) == Expand(out) + Stamps(rest)
      invariant Canonical(out)
    {
      var run := runs[k];
      assert runs[k..][0] == run && runs[k..][1..] == runs[k+1..];
      DescribesHead(runs[k..], rest);
      HeadBytes(run, rest);
      Concat3(Expand(out), Repeat(run.stamp, run.byteLen), Stamps(rest[run.docLen..]));
      ExpandPush(out, run.stamp, run.byteLen);
      out := Push(out, run.stamp, run.byteLen);
      rest := rest[run.docLen..];
    }
    assert runs[|runs|..] == [];
    NoCells(rest);
    assert Expand(out) + [] == Expand(out);
  }

  lemma DescribesHead<B, S>(runs: seq<DocRun<S>>, cells: seq<Cell<B, S>>)
    requires Describes(runs, cells) && runs != []
    ensures Heads(runs[0], cells) && runs[0].docLen <= |cells|
    ensures Describes(runs[1..], cells[runs[0].docLen..])
  {
  }

  lemma NoCells<B, S>(cells: seq<Cell<B, S>>)
    requires cells == []
    ensures Flat(cells) == [] && Stamps(cells) == []
  {
  }

  /** The document index at a byte offset, stepping over embeds; `None` past the end. */
  method DocIndexAt<B, S>(runs: seq<DocRun<S>>, byteOff: nat, ghost cells: seq<Cell<B, S>>)
    returns (index: Option<nat>)
    requires Describes(runs, cells)
    ensures index == if byteOff <= |Flat(cells)| then Some(IndexOf(cells, byteOff)) else None
  {
    hide Flat, Stamps, IndexOf, Heads, Repeat;
    var bytePos: nat, idx: nat := 0, 0;
    ghost var rest := cells;
    assert runs[0..] == runs;
    for k := 0 to |runs|
      invariant Describes(runs[k..], rest)
      invariant bytePos <= byteOff
      invariant |Flat(cells)| == bytePos + |Flat(rest)| && |cells| == idx + |rest|
      invariant byteOff < |Flat(cells)| ==> IndexOf(cells, byteOff) == idx + IndexOf(rest, byteOff - bytePos)
    {
      var run := runs[k];
      assert runs[k..][0] == run && runs[k..][1..] == runs[k+1..];
      DescribesHead(runs[k..], rest);
      HeadBytes(run, rest);
      if byteOff - bytePos < |Flat(rest)| {
        HeadIndex(run, rest, byteOff - bytePos);
      }
      if byteOff < bytePos + run.byteLen {
        return Some(idx + (byteOff - bytePos));
      }
      bytePos := bytePos + run.byteLen;
      idx := idx + run.docLen;
      rest := rest[run.docLen..];
    }
    assert runs[|runs|..] == [];
    NoCells(rest);
    IndexOfEnd(cells);
    index := if byteOff == bytePos then Some(idx) else None;
  }

  lemma IndexOfEnd<B, S>(cells: seq<Cell<B, S>>)
    ensures IndexOf(cells, |Flat(cells)|) == |cells|
  {
  }

  datatype DocRange = DocRange(index: nat, len: nat)

  /** The document range that covers a byte range. */
  method RangeOf<B, S>(runs: seq<DocRun<S>>, byteStart: nat, byteLen: nat, ghost cells: seq<Cell<B, S>>)
    returns (range: Option<DocRange>)
    requires Describes(runs, cells)
    ensures range ==
      if byteStart + byteLen <= |Flat(cells)| && IndexOf(cells, byteStart) <= IndexOf(cells, byteStart + byteLen)
      then Some(DocRange(IndexOf(cells, byteStart), IndexOf(cells, byteStart + byteLen) - IndexOf(cells, byteStart)))
      else None
    ensures byteStart + byteLen <= |Flat(cells)| ==> range.Some?
  {
    hide Describes, IndexOf, Flat;
    if 0 < byteLen && byteStart + byteLen <= |Flat(cells)| {
      IndexMonotone(cells, byteStart, byteStart + byteLen);
    }
    var start := DocIndexAt(runs, byteStart, cells);
    if start.None? {
      return None;
    }
    var end := DocIndexAt(runs, byteStart + byteLen, cells);
    if end.None? {
      return None;
    }
    range := if end.value >= start.value then Some(DocRange(start.value, end.value - start.value)) else None;
  }

  // ----- formatting

  /** Restamp an index range; nothing but stamps changes. */
  function Format<B, S>(cells: seq<Cell<B, S>>, index: nat, len: nat, stamp: S): (r: seq<Cell<B, S>>)
    requires index + len <= |cells|
    ensures |r| == |cells|
    ensures forall i | 0 <= i < |r| ::
      r[i] == if index <= i < index + len then cells[i].(stamp := stamp) else cells[i]
  {
    cells[..index] + Restamp(cells[index..index+len], stamp) + cells[index+len..]
  }

  function Restamp<B, S>(cells: seq<Cell<B, S>>, stamp: S): (r: seq<Cell<B, S>>)
    ensures |r| == |cells|
    ensures forall i | 0 <= i < |r| :: r[i] == cells[i].(stamp := stamp)
  {
    if cells == [] then [] else [cells[0].(stamp := stamp)] + Restamp(cells[1..], stamp)
  }

  /** Formatting the document range of a byte range restamps exactly those bytes,
      whatever embeds lie between or beside them. */
  lemma FormatRestamps<B, S>(cells: seq<Cell<B, S>>, start: nat, len: nat, stamp: S)
    requires start + len <= |Flat(cells)|
    ensures IndexOf(cells, start) <= IndexOf(cells, start + len)
    ensures var r := Format(cells, IndexOf(cells, start), IndexOf(cells, start + len) - IndexOf(cells, start), stamp);
      && SameLayout(cells, r)
      && Flat(r) == Flat(cells)
      && forall k: nat | k < |Flat(cells)| ::
           Stamps(r)[k] == if start <= k < start + len then stamp else Stamps(cells)[k]
  {
    hide Flat, Stamps, IndexOf, SameLayout, Format;
    if len > 0 {
      IndexMonotone(cells, start, start + len);
    }
    var i, j := IndexOf(cells, start), IndexOf(cells, start + len);
    var r := Format(cells, i, j - i, stamp);
    FormatKeepsLayout(cells, i, j - i, stamp);
    SameLayoutSameText(cells, r);
    forall k: nat | k < |Flat(cells)|
      ensures Stamps(r)[k] == if start <= k < start + len then stamp else Stamps(cells)[k]
    {
      IndexInRange(cells, start, len, k);
      ByteAtIndex(cells, k);
      SameLayoutSameIndex(cells, r, k);
      ByteAtIndex(r, k);
    }
  }

  /** A byte's index is inside the document range exactly when the byte is inside
      the byte range. */
  lemma IndexInRange<B, S>(cells: seq<Cell<B, S>>, start: nat, len: nat, k: nat)
    requires start + len <= |Flat(cells)| && k < |Flat(cells)|
    ensures IndexOf(cells, start) <= IndexOf(cells, k) < IndexOf(cells, start + len) <==> start <= k < start + len
  {
    hide Flat, IndexOf;
    if k < start {
      IndexMonotone(cells, k, start);
    } else if start < k {
      IndexMonotone(cells, start, k);
    }
    if k < start + len {
      IndexMonotone(cells, k, start + len);
    } else if start + len < k {
      IndexMonotone(cells, start + len, k);
    }
  }

  lemma FormatKeepsLayout<B, S>(cells: seq<Cell<B, S>>, index: nat, len: nat, stamp: S)
    requires index + len <= |cells|
    ensures SameLayout(cells, Format(cells, index, len, stamp))
  {
    hide Format;
  }

  lemma SameLayoutTransitive<B, S>(a: seq<Cell<B, S>>, b: seq<Cell<B, S>>, c: seq<Cell<B, S>>)
    requires SameLayout(a, b) && SameLayout(b, c)
    ensures SameLayout(a, c)
  {
    forall i | 0 <= i < |a|
      ensures SameKind(a[i], c[i])
    {
      assert SameKind(a[i], b[i]) && SameKind(b[i], c[i]);
    }
  }
}
