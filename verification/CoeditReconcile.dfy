/** Folding an out-of-band text into a live document as inserts and deletes, and the
    passage between a document and its flat text with per-span authorship. */
module CoeditReconcile {
  import opened Tilings
  import opened Authorship
  import opened EditScripts
  import opened CoeditStamps
  import opened CoeditDocs
  import opened SpanCursors

  type DocCell<B> = Cell<B, Option<Author>>

  /** A piece of text inserted under an author. Actor 0 is inserted without a stamp. */
  function Typed<B>(piece: seq<B>, author: Author): (r: seq<DocCell<B>>)
    ensures |r| == |piece|
    ensures forall i | 0 <= i < |r| :: r[i] == Text(piece[i], if author.actor != 0 then Some(author) else None)
  {
    if piece == [] then []
    else [Text(piece[0], if author.actor != 0 then Some(author) else None)] + Typed(piece[1..], author)
  }

  function InsertAt<B>(cells: seq<DocCell<B>>, idx: nat, piece: seq<B>, author: Author): seq<DocCell<B>>
    requires idx <= |cells|
  {
    cells[..idx] + Typed(piece, author) + cells[idx..]
  }

  function RemoveAt<B>(cells: seq<DocCell<B>>, idx: nat, len: nat): seq<DocCell<B>>
    requires idx + len <= |cells|
  {
    cells[..idx] + cells[idx+len..]
  }

  /** The script replayed at a moving index, one change at a time. */
  ghost function Replay<B>(cells: seq<DocCell<B>>, idx: nat, script: seq<Change<B>>,
                           spans: seq<Run<Author>>, off: nat): seq<DocCell<B>>
    requires idx + |OldSide(script)| <= |cells|
    decreases |script|
  {
    if script == [] then cells
    else
      SidesStep(script);
      var v := script[0].value;
      match script[0]
      case Equal(_) => Replay(cells, idx + |v|, script[1..], spans, off + |v|)
      case Delete(_) => Replay(RemoveAt(cells, idx, |v|), idx, script[1..], spans, off)
      case Insert(_) =>
        Replay(InsertAt(cells, idx, v, AuthorAt(spans, off)), idx + |v|, script[1..], spans, off + |v|)
  }

  lemma InsertNothing<B>(cells: seq<DocCell<B>>, idx: nat, author: Author)
    requires idx <= |cells|
    ensures InsertAt(cells, idx, [], author) == cells
  {
  }

  lemma TypedAppend<B>(a: seq<B>, b: seq<B>, author: Author)
    ensures Typed(a + b, author) == Typed(a, author) + Typed(b, author)
  {
  }

  /** Two inserts side by side under one author are one insert. */
  lemma InsertTwice<B>(cells: seq<DocCell<B>>, idx: nat, a: seq<B>, b: seq<B>, author: Author)
    requires idx <= |cells|
    ensures InsertAt(InsertAt(cells, idx, a, author), idx + |a|, b, author) == InsertAt(cells, idx, a + b, author)
  {
    hide Typed;
    TypedAppend(a, b, author);
  }

  class EditedDoc<B(==)> {
    var cells: seq<DocCell<B>>

    constructor (cells: seq<DocCell<B>>)
      ensures this.cells == cells
    {
      this.cells := cells;
    }

    /** Makes the text become `text` by replaying the differences as attributed
        inserts and deletes, batching inserts by one author into one operation. */
    method ReconcileWith(differ: (seq<B>, seq<B>) -> seq<Change<B>>, text: seq<B>, spans: seq<Run<Author>>)
      requires Turns(differ(Flat(cells), text), Flat(cells), text)
      modifies this
      ensures |Flat(old(cells))| <= |old(cells)|
      ensures cells == if Flat(old(cells)) == text then old(cells)
                       else Replay(old(cells), 0, differ(Flat(old(cells)), text), spans, 0)
    {
      hide OldSide, NewSide, Flat, Replay, Walk, InsertAt, RemoveAt, AuthorHere;
      TextFits(cells);
      if Flat(cells) == text {
        return;
      }
      var script := differ(Flat(cells), text);
      ghost var goal := Replay(cells, 0, script, spans, 0);
      var authors := new SpanCursor(spans);
      var idx: nat := 0;
      var author, piece := NOBODY, [];
      ghost var off: nat := 0;
      WalkNowhere(spans);
      InsertNothing(cells, idx, author);
      assert script[0..] == script;
      for k := 0 to |script|
        invariant authors.Valid() && authors.spans == spans
        invariant Pos(authors.at, authors.used) == Walk(spans, Pos(0, 0), off)
        invariant idx <= |cells| && idx + |piece| + |OldSide(script[k..])| <= |InsertAt(cells, idx, piece, author)|
        invariant goal == Replay(InsertAt(cells, idx, piece, author), idx + |piece|, script[k..], spans, off)
      {
        var c := script[k];
        var v := c.value;
        assert script[k..][0] == c && script[k..][1..] == script[k+1..];
        ReplayStep(InsertAt(cells, idx, piece, author), idx + |piece|, script[k..], spans, off);
        WalkTwice(spans, Pos(0, 0), off, |v|);
        InsertLength(cells, idx, piece, author);
        match c {
          case Equal(_) =>
            cells := InsertAt(cells, idx, piece, author);
            idx := idx + |piece|;
            piece := [];
            idx := idx + |v|;
            InsertNothing(cells, idx, author);
            authors.Advance(|v|);
            off := off + |v|;
          case Delete(_) =>
            cells := InsertAt(cells, idx, piece, author);
            idx := idx + |piece|;
            piece := [];
            cells := RemoveAt(cells, idx, |v|);
            InsertNothing(cells, idx, author);
          case Insert(_) =>
            var a := authors.Author();
            if piece != [] && a == author {
              InsertTwice(cells, idx, piece, v, author);
              piece := piece + v;
            } else {
              cells := InsertAt(cells, idx, piece, author);
              idx := idx + |piece|;
              author, piece := a, v;
            }
            authors.Advance(|v|);
            off := off + |v|;
        }
      }
      assert script[|script|..] == [];
      ReplayNothing(InsertAt(cells, idx, piece, author), idx + |piece|, script[|script|..], spans, off);
      cells := InsertAt(cells, idx, piece, author);
    }
  }

  lemma TextFits<B, S>(cells: seq<Cell<B, S>>)
    ensures |Flat(cells)| <= |cells|
  {
  }

  lemma WalkNowhere(spans: seq<Run<Author>>)
    ensures Walk(spans, Pos(0, 0), 0) == Pos(0, 0)
  {
  }

  lemma InsertLength<B>(cells: seq<DocCell<B>>, idx: nat, piece: seq<B>, author: Author)
    requires idx <= |cells|
    ensures |InsertAt(cells, idx, piece, author)| == |cells| + |piece|
  {
  }

  lemma ReplayNothing<B>(cells: seq<DocCell<B>>, idx: nat, script: seq<Change<B>>, spans: seq<Run<Author>>, off: nat)
    requires script == [] && idx + |OldSide(script)| <= |cells|
    ensures Replay(cells, idx, script, spans, off) == cells
  {
  }

  lemma ReplayStep<B>(cells: seq<DocCell<B>>, idx: nat, script: seq<Change<B>>, spans: seq<Run<Author>>, off: nat)
    requires script != [] && idx + |OldSide(script)| <= |cells|
    ensures var v, rest := script[0].value, script[1..];
      && |OldSide(script)| == HeadOld(script[0]) + |OldSide(rest)|
      && match script[0]
         case Equal(_) => Replay(cells, idx, script, spans, off) == Replay(cells, idx + |v|, rest, spans, off + |v|)
         case Delete(_) =>
           && |RemoveAt(cells, idx, |v|)| == |cells| - |v|
           && Replay(cells, idx, script, spans, off) == Replay(RemoveAt(cells, idx, |v|), idx, rest, spans, off)
         case Insert(_) =>
           && |InsertAt(cells, idx, v, AuthorAt(spans, off))| == |cells| + |v|
           && Replay(cells, idx, script, spans, off)
              == Replay(InsertAt(cells, idx, v, AuthorAt(spans, off)), idx + |v|, rest, spans, off + |v|)
  {
    hide OldSide, AuthorHere, Walk;
    SidesStep(script);
  }

  // ----- what the replay achieves when every embed trails the text

  ghost predicate AllText<B, S>(cells: seq<Cell<B, S>>) {
    forall i | 0 <= i < |cells| :: cells[i].Text?
  }

  /** No text after an embed. */
  ghost predicate EmbedsTrail<B, S>(cells: seq<Cell<B, S>>) {
    forall i, j | 0 <= i < j < |cells| && cells[i].Embed? :: cells[j].Embed?
  }

  /** The text cells a script turns `body` into: survivors are the very same cells. */
  ghost function Landed<B>(body: seq<DocCell<B>>, script: seq<Change<B>>, spans: seq<Run<Author>>,
                           off: nat): (r: seq<DocCell<B>>)
    requires |body| == |OldSide(script)|
    ensures |r| == |NewSide(script)|
    decreases |script|
  {
    if script == [] then []
    else
      SidesStep(script);
      var v := script[0].value;
      match script[0]
      case Equal(_) => body[..|v|] + Landed(body[|v|..], script[1..], spans, off + |v|)
      case Delete(_) => Landed(body[|v|..], script[1..], spans, off)
      case Insert(_) => Typed(v, AuthorAt(spans, off)) + Landed(body, script[1..], spans, off + |v|)
  }

  lemma Around<S>(done: seq<S>, v: seq<S>, body: seq<S>, tail: seq<S>)
    ensures done + (v + body) + tail == (done + v) + body + tail
  {
  }

  /** The index never strays: the script is replayed on `body` and nothing else. */
  lemma {:induction false} ReplayLands<B>(done: seq<DocCell<B>>, body: seq<DocCell<B>>, tail: seq<DocCell<B>>,
                                          script: seq<Change<B>>, spans: seq<Run<Author>>, off: nat)
    requires |body| == |OldSide(script)|
    ensures Replay(done + body + tail, |done|, script, spans, off) == done + Landed(body, script, spans, off) + tail
    decreases |script|
  {
    hide OldSide, NewSide, Replay, Landed, AuthorHere, Walk, Typed;
    var cells := done + body + tail;
    if script == [] {
      assert body == [] by {
        NoOldSide(script);
      }
      ReplayNothing(cells, |done|, script, spans, off);
      LandedNothing(body, script, spans, off);
    } else {
      ReplayStep(cells, |done|, script, spans, off);
      LandedStep(body, script, spans, off);
      var v, rest := script[0].value, script[1..];
      match script[0]
      case Equal(_) =>
        var kept, more := body[..|v|], body[|v|..];
        assert body == kept + more;
        Around(done, kept, more, tail);
        ReplayLands(done + kept, more, tail, rest, spans, off + |v|);
        Around(done, kept, Landed(more, rest, spans, off + |v|), tail);
      case Delete(_) =>
        assert RemoveAt(cells, |done|, |v|) == done + body[|v|..] + tail;
        ReplayLands(done, body[|v|..], tail, rest, spans, off);
      case Insert(_) =>
        var new_ := Typed(v, AuthorAt(spans, off));
        assert InsertAt(cells, |done|, v, AuthorAt(spans, off)) == (done + new_) + body + tail;
        ReplayLands(done + new_, body, tail, rest, spans, off + |v|);
        Around(done, new_, Landed(body, rest, spans, off + |v|), tail);
    }
  }

  lemma NoOldSide<B>(script: seq<Change<B>>)
    requires script == []
    ensures OldSide(script) == NewSide(script) == []
  {
  }

  lemma LandedNothing<B>(body: seq<DocCell<B>>, script: seq<Change<B>>, spans: seq<Run<Author>>, off: nat)
    requires script == [] && |body| == |OldSide(script)|
    ensures Landed(body, script, spans, off) == []
  {
  }

  lemma LandedStep<B>(body: seq<DocCell<B>>, script: seq<Change<B>>, spans: seq<Run<Author>>, off: nat)
    requires script != [] && |body| == |OldSide(script)|
    ensures var v, rest := script[0].value, script[1..];
      && |OldSide(script)| == HeadOld(script[0]) + |OldSide(rest)|
      && Landed(body, script, spans, off)
         == match script[0]
            case Equal(_) => body[..|v|] + Landed(body[|v|..], rest, spans, off + |v|)
            case Delete(_) => Landed(body[|v|..], rest, spans, off)
            case Insert(_) => Typed(v, AuthorAt(spans, off)) + Landed(body, rest, spans, off + |v|)
  {
    hide OldSide, NewSide, AuthorHere, Walk, Typed;
    SidesStep(script);
  }

  /** Each inserted piece is one character: no boundary lies inside it. */
  ghost predicate Characters<B>(script: seq<Change<B>>, off: nat, boundary: nat -> bool)
    decreases |script|
  {
    script != [] ==>
      && (script[0].Insert? ==> forall m | off < m < off + |script[0].value| :: !boundary(m))
      && Characters(script[1..], off + HeadNew(script[0]), boundary)
  }

  /** What each cell of the new text is: a survivor is the very cell it was, an
      inserted byte carries the author the tiling gives its own offset. */
  ghost predicate CellFollows<B>(cell: DocCell<B>, origin: Origin, byte: B, at: nat, body: seq<DocCell<B>>,
                                 author: Author) {
    match origin
    case Survivor(j) => at <= j < at + |body| && cell == body[j - at]
    case Introduced => cell == Text(byte, if author.actor != 0 then Some(author) else None)
  }

  lemma {:induction false} LandedCells<B>(body: seq<DocCell<B>>, script: seq<Change<B>>, spans: seq<Run<Author>>,
                                          len: nat, boundary: nat -> bool, off: nat, at: nat, k: nat)
    requires |body| == |OldSide(script)|
    requires NoEmptySpan(spans) && Cuttable(spans, 0, len, boundary) && Characters(script, off, boundary)
    requires k < |NewSide(script)|
    ensures CellFollows(Landed(body, script, spans, off)[k], Alignment(script, at)[k], NewSide(script)[k],
                        at, body, ByteAuthor(spans, off + k))
    decreases |script|
  {
    hide OldSide, NewSide, Landed, AuthorHere, Walk, Typed, ByteAuthor, NoEmptySpan, Cuttable, Alignment, CellFollows;
    SomethingInScript(script);
    SidesStep(script);
    AlignmentStep(script, at, k);
    LandedStep(body, script, spans, off);
    var c, v, rest := script[0], script[0].value, script[1..];
    if k < HeadNew(c) {
      HeadCell(body, script, spans, len, boundary, off, at, k);
    } else {
      var d, n := HeadOld(c), HeadNew(c);
      var body' := body[d..];
      assert body[0..] == body;
      LandedCells(body', rest, spans, len, boundary, off + n, at + d, k - n);
      assert NewSide(script)[k] == NewSide(rest)[k - n];
      CellFollowsShift(Landed(body', rest, spans, off + n)[k - n], Alignment(rest, at + d)[k - n],
                       NewSide(script)[k], at, d, body, ByteAuthor(spans, off + k));
    }
  }

  lemma CellFollowsShift<B>(cell: DocCell<B>, origin: Origin, byte: B, at: nat, d: nat, body: seq<DocCell<B>>,
                            author: Author)
    requires d <= |body| && CellFollows(cell, origin, byte, at + d, body[d..], author)
    ensures CellFollows(cell, origin, byte, at, body, author)
  {
  }

  lemma HeadCell<B>(body: seq<DocCell<B>>, script: seq<Change<B>>, spans: seq<Run<Author>>,
                    len: nat, boundary: nat -> bool, off: nat, at: nat, k: nat)
    requires |body| == |OldSide(script)| && script != []
    requires NoEmptySpan(spans) && Cuttable(spans, 0, len, boundary) && Characters(script, off, boundary)
    requires k < HeadNew(script[0]) && k < |NewSide(script)|
    ensures CellFollows(Landed(body, script, spans, off)[k], Alignment(script, at)[k], NewSide(script)[k],
                        at, body, ByteAuthor(spans, off + k))
  {
    hide OldSide, NewSide, Landed, AuthorHere, Walk, Typed, ByteAuthor, NoEmptySpan, Cuttable, Alignment;
    SidesStep(script);
    AlignmentStep(script, at, k);
    LandedStep(body, script, spans, off);
    assert NewSide(script)[k] == NewSide(script)[..HeadNew(script[0])][k] == script[0].value[k];
    if script[0].Insert? {
      CursorPadded(spans, off);
      OneCharacterOneAuthor(spans, 0, len, boundary, off, off + k);
    }
  }

  /** The text lands exactly, on a document whose embeds trail. */
  lemma {:induction false} LandedText<B>(body: seq<DocCell<B>>, script: seq<Change<B>>, spans: seq<Run<Author>>,
                                         off: nat)
    requires AllText(body) && Flat(body) == OldSide(script)
    ensures |body| == |OldSide(script)|
    ensures AllText(Landed(body, script, spans, off))
    ensures Flat(Landed(body, script, spans, off)) == NewSide(script)
    decreases |script|
  {
    hide OldSide, NewSide, Flat, Landed, AuthorHere, Walk, Typed;
    AllTextLength(body);
    if script == [] {
      NoOldSide(script);
      LandedNothing(body, script, spans, off);
      AllTextLength(Landed(body, script, spans, off));
    } else {
      SidesStep(script);
      LandedStep(body, script, spans, off);
      var v, rest := script[0].value, script[1..];
      SidesSplit(script);
      var head, body' := body[..HeadOld(script[0])], body[HeadOld(script[0])..];
      assert body == head + body';
      FlatAppend(head, body');
      AllTextLength(head);
      AllTextLength(body');
      LandedText(body', rest, spans, off + HeadNew(script[0]));
      var landed := Landed(body', rest, spans, off + HeadNew(script[0]));
      match script[0]
      case Equal(_) => FlatAppend(head, landed);
      case Delete(_) =>
      case Insert(_) =>
        assert body' == body;
        TypedText(v, AuthorAt(spans, off));
        FlatAppend(Typed(v, AuthorAt(spans, off)), landed);
    }
  }

  lemma SidesSplit<B>(script: seq<Change<B>>)
    requires script != []
    ensures script[0].Insert? ==> OldSide(script) == OldSide(script[1..])
    ensures !script[0].Insert? ==> OldSide(script) == script[0].value + OldSide(script[1..])
    ensures script[0].Delete? ==> NewSide(script) == NewSide(script[1..])
    ensures !script[0].Delete? ==> NewSide(script) == script[0].value + NewSide(script[1..])
  {
    assert [] + OldSide(script[1..]) == OldSide(script[1..]);
    assert [] + NewSide(script[1..]) == NewSide(script[1..]);
  }

  lemma {:induction false} AllTextLength<B, S>(cells: seq<Cell<B, S>>)
    requires AllText(cells)
    ensures |Flat(cells)| == |cells|
    ensures forall i | 0 <= i < |cells| :: Flat(cells)[i] == cells[i].byte
  {
    if cells == [] {
    } else {
      AllTextLength(cells[1..]);
    }
  }

  lemma {:induction false} FlatAppend<B, S>(a: seq<Cell<B, S>>, b: seq<Cell<B, S>>)
    ensures Flat(a + b) == Flat(a) + Flat(b)
  {
    hide Flat, Stamps;
    if a == [] {
      NoCells(a);
      assert a + b == b && [] + Flat(b) == Flat(b);
    } else {
      assert (a + b)[1..] == a[1..] + b;
      FirstCell(a);
      FirstCell(a + b);
      FlatAppend(a[1..], b);
      if a[0].Text? {
        Concat3([a[0].byte], Flat(a[1..]), Flat(b));
      }
    }
  }

  lemma TypedText<B>(piece: seq<B>, author: Author)
    ensures AllText(Typed(piece, author)) && Flat(Typed(piece, author)) == piece
  {
    AllTextLength(Typed(piece, author));
  }

  /** The first `n` cells of a document whose embeds trail are its text. */
  lemma {:induction false} TrailingSplit<B, S>(cells: seq<Cell<B, S>>)
    requires EmbedsTrail(cells)
    ensures var n := |Flat(cells)|;
      n <= |cells| && AllText(cells[..n]) && Flat(cells[..n]) == Flat(cells) && Flat(cells[n..]) == []
  {
    if cells == [] {
    } else {
      if cells[0].Embed? {
        NoText(cells);
      } else {
        var rest := cells[1..];
        forall i, j | 0 <= i < j < |rest| && rest[i].Embed?
          ensures rest[j].Embed?
        {
          assert cells[i+1].Embed? && cells[j+1].Embed?;
        }
        TrailingSplit(rest);
        var n := |Flat(rest)|;
        assert cells[..n+1] == [cells[0]] + rest[..n] && cells[n+1..] == rest[n..];
        assert cells[..n+1][1..] == rest[..n];
      }
    }
  }

  lemma {:induction false} NoText<B, S>(cells: seq<Cell<B, S>>)
    requires forall i | 0 <= i < |cells| :: cells[i].Embed?
    ensures Flat(cells) == []
  {
    if cells == [] {
    } else {
      NoText(cells[1..]);
    }
  }

  /** The replay of a script over the document's own text lands on the new text. */
  ghost predicate Lands<B>(cells: seq<DocCell<B>>, script: seq<Change<B>>, spans: seq<Run<Author>>) {
    && |OldSide(script)| <= |cells|
    && Flat(Replay(cells, 0, script, spans, 0)) == NewSide(script)
  }

  /** Reconciling lands the target for every script and every tiling exactly when no
      embed stands before text. An embed in the middle shifts every later index. */
  lemma ReconcileLandsIff<B(!new)>(cells: seq<DocCell<B>>)
    ensures (forall script: seq<Change<B>>, spans: seq<Run<Author>> | OldSide(script) == Flat(cells) ::
               Lands(cells, script, spans))
            <==> EmbedsTrail(cells)
  {
    if EmbedsTrail(cells) {
      forall script: seq<Change<B>>, spans: seq<Run<Author>> | OldSide(script) == Flat(cells)
        ensures Lands(cells, script, spans)
      {
        LandsWhenTrailing(cells, script, spans);
      }
    } else {
      var script, spans: seq<Run<Author>> := [Delete(Flat(cells))], [];
      assert OldSide(script) == Flat(cells) && NewSide(script) == [] by {
        assert script[1..] == [];
      }
      TextFits(cells);
      assert Replay(cells, 0, script, spans, 0) == cells[|Flat(cells)|..] by {
        assert script[1..] == [];
        assert cells[..0] + cells[|Flat(cells)|..] == cells[|Flat(cells)|..];
      }
      TextLeftBehind(cells);
      assert !Lands(cells, script, spans);
    }
  }

  lemma LandsWhenTrailing<B>(cells: seq<DocCell<B>>, script: seq<Change<B>>, spans: seq<Run<Author>>)
    requires EmbedsTrail(cells) && OldSide(script) == Flat(cells)
    ensures Lands(cells, script, spans)
    ensures var n := |Flat(cells)|;
      && n <= |cells|
      && Replay(cells, 0, script, spans, 0) == Landed(cells[..n], script, spans, 0) + cells[n..]
  {
    hide OldSide, NewSide, Flat, Replay, Landed, EmbedsTrail;
    TrailingSplit(cells);
    var n := |Flat(cells)|;
    var body, tail := cells[..n], cells[n..];
    assert [] + body + tail == cells;
    ReplayLands([], body, tail, script, spans, 0);
    LandedText(body, script, spans, 0);
    assert [] + Landed(body, script, spans, 0) == Landed(body, script, spans, 0);
    FlatAppend(Landed(body, script, spans, 0), tail);
    assert NewSide(script) + [] == NewSide(script);
  }

  lemma TextLeftBehind<B, S>(cells: seq<Cell<B, S>>)
    ensures |Flat(cells)| <= |cells|
    ensures Flat(cells[|Flat(cells)|..]) == [] ==> EmbedsTrail(cells)
  {
    hide Flat;
    TextFits(cells);
    var n := |Flat(cells)|;
    assert cells == cells[..n] + cells[n..];
    FlatAppend(cells[..n], cells[n..]);
    if Flat(cells[n..]) == [] {
      FullText(cells[..n]);
      forall i | 0 <= i < n
        ensures cells[i].Text?
      {
        assert cells[..n][i].Text?;
      }
      forall i, j | 0 <= i < j < |cells| && cells[i].Embed?
        ensures cells[j].Embed?
      {
        NoTextMeansEmbeds(cells[n..], j - n);
        assert cells[j] == cells[n..][j - n];
      }
    }
  }

  lemma {:induction false} NoTextMeansEmbeds<B, S>(cells: seq<Cell<B, S>>, i: nat)
    requires i < |cells| && Flat(cells) == []
    ensures cells[i].Embed?
  {
    if i == 0 {
    } else {
      NoTextMeansEmbeds(cells[1..], i - 1);
    }
  }

  lemma {:induction false} FullText<B, S>(cells: seq<Cell<B, S>>)
    ensures |Flat(cells)| <= |cells|
    ensures |Flat(cells)| == |cells| ==> AllText(cells)
  {
    if cells == [] {
    } else {
      FullText(cells[1..]);
      if |Flat(cells)| == |cells| {
        forall i | 0 <= i < |cells|
          ensures cells[i].Text?
        {
          assert i > 0 ==> cells[i] == cells[1..][i-1];
        }
      }
    }
  }

  /** Where it lands, what each byte carries: it is the surviving cell it aligns with, or was
      typed by the author its offset has in the tiling, by nobody past its end. */
  lemma ReconcileAuthorship<B>(cells: seq<DocCell<B>>, script: seq<Change<B>>, spans: seq<Run<Author>>,
                               boundary: nat -> bool, k: nat)
    requires EmbedsTrail(cells) && OldSide(script) == Flat(cells)
    requires NoEmptySpan(spans) && Cuttable(spans, 0, |NewSide(script)|, boundary) && Characters(script, 0, boundary)
    requires k < |NewSide(script)|
    ensures |OldSide(script)| <= |cells| && k < |Replay(cells, 0, script, spans, 0)|
    ensures CellFollows(Replay(cells, 0, script, spans, 0)[k], Alignment(script, 0)[k], NewSide(script)[k], 0,
                        cells[..|Flat(cells)|], ByteAuthor(spans, k))
  {
    hide OldSide, NewSide, Flat, Replay, Landed, EmbedsTrail, ByteAuthor, Alignment, CellFollows, Characters, Cuttable;
    LandsWhenTrailing(cells, script, spans);
    TrailingSplit(cells);
    LandedCells(cells[..|Flat(cells)|], script, spans, |NewSide(script)|, boundary, 0, 0, k);
  }
}
