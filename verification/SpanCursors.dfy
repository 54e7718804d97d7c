/** Looking authors up in a span tiling at offsets that only move forward. */
module SpanCursors {
  import opened Tilings
  import opened Authorship
  import opened CoeditStamps

  datatype Pos = Pos(at: nat, used: nat)

  ghost predicate IsPos(spans: seq<Run<Author>>, pos: Pos) {
    pos.at <= |spans| && (if pos.at < |spans| then pos.used <= spans[pos.at].len else pos.used == 0)
  }

  /** Where `left` more bytes lead. A move ends as soon as the bytes are spent, so an
      empty span is only ever stepped over by a later move. */
  ghost function Walk(spans: seq<Run<Author>>, pos: Pos, left: nat): (r: Pos)
    requires IsPos(spans, pos)
    ensures IsPos(spans, r)
    decreases left, |spans| - pos.at
  {
    if left == 0 || pos.at == |spans| then pos
    else
      var room := spans[pos.at].len - pos.used;
      if left < room then Pos(pos.at, pos.used + left)
      else Walk(spans, Pos(pos.at + 1, 0), left - room)
  }

  ghost function AuthorHere(spans: seq<Run<Author>>, pos: Pos): Author {
    if pos.at < |spans| then spans[pos.at].stamp else NOBODY
  }

  /** The author reported after advancing `off` bytes from the start. */
  ghost function AuthorAt(spans: seq<Run<Author>>, off: nat): Author {
    AuthorHere(spans, Walk(spans, Pos(0, 0), off))
  }

  class SpanCursor {
    const spans: seq<Run<Author>>
    var at: nat
    var used: nat

    ghost predicate Valid()
      reads this
    {
      IsPos(spans, Pos(at, used))
    }

    constructor (spans: seq<Run<Author>>)
      ensures Valid() && this.spans == spans && at == used == 0
    {
      this.spans := spans;
      at, used := 0, 0;
    }

    method Author() returns (author: Author)
      requires Valid()
      ensures author == AuthorHere(spans, Pos(at, used))
    {
      author := if at < |spans| then spans[at].stamp else NOBODY;
    }

    method Advance(bytes: nat)
      requires Valid()
      modifies this
      ensures Valid() && Pos(at, used) == Walk(spans, old(Pos(at, used)), bytes)
    {
      var left: nat := bytes;
      ghost var goal := Walk(spans, Pos(at, used), bytes);
      while left > 0
        invariant Valid() && goal == Walk(spans, Pos(at, used), left)
        decreases left, |spans| - at
      {
        if at == |spans| {
          return;
        }
        var len := spans[at].len;
        var take := if left < len - used then left else len - used;
        used := used + take;
        left := left - take;
        if used == len {
          at := at + 1;
          used := 0;
        }
      }
    }
  }

  /** Two moves are one. */
  lemma {:induction false} WalkTwice(spans: seq<Run<Author>>, pos: Pos, a: nat, b: nat)
    requires IsPos(spans, pos)
    ensures Walk(spans, Walk(spans, pos, a), b) == Walk(spans, pos, a + b)
    decreases a, |spans| - pos.at
  {
    if a > 0 && pos.at < |spans| {
      var room := spans[pos.at].len - pos.used;
      if a >= room {
        WalkTwice(spans, Pos(pos.at + 1, 0), a - room, b);
      }
    }
  }

  /** Where a walk can stop: inside a span, at the end, or at the start of a span
      whose predecessor is not empty (and then the span itself may be). */
  ghost predicate IsStop(spans: seq<Run<Author>>, pos: Pos) {
    && IsPos(spans, pos)
    && (pos.at < |spans| ==> pos.used < spans[pos.at].len || pos.used == 0)
    && (pos.used == 0 && 0 < pos.at < |spans| && spans[pos.at].len == 0 ==> spans[pos.at-1].len > 0)
  }

  lemma {:induction false} WalkStops(spans: seq<Run<Author>>, pos: Pos, left: nat)
    requires IsPos(spans, pos) && (pos.at < |spans| ==> pos.used < spans[pos.at].len || pos.used == 0)
    requires left == 0 ==> IsStop(spans, pos)
    requires Total(spans[..pos.at]) + pos.used + left < Total(spans)
    ensures var r := Walk(spans, pos, left);
      IsStop(spans, r) && r.at < |spans| && Total(spans[..r.at]) + r.used == Total(spans[..pos.at]) + pos.used + left
    decreases left, |spans| - pos.at
  {
    TotalWhole(spans, pos.at);
    if left == 0 {
    } else {
      var room := spans[pos.at].len - pos.used;
      TotalPrefix(spans, pos.at);
      if left >= room {
        WalkStops(spans, Pos(pos.at + 1, 0), left - room);
      }
    }
  }

  /** A walk does stop at every span that starts after a non-empty one. */
  lemma {:induction false} WalkReaches(spans: seq<Run<Author>>, from: nat, a: nat)
    requires from <= a <= |spans|
    requires a == from || spans[a-1].len > 0
    ensures Total(spans[..from]) <= Total(spans[..a])
    ensures Walk(spans, Pos(from, 0), Total(spans[..a]) - Total(spans[..from])) == Pos(a, 0)
    decreases a - from
  {
    if from < a {
      TotalPrefix(spans, from);
      WalkReaches(spans, from + 1, a);
      TotalPositive(spans, from + 1, a);
    }
  }

  lemma {:induction false} TotalPositive(spans: seq<Run<Author>>, from: nat, a: nat)
    requires from <= a <= |spans|
    ensures Total(spans[..from]) <= Total(spans[..a])
    ensures from < a && spans[a-1].len > 0 ==> Total(spans[..from]) < Total(spans[..a])
    decreases a - from
  {
    if from < a {
      TotalPrefix(spans, a - 1);
      TotalPositive(spans, from, a - 1);
    }
  }

  /** A span that opens the tiling, or follows a non-empty one, names the author of
      the byte it stands before. */
  ghost predicate AgreesAt(spans: seq<Run<Author>>, a: nat)
    requires a < |spans|
  {
    ((a == 0 || spans[a-1].len > 0) && Total(spans[..a]) < |Expand(spans)|) ==>
      spans[a].stamp == Expand(spans)[Total(spans[..a])]
  }

  /** No empty span misleads. */
  ghost predicate EmptySpansAgree(spans: seq<Run<Author>>) {
    forall a: nat | a < |spans| :: AgreesAt(spans, a)
  }

  /** The cursor names every byte's author. */
  ghost predicate CursorExact(spans: seq<Run<Author>>) {
    forall off: nat | off < |Expand(spans)| :: AuthorAt(spans, off) == Expand(spans)[off]
  }

  /** It does exactly when no empty span misleads. */
  lemma CursorExactIff(spans: seq<Run<Author>>)
    ensures CursorExact(spans) <==> EmptySpansAgree(spans)
  {
    hide Expand, Walk, Total;
    if EmptySpansAgree(spans) {
      forall off: nat | off < |Expand(spans)|
        ensures AuthorAt(spans, off) == Expand(spans)[off]
      {
        AuthorAtStop(spans, off);
      }
    }
    if CursorExact(spans) {
      forall a: nat | a < |spans|
        ensures AgreesAt(spans, a)
      {
        if (a == 0 || spans[a-1].len > 0) && Total(spans[..a]) < |Expand(spans)| {
          WalkReaches(spans, 0, a);
          TotalWhole(spans, 0);
          assert AuthorAt(spans, Total(spans[..a])) == spans[a].stamp;
        }
      }
    }
  }

  lemma AuthorAtStop(spans: seq<Run<Author>>, off: nat)
    requires EmptySpansAgree(spans) && off < |Expand(spans)|
    ensures AuthorAt(spans, off) == Expand(spans)[off]
  {
    hide Expand, Walk, Total;
    TotalWhole(spans, 0);
    WalkStops(spans, Pos(0, 0), off);
    var r := Walk(spans, Pos(0, 0), off);
    assert AgreesAt(spans, r.at);
    if r.used < spans[r.at].len {
      ExpandAt(spans, r.at, r.used);
    }
  }

  ghost predicate NoEmptySpan(spans: seq<Run<Author>>) {
    forall a | 0 <= a < |spans| :: spans[a].len > 0
  }

  /** In particular when there is no empty span at all. */
  lemma NoEmptySpanIsExact(spans: seq<Run<Author>>)
    requires NoEmptySpan(spans)
    ensures EmptySpansAgree(spans)
  {
    forall a: nat | a < |spans|
      ensures AgreesAt(spans, a)
    {
      ExpandAt(spans, a, 0);
    }
  }

  /** One that misleads: an empty span in front gives the first byte its author. */
  lemma EmptySpanMisleads()
    ensures var spans := [Run(Author(1, 0), 0), Run(Author(2, 0), 1)];
      && |Expand(spans)| == 1 && Expand(spans)[0] == Author(2, 0)
      && AuthorAt(spans, 0) == Author(1, 0) && !CursorExact(spans)
  {
    hide CursorExact;
    var spans := [Run(Author(1, 0), 0), Run(Author(2, 0), 1)];
    ExpandAt(spans, 1, 0);
    ExpandLength(spans);
    assert spans[..1] == [spans[0]] && spans[1..] == [spans[1]] && spans[..1][1..] == [] && spans[1..][1..] == [];
    assert Walk(spans, Pos(0, 0), 0) == Pos(0, 0);
    Misled(spans, 0);
  }

  lemma Misled(spans: seq<Run<Author>>, off: nat)
    requires off < |Expand(spans)| && AuthorAt(spans, off) != Expand(spans)[off]
    ensures !CursorExact(spans)
  {
  }

  // ----- bytes past the tiling

  /** The author of a byte: nobody past the end of the tiling. */
  ghost function ByteAuthor(spans: seq<Run<Author>>, k: nat): Author {
    if k < |Expand(spans)| then Expand(spans)[k] else NOBODY
  }

  /** Without empty spans the cursor names nobody past the end. */
  lemma CursorPadded(spans: seq<Run<Author>>, off: nat)
    requires NoEmptySpan(spans)
    ensures AuthorAt(spans, off) == ByteAuthor(spans, off)
  {
    hide Expand, Walk, Total;
    ExpandLength(spans);
    if off < |Expand(spans)| {
      NoEmptySpanIsExact(spans);
      CursorExactIff(spans);
    } else {
      var n := |spans|;
      WalkReaches(spans, 0, n);
      assert spans[..n] == spans;
      NothingTotalled(spans);
      WalkTwice(spans, Pos(0, 0), Total(spans), off - Total(spans));
      AtTheEnd(spans, off - Total(spans));
    }
  }

  lemma NothingTotalled(spans: seq<Run<Author>>)
    ensures Total(spans[..0]) == 0
  {
  }

  lemma AtTheEnd(spans: seq<Run<Author>>, left: nat)
    ensures Walk(spans, Pos(|spans|, 0), left) == Pos(|spans|, 0)
  {
  }

  /** Spans can be cut out of a text of `len` bytes: each ends at a character boundary
      inside it. */
  ghost predicate Cuttable(spans: seq<Run<Author>>, from: nat, len: nat, boundary: nat -> bool) {
    spans != [] ==>
      && from + spans[0].len <= len && boundary(from + spans[0].len)
      && Cuttable(spans[1..], from + spans[0].len, len, boundary)
  }

  /** Every span ends inside the text, where a character does. */
  lemma {:induction false} CuttableIff(spans: seq<Run<Author>>, from: nat, len: nat, boundary: nat -> bool)
    ensures Cuttable(spans, from, len, boundary) <==>
      forall i | 0 < i <= |spans| :: var end := from + Total(spans[..i]); end <= len && boundary(end)
    decreases |spans|
  {
    hide Total;
    if spans == [] {
    } else {
      CuttableIff(spans[1..], from + spans[0].len, len, boundary);
      forall i | 0 < i <= |spans| ensures Total(spans[..i]) == spans[0].len + Total(spans[1..][..i-1]) {
        FirstThenRest(spans, i);
      }
      FirstThenRest(spans, 1);
      NoRuns<Author>();
      assert spans[1..][..0] == [];
      if Cuttable(spans, from, len, boundary) {
        forall i | 0 < i <= |spans|
          ensures var end := from + Total(spans[..i]); end <= len && boundary(end)
        {
          if i > 1 {
            assert Total(spans[..i]) == spans[0].len + Total(spans[1..][..i-1]);
          }
        }
      }
      if forall i | 0 < i <= |spans| :: var end := from + Total(spans[..i]); end <= len && boundary(end) {
        forall i | 0 < i <= |spans[1..]|
          ensures var end := from + spans[0].len + Total(spans[1..][..i]); end <= len && boundary(end)
        {
          assert Total(spans[..i+1]) == spans[0].len + Total(spans[1..][..i]);
        }
        assert from + Total(spans[..1]) <= len;
      }
    }
  }

  lemma NoRuns<S>()
    ensures Total<S>([]) == 0
  {
  }

  lemma FirstThenRest<S>(runs: seq<Run<S>>, i: nat)
    requires 0 < i <= |runs|
    ensures Total(runs[..i]) == runs[0].len + Total(runs[1..][..i-1])
  {
    assert runs[..i][1..] == runs[1..][..i-1];
  }

  /** Bytes with no boundary between them have one author. */
  lemma {:induction false} OneCharacterOneAuthor(spans: seq<Run<Author>>, from: nat, len: nat, boundary: nat -> bool,
                                                 a: nat, b: nat)
    requires Cuttable(spans, from, len, boundary) && a <= b
    requires forall m | from + a < m <= from + b :: !boundary(m)
    ensures ByteAuthor(spans, a) == ByteAuthor(spans, b)
    decreases |spans|
  {
    hide Expand, ByteAuthor;
    if spans == [] {
      NobodyThere(spans, a);
      NobodyThere(spans, b);
    } else {
      var n := spans[0].len;
      ByteAuthorStep(spans, a);
      ByteAuthorStep(spans, b);
      if n <= a {
        OneCharacterOneAuthor(spans[1..], from + n, len, boundary, a - n, b - n);
      }
    }
  }

  lemma NobodyThere(spans: seq<Run<Author>>, k: nat)
    requires spans == []
    ensures ByteAuthor(spans, k) == NOBODY
  {
  }

  lemma ByteAuthorStep(spans: seq<Run<Author>>, k: nat)
    requires spans != []
    ensures ByteAuthor(spans, k)
         == if k < spans[0].len then spans[0].stamp else ByteAuthor(spans[1..], k - spans[0].len)
  {
  }
}
