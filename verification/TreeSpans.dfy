/** Turning a host's span map over a serialized tree into an authorship tiling. */
module TreeSpans {
  import opened Tilings
  import opened Authorship

  type Node = string

  /** Bytes `start` to `end` were produced from `node`. */
  datatype TreeSpan = TreeSpan(start: nat, end: nat, node: Node)

  datatype Tiled = Tiling(spans: seq<Run<Author>>) | Refused

  // ----- who a node id stands for

  /** One claim of a node id for an author. */
  datatype Claim = Claim(node: Node, author: Author)

  ghost predicate Claims(claims: seq<Claim>, node: Node, author: Author) {
    Claim(node, author) in claims
  }

  /** The author of each node id; an id claimed for two authors stands for nobody. */
  method NodeAuthors(claims: seq<Claim>) returns (authors: map<Node, Author>)
    ensures forall node, author :: node in authors && authors[node] == author <==>
      Claims(claims, node, author) && forall other :: Claims(claims, node, other) ==> other == author
  {
    var first: map<Node, Author>, poisoned: set<Node> := map[], {};
    for k := 0 to |claims|
      invariant forall node :: node in first ==> Claims(claims[..k], node, first[node])
      invariant forall node, author :: Claims(claims[..k], node, author) ==>
        node in first && (author == first[node] || node in poisoned)
      invariant forall node :: node in poisoned ==>
        node in first && exists author :: Claims(claims[..k], node, author) && author != first[node]
    {
      var claim := claims[k];
      ghost var seen, more := claims[..k], claims[..k+1];
      assert more == seen + [claim];
      ghost var first0, poisoned0 := first, poisoned;
      if claim.node in first && first[claim.node] != claim.author {
        poisoned := poisoned + {claim.node};
        assert Claims(more, claim.node, claim.author);
      } else {
        first := first[claim.node := claim.author];
      }
      forall node, author | Claims(more, node, author)
        ensures node in first && (author == first[node] || node in poisoned)
      {
        assert Claims(seen, node, author) || Claim(node, author) == claim;
      }
      forall node | node in poisoned
        ensures node in first && exists author :: Claims(more, node, author) && author != first[node]
      {
        if node in poisoned0 {
          var author :| Claims(seen, node, author) && author != first0[node];
          assert Claims(more, node, author);
        } else {
          assert Claims(more, node, claim.author);
        }
      }
      forall node | node in first
        ensures Claims(more, node, first[node])
      {
        assert node in first0 && first0[node] == first[node] ==> Claims(seen, node, first[node]);
      }
    }
    assert claims[..|claims|] == claims;
    authors := map node | node in first && node !in poisoned :: first[node];
  }

  // ----- tiling the body

  ghost predicate Ordered(spans: seq<TreeSpan>, at: nat, len: nat, boundary: nat -> bool) {
    spans != [] ==>
      && at <= spans[0].start <= spans[0].end <= len
      && boundary(spans[0].start) && boundary(spans[0].end)
      && Ordered(spans[1..], spans[0].end, len, boundary)
  }

  /** Spans are accepted when each runs forward inside the body, ends where characters do, and
      begins no earlier than the one before ended. */
  lemma {:induction false} OrderedIff(spans: seq<TreeSpan>, at: nat, len: nat, boundary: nat -> bool)
    ensures Ordered(spans, at, len, boundary) <==>
      && (forall i | 0 <= i < |spans| ::
            at <= spans[i].start <= spans[i].end <= len && boundary(spans[i].start) && boundary(spans[i].end))
      && (forall i | 0 < i < |spans| :: spans[i-1].end <= spans[i].start)
    decreases |spans|
  {
    if spans == [] {
    } else {
      var rest := spans[1..];
      OrderedIff(rest, spans[0].end, len, boundary);
      assert forall i | 0 < i < |spans| :: spans[i] == rest[i-1];
      assert forall i | 0 <= i < |rest| :: rest[i] == spans[i+1];
      if forall i | 0 < i < |spans| :: spans[i-1].end <= spans[i].start {
        InSteps(spans);
      }
    }
  }

  /** Spans that each start after the last, and run forward, start after the first's end. */
  lemma {:induction false} InSteps(spans: seq<TreeSpan>)
    requires forall i | 0 < i < |spans| :: spans[i-1].end <= spans[i].start
    ensures (forall i | 0 <= i < |spans| :: spans[i].start <= spans[i].end) ==>
      forall i | 0 < i < |spans| :: spans[0].end <= spans[i].start
    decreases |spans|
  {
    if |spans| > 1 {
      var init := spans[..|spans|-1];
      InSteps(init);
      if forall i | 0 <= i < |spans| :: spans[i].start <= spans[i].end {
        assert forall i | 0 <= i < |init| :: init[i] == spans[i];
        assert |init| > 1 ==> spans[0].end <= init[|init|-1].start;
      }
    }
  }

  function AuthorOf(node: Node, authors: map<Node, Author>, fallback: Author): Author {
    if node in authors then authors[node] else fallback
  }

  /** The author of every byte from `at` on: the node's where a span covers it, the
      checkpointer's elsewhere. */
  ghost function SpanAuthors(spans: seq<TreeSpan>, at: nat, len: nat, authors: map<Node, Author>, fallback: Author,
                             boundary: nat -> bool): (r: seq<Author>)
    requires at <= len && Ordered(spans, at, len, boundary)
    ensures |r| == len - at
    decreases |spans|
  {
    if spans == [] then Repeat(fallback, len - at)
    else
      var s := spans[0];
      (Repeat(fallback, s.start - at) + Repeat(AuthorOf(s.node, authors, fallback), s.end - s.start))
      + SpanAuthors(spans[1..], s.end, len, authors, fallback, boundary)
  }

  /** Refuses spans that run backwards, overlap, leave the body or cut a character;
      otherwise tiles the whole body. */
  method TileSpans(len: nat, spans: seq<TreeSpan>, authors: map<Node, Author>, fallback: Author, boundary: nat -> bool)
    returns (r: Tiled)
    ensures r.Tiling? <==> Ordered(spans, 0, len, boundary)
    ensures r.Tiling? ==>
      && Expand(r.spans) == SpanAuthors(spans, 0, len, authors, fallback, boundary)
      && Canonical(r.spans) && Total(r.spans) == len
  {
    hide Expand, Canonical, Push, SpanAuthors, Repeat, Total;
    var out: seq<Run<Author>>, at: nat := [], 0;
    ExpandEmpty<Author>();
    assert spans[0..] == spans;
    if Ordered(spans, 0, len, boundary) {
      assert [] + SpanAuthors(spans, 0, len, authors, fallback, boundary)
          == SpanAuthors(spans, 0, len, authors, fallback, boundary);
    }
    for k := 0 to |spans|
      invariant at <= len && Canonical(out)
      invariant Ordered(spans, 0, len, boundary) <==> Ordered(spans[k..], at, len, boundary)
      invariant Ordered(spans, 0, len, boundary) ==>
        SpanAuthors(spans, 0, len, authors, fallback, boundary)
        == Expand(out) + SpanAuthors(spans[k..], at, len, authors, fallback, boundary)
    {
      var s := spans[k];
      assert spans[k..][0] == s && spans[k..][1..] == spans[k+1..];
      if s.end < s.start || s.start < at || s.end > len || !boundary(s.start) || !boundary(s.end) {
        return Refused;
      }
      var author := AuthorOf(s.node, authors, fallback);
      if Ordered(spans[k+1..], s.end, len, boundary) {
        SpanStep(spans[k..], at, len, authors, fallback, boundary);
        var gap, own := Repeat(fallback, s.start - at), Repeat(author, s.end - s.start);
        Concat3(Expand(out), gap + own, SpanAuthors(spans[k+1..], s.end, len, authors, fallback, boundary));
        Concat3(Expand(out), gap, own);
      }
      ExpandPush(out, fallback, s.start - at);
      out := Push(out, fallback, s.start - at);
      ExpandPush(out, author, s.end - s.start);
      out := Push(out, author, s.end - s.start);
      at := s.end;
    }
    assert spans[|spans|..] == [];
    SpanEnd(spans[|spans|..], at, len, authors, fallback, boundary);
    ExpandPush(out, fallback, len - at);
    out := Push(out, fallback, len - at);
    ExpandLength(out);
    r := Tiling(out);
  }

  lemma SpanStep(spans: seq<TreeSpan>, at: nat, len: nat, authors: map<Node, Author>, fallback: Author,
                 boundary: nat -> bool)
    requires at <= len && Ordered(spans, at, len, boundary) && spans != []
    ensures SpanAuthors(spans, at, len, authors, fallback, boundary)
         == (Repeat(fallback, spans[0].start - at)
             + Repeat(AuthorOf(spans[0].node, authors, fallback), spans[0].end - spans[0].start))
            + SpanAuthors(spans[1..], spans[0].end, len, authors, fallback, boundary)
  {
    hide Repeat, AuthorOf;
  }

  lemma SpanEnd(spans: seq<TreeSpan>, at: nat, len: nat, authors: map<Node, Author>, fallback: Author,
                boundary: nat -> bool)
    requires at <= len && spans == []
    ensures Ordered(spans, at, len, boundary)
    ensures SpanAuthors(spans, at, len, authors, fallback, boundary) == Repeat(fallback, len - at)
  {
  }

  /** A byte inside a span has its node's author; a byte no span covers has the
      checkpointer. */
  lemma {:induction false} SpanAuthorOfByte(spans: seq<TreeSpan>, at: nat, len: nat, authors: map<Node, Author>,
                                            fallback: Author, boundary: nat -> bool, k: nat)
    requires at <= k < len && Ordered(spans, at, len, boundary)
    ensures var author := SpanAuthors(spans, at, len, authors, fallback, boundary)[k - at];
      && (forall i | 0 <= i < |spans| && spans[i].start <= k < spans[i].end ::
            author == if spans[i].node in authors then authors[spans[i].node] else fallback)
      && ((forall i | 0 <= i < |spans| :: !(spans[i].start <= k < spans[i].end)) ==> author == fallback)
    decreases |spans|
  {
    hide SpanAuthors;
    if spans != [] {
      var s, rest := spans[0], spans[1..];
      SpanStep(spans, at, len, authors, fallback, boundary);
      if k >= s.end {
        SpanAuthorOfByte(rest, s.end, len, authors, fallback, boundary, k);
        assert forall i | 0 < i < |spans| :: spans[i] == rest[i-1];
        if forall i | 0 <= i < |spans| :: !(spans[i].start <= k < spans[i].end) {
          assert forall i | 0 <= i < |rest| :: rest[i] == spans[i+1];
        }
      } else {
        LaterSpansStartAfter(rest, s.end, len, boundary);
        assert forall i | 0 < i < |spans| :: spans[i] == rest[i-1];
        assert !(s.start <= k < s.end) ==> SpanAuthors(spans, at, len, authors, fallback, boundary)[k - at] == fallback;
      }
    } else {
      SpanEnd(spans, at, len, authors, fallback, boundary);
    }
  }

  lemma {:induction false} LaterSpansStartAfter(spans: seq<TreeSpan>, at: nat, len: nat, boundary: nat -> bool)
    requires Ordered(spans, at, len, boundary)
    ensures forall i | 0 <= i < |spans| :: spans[i].start >= at
    decreases |spans|
  {
    if spans == [] {
    } else {
      LaterSpansStartAfter(spans[1..], spans[0].end, len, boundary);
      assert forall i | 0 < i < |spans| :: spans[i] == spans[1..][i-1];
    }
  }
}
