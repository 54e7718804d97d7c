/** A file's byte-range authorship map, as stored with each content version. */
module BlameMaps {
  import opened Tilings
  import opened Authorship

  type BlameMap = seq<Run<Author>>

  // ----- building and slicing

  /** Build a map from spans: empty ones dropped, neighbours by one author merged. */
  method FromSpans(spans: seq<Run<Author>>) returns (map_: BlameMap)
    ensures Canonical(map_) && Expand(map_) == Expand(spans)
    ensures map_ == Coalesce(spans)
  {
    hide Expand, Canonical, Push;
    map_ := [];
    assert spans[..0] == [];
    for k := 0 to |spans|
      invariant map_ == Coalesce(spans[..k])
    {
      CoalesceStep(spans, k);
      map_ := Push(map_, spans[k].stamp, spans[k].len);
    }
    assert spans[..|spans|] == spans;
    ExpandCoalesce(spans);
  }

  lemma CoalesceStep(spans: seq<Run<Author>>, k: nat)
    requires k < |spans|
    ensures Coalesce(spans[..k+1]) == Push(Coalesce(spans[..k]), spans[k].stamp, spans[k].len)
  {
    assert spans[..k+1][..k] == spans[..k];
  }

  /** The part of a sequence inside a window. */
  ghost function Clip<S>(s: seq<S>, start: nat, len: nat): seq<S> {
    s[Min(start, |s|)..Min(start + len, |s|)]
  }

  /** Appending one run appends its overlap with the window. */
  lemma ClipPush<S>(s: seq<S>, stamp: S, n: nat, start: nat, len: nat)
    ensures var from, to := Max(|s|, start), Min(|s| + n, start + len);
      Clip(s + Repeat(stamp, n), start, len) == Clip(s, start, len) + Repeat(stamp, if from < to then to - from else 0)
  {
    hide Repeat;
  }

  lemma ClipPrefix<S>(a: seq<S>, b: seq<S>, start: nat, len: nat)
    requires start + len <= |a|
    ensures Clip(a + b, start, len) == Clip(a, start, len)
  {
  }

  /** The spans covering a byte window, clipped to it. */
  method Slice(map_: BlameMap, start: nat, len: nat) returns (out: seq<Run<Author>>)
    ensures Expand(out) == Clip(Expand(map_), start, len)
    ensures forall i | 0 <= i < |out| :: out[i].len > 0
  {
    hide Expand, Total, Clip, Repeat;
    out := [];
    var end, pos: nat := start + len, 0;
    ExpandEmpty<Author>();
    ClipEmpty<Author>(start, len);
    TotalWhole(map_, 0);
    assert map_[..0] == [];
    for k := 0 to |map_|
      invariant pos == Total(map_[..k]) == |Expand(map_[..k])|
      invariant Expand(out) == Clip(Expand(map_[..k]), start, len)
      invariant forall i | 0 <= i < |out| :: out[i].len > 0
    {
      var r := map_[k];
      var rend := pos + r.len;
      TotalPrefix(map_, k);
      ExpandPrefix(map_, k);
      ExpandLength(map_[..k+1]);
      ClipPush(Expand(map_[..k]), r.stamp, r.len, start, len);
      var s := if pos < start then start else pos;
      var e := if rend < end then rend else end;
      if s < e {
        ExpandAppend(out, [Run(r.stamp, e - s)]);
        ExpandOne(Run(r.stamp, e - s));
        out := out + [Run(r.stamp, e - s)];
      } else {
        RepeatStep(r.stamp, 0);
        assert Clip(Expand(map_[..k]), start, len) + [] == Clip(Expand(map_[..k]), start, len);
      }
      pos := rend;
      if rend >= end {
        ExpandSplit(map_, k + 1);
        ClipPrefix(Expand(map_[..k+1]), Expand(map_[k+1..]), start, len);
        return;
      }
    }
    assert map_[..|map_|] == map_;
  }

  lemma ClipEmpty<S>(start: nat, len: nat)
    ensures Clip<S>([], start, len) == []
  {
  }

  // ----- what a write changed, and the op-log rows it gets

  /** A run and the offset it starts at. */
  datatype Placed = Placed(start: nat, run: Run<Author>)

  ghost function Place(map_: BlameMap, at: nat): seq<Placed> {
    if map_ == [] then [] else [Placed(at, map_[0])] + Place(map_[1..], at + map_[0].len)
  }

  /** The runs that do not stand, at the same offset with the same author and length,
      among the prior ones; in byte order. */
  ghost function Unseen(placed: seq<Placed>, prior: seq<Placed>): (r: seq<Placed>)
    ensures forall p :: p in r <==> p in placed && p !in prior
  {
    if placed == [] then []
    else (if placed[0] in prior then [] else [placed[0]]) + Unseen(placed[1..], prior)
  }

  method ChangedSince(map_: BlameMap, prior: BlameMap) returns (out: seq<Placed>)
    ensures out == Unseen(Place(map_, 0), Place(prior, 0))
  {
    hide Place, Unseen;
    var seen: set<Placed>, at: nat := {}, 0;
    NothingPlaced(0);
    assert prior[0..] == prior;
    for k := 0 to |prior|
      invariant forall p :: p in Place(prior, 0) <==> p in seen || p in Place(prior[k..], at)
    {
      PlaceStep(prior, k, at);
      seen := seen + {Placed(at, prior[k])};
      at := at + prior[k].len;
    }
    assert prior[|prior|..] == [];
    NothingPlaced(at);
    assert forall p :: p in Place(prior, 0) <==> p in seen;
    out, at := [], 0;
    assert map_[0..] == map_;
    ghost var goal := Unseen(Place(map_, 0), Place(prior, 0));
    assert [] + goal == goal;
    for k := 0 to |map_|
      invariant out + Unseen(Place(map_[k..], at), Place(prior, 0)) == goal
    {
      PlaceStep(map_, k, at);
      ghost var p, later := Placed(at, map_[k]), Place(map_[k+1..], at + map_[k].len);
      UnseenStep(p, later, Place(prior, 0));
      if Placed(at, map_[k]) !in seen {
        Concat3(out, [p], Unseen(later, Place(prior, 0)));
        out := out + [Placed(at, map_[k])];
      }
      at := at + map_[k].len;
    }
    assert map_[|map_|..] == [];
    NothingPlaced(at);
    NothingUnseen(Place(prior, 0));
    assert out + [] == out;
  }

  lemma UnseenStep(p: Placed, later: seq<Placed>, prior: seq<Placed>)
    ensures Unseen([p] + later, prior) == if p in prior then Unseen(later, prior) else [p] + Unseen(later, prior)
  {
    assert ([p] + later)[1..] == later;
    assert [] + Unseen(later, prior) == Unseen(later, prior);
  }

  lemma NothingUnseen(prior: seq<Placed>)
    ensures Unseen([], prior) == []
  {
  }

  lemma NothingPlaced(at: nat)
    ensures Place([], at) == []
  {
  }

  lemma PlaceStep(map_: BlameMap, k: nat, at: nat)
    requires k < |map_|
    ensures Place(map_[k..], at) == [Placed(at, map_[k])] + Place(map_[k+1..], at + map_[k].len)
  {
    assert map_[k..][0] == map_[k] && map_[k..][1..] == map_[k+1..];
  }

  /** A placed run covers the bytes it says, under its author. */
  lemma {:induction false} PlacedCovers(map_: BlameMap, at: nat, p: Placed, k: nat)
    requires p in Place(map_, at)
    requires p.start <= k < p.start + p.run.len
    ensures at <= k < at + |Expand(map_)| && Expand(map_)[k - at] == p.run.stamp
  {
    if p != Placed(at, map_[0]) {
      PlacedCovers(map_[1..], at + map_[0].len, p, k);
    }
  }

  lemma {:induction false} RunAtByte(map_: BlameMap, at: nat, k: nat) returns (p: Placed)
    requires at <= k < at + |Expand(map_)|
    ensures p in Place(map_, at)
    ensures p.start <= k < p.start + p.run.len && p.run.stamp == Expand(map_)[k - at]
  {
    if k < at + map_[0].len {
      p := Placed(at, map_[0]);
    } else {
      p := RunAtByte(map_[1..], at + map_[0].len, k);
    }
  }

  ghost predicate NamesByte(p: Placed, k: nat, author: Author) {
    p.start <= k < p.start + p.run.len && p.run.stamp == author
  }

  /** No byte whose author differs from the prior map's at that offset is missed. */
  lemma ChangedBytesAreListed(map_: BlameMap, prior: BlameMap, k: nat)
    requires k < |Expand(map_)|
    requires k < |Expand(prior)| ==> Expand(prior)[k] != Expand(map_)[k]
    ensures exists p :: p in Unseen(Place(map_, 0), Place(prior, 0)) && NamesByte(p, k, Expand(map_)[k])
  {
    hide Place;
    var p := RunAtByte(map_, 0, k);
    if p in Place(prior, 0) {
      PlacedCovers(prior, 0, p, k);
    }
    assert p in Unseen(Place(map_, 0), Place(prior, 0)) && NamesByte(p, k, Expand(map_)[k]);
  }

  /** The most op-log rows one checkpoint writes for its contributors' runs. */
  const OP_ROWS_MAX := 256

  ghost function Contributors(placed: seq<Placed>): set<Author> {
    set p | p in placed :: p.run.stamp
  }

  lemma ContributorsAppend(placed: seq<Placed>, p: Placed)
    ensures Contributors(placed + [p]) == Contributors(placed) + {p.run.stamp}
  {
    forall q | q in placed + [p]
      ensures q in placed || q == p
    {
    }
    forall q | q in placed || q == p
      ensures q in placed + [p]
    {
      assert (placed + [p])[|placed|] == p;
    }
  }

  /** No earlier run is by the same author. */
  ghost predicate IsFirst(changed: seq<Placed>, k: nat)
    requires k < |changed|
  {
    forall j | 0 <= j < k :: changed[j].run.stamp != changed[k].run.stamp
  }

  /** Every contributor's first run among the first `n`. */
  ghost predicate FirstsIn(changed: seq<Placed>, n: nat, rows: seq<Placed>)
    requires n <= |changed|
  {
    forall k | 0 <= k < n && IsFirst(changed, k) :: changed[k] in rows
  }

  lemma NoneFirst(changed: seq<Placed>)
    ensures FirstsIn(changed, 0, [])
  {
  }

  lemma FirstsMore(changed: seq<Placed>, k: nat, first: seq<Placed>)
    requires k < |changed| && FirstsIn(changed, k, first)
    ensures FirstsIn(changed, k + 1, first + [changed[k]])
    ensures changed[k].run.stamp in Contributors(changed[..k]) ==> FirstsIn(changed, k + 1, first)
  {
    assert (first + [changed[k]])[|first|] == changed[k];
  }

  lemma FirstsStay(changed: seq<Placed>, first: seq<Placed>, rows: seq<Placed>)
    requires FirstsIn(changed, |changed|, first) && first <= rows
    ensures FirstsIn(changed, |changed|, rows)
  {
    forall p | p in first ensures p in rows {
      var i :| 0 <= i < |first| && first[i] == p;
      assert rows[i] == p;
    }
  }

  /** Every contributor's first run, then as many further runs as the budget allows. */
  method OpRows(changed: seq<Placed>) returns (rows: seq<Placed>)
    ensures Contributors(rows) == Contributors(changed)
    ensures |rows| == Min(|changed|, Max(256, |Contributors(changed)|))
    ensures FirstsIn(changed, |changed|, rows)
    ensures multiset(rows) <= multiset(changed)
    ensures |changed| <= OP_ROWS_MAX ==> multiset(rows) == multiset(changed)
  {
    hide Contributors, FirstsIn;
    var seen: set<Author> := {};
    var first: seq<Placed>, rest: seq<Placed> := [], [];
    NoContributors();
    NoneFirst(changed);
    assert changed[..0] == [];
    for k := 0 to |changed|
      invariant seen == Contributors(first) == Contributors(changed[..k])
      invariant |first| == |seen|
      invariant multiset(first) + multiset(rest) == multiset(changed[..k])
      invariant FirstsIn(changed, k, first)
    {
      var entry := changed[k];
      assert changed[..k+1] == changed[..k] + [entry];
      ContributorsAppend(changed[..k], entry);
      FirstsMore(changed, k, first);
      if entry.run.stamp !in seen {
        ContributorsAppend(first, entry);
        seen := seen + {entry.run.stamp};
        first := first + [entry];
      } else {
        rest := rest + [entry];
      }
    }
    assert changed[..|changed|] == changed;
    var budget := if |first| < OP_ROWS_MAX then OP_ROWS_MAX - |first| else 0;
    rows := first + if |rest| < budget then rest else rest[..budget];
    BudgetKept(first, rest, changed, rows);
    ContributorsOfSome(changed, rows, first);
    FirstsStay(changed, first, rows);
  }

  lemma BudgetKept(first: seq<Placed>, rest: seq<Placed>, changed: seq<Placed>, rows: seq<Placed>)
    requires multiset(first) + multiset(rest) == multiset(changed)
    requires var budget := if |first| < OP_ROWS_MAX then OP_ROWS_MAX - |first| else 0;
      rows == first + if |rest| < budget then rest else rest[..budget]
    ensures multiset(rows) <= multiset(changed)
    ensures |rows| == Min(|changed|, Max(OP_ROWS_MAX, |first|)) && first <= rows
    ensures |changed| <= OP_ROWS_MAX ==> multiset(rows) == multiset(changed)
  {
    var taken := rows[|first|..];
    assert rows == first + taken;
    assert rest == taken + rest[|taken|..];
    assert |multiset(first)| + |multiset(rest)| == |multiset(changed)|;
  }

  lemma NoContributors()
    ensures Contributors([]) == {}
  {
  }

  lemma ContributorsOfSome(changed: seq<Placed>, rows: seq<Placed>, first: seq<Placed>)
    requires multiset(rows) <= multiset(changed) && first <= rows
    requires Contributors(first) == Contributors(changed)
    ensures Contributors(rows) == Contributors(changed)
  {
    forall p | p in rows
      ensures p in changed
    {
      assert p in multiset(rows);
    }
    forall p | p in first
      ensures p in rows
    {
      var i :| 0 <= i < |first| && first[i] == p;
      assert rows[i] == p;
    }
  }

  /** The author of every changed byte has at least one row. */
  lemma NoContributorIsLost(map_: BlameMap, prior: BlameMap, rows: seq<Placed>, k: nat)
    requires Contributors(rows) == Contributors(Unseen(Place(map_, 0), Place(prior, 0)))
    requires k < |Expand(map_)|
    requires k < |Expand(prior)| ==> Expand(prior)[k] != Expand(map_)[k]
    ensures exists row :: row in rows && row.run.stamp == Expand(map_)[k]
  {
    hide Place;
    ChangedBytesAreListed(map_, prior, k);
    var p :| p in Unseen(Place(map_, 0), Place(prior, 0)) && NamesByte(p, k, Expand(map_)[k]);
    assert p.run.stamp in Contributors(rows);
  }
}
