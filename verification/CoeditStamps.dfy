/** The stamp arithmetic of server-owned authorship: which stamp every byte must
    carry after a client's update, and where the document disagrees. */
module CoeditStamps {
  import opened Tilings
  import opened EditScripts

  // ----- padded prefixes of a stamp sequence

  ghost function TakeOr<S>(stamps: seq<S>, n: nat, fallback: S): (r: seq<S>)
    ensures |r| == n
  {
    if n <= |stamps| then stamps[..n] else stamps + Repeat(fallback, n - |stamps|)
  }

  ghost function DropOr<S>(stamps: seq<S>, n: nat): seq<S> {
    if n <= |stamps| then stamps[n..] else []
  }

  /** The bytes a cursor standing `used` bytes into run `at` has yet to pass. */
  ghost function Ahead<S>(runs: seq<Run<S>>, at: nat, used: nat): seq<S>
    requires at <= |runs| && (if at < |runs| then used <= runs[at].len else used == 0)
  {
    if at == |runs| then [] else Repeat(runs[at].stamp, runs[at].len - used) + Expand(runs[at+1..])
  }

  lemma AheadOfNext<S>(runs: seq<Run<S>>, at: nat)
    requires at < |runs|
    ensures Ahead(runs, at, runs[at].len) == Ahead(runs, at + 1, 0) == Expand(runs[at+1..])
  {
    hide Expand, Repeat;
    if at + 1 < |runs| {
      ExpandHead(runs[at+1..]);
      assert runs[at+1..][1..] == runs[at+2..];
    } else {
      ExpandEmpty<S>();
      assert runs[at+1..] == [];
    }
  }

  lemma ExpandHead<S>(runs: seq<Run<S>>)
    requires runs != []
    ensures Expand(runs) == Repeat(runs[0].stamp, runs[0].len) + Expand(runs[1..])
  {
  }

  /** Passing `take` bytes of the current run splits them off what is ahead. */
  lemma AheadStep<S>(runs: seq<Run<S>>, at: nat, used: nat, take: nat, left: nat, fallback: S)
    requires at < |runs| && used + take <= runs[at].len && take <= left
    ensures DropOr(Ahead(runs, at, used), left) == DropOr(Ahead(runs, at, used + take), left - take)
    ensures TakeOr(Ahead(runs, at, used), left, fallback)
         == Repeat(runs[at].stamp, take) + TakeOr(Ahead(runs, at, used + take), left - take, fallback)
  {
    AheadSplit(runs, at, used, take);
    hide Ahead, Expand, TakeOr, DropOr;
    TakeOrAppend(Repeat(runs[at].stamp, take), Ahead(runs, at, used + take), left, fallback);
  }

  lemma AheadSplit<S>(runs: seq<Run<S>>, at: nat, used: nat, take: nat)
    requires at < |runs| && used + take <= runs[at].len
    ensures Ahead(runs, at, used) == Repeat(runs[at].stamp, take) + Ahead(runs, at, used + take)
  {
    hide Expand, Repeat;
    assert Repeat(runs[at].stamp, runs[at].len - used)
        == Repeat(runs[at].stamp, take) + Repeat(runs[at].stamp, runs[at].len - used - take);
  }

  lemma TakeOrAppend<S>(a: seq<S>, b: seq<S>, left: nat, fallback: S)
    requires |a| <= left
    ensures TakeOr(a + b, left, fallback) == a + TakeOr(b, left - |a|, fallback)
    ensures DropOr(a + b, left) == DropOr(b, left - |a|)
  {
  }

  lemma PastTheEnd<S>(runs: seq<Run<S>>, left: nat, fallback: S)
    ensures TakeOr(Ahead(runs, |runs|, 0), left, fallback) == Repeat(fallback, left)
  {
  }

  lemma NothingLeft<S>(stamps: seq<S>, fallback: S)
    ensures TakeOr(stamps, 0, fallback) == []
  {
  }

  lemma DropNothing<S>(stamps: seq<S>)
    ensures DropOr(stamps, 0) == stamps
  {
  }

  lemma DropPastTheEnd<S>(runs: seq<Run<S>>, left: nat)
    ensures DropOr(Ahead(runs, |runs|, 0), left) == Ahead(runs, |runs|, 0)
  {
  }

  /** A forward-only cursor over a tiling. */
  class TilingCursor<S(==)> {
    const runs: seq<Run<S>>
    var at: nat
    var used: nat

    ghost predicate Valid()
      reads this
    {
      at <= |runs| && (if at < |runs| then used <= runs[at].len else used == 0)
    }

    ghost function Remaining(): seq<S>
      reads this
      requires Valid()
    {
      Ahead(runs, at, used)
    }

    constructor (runs: seq<Run<S>>)
      ensures Valid() && this.runs == runs
      ensures Remaining() == Expand(runs)
    {
      this.runs := runs;
      at, used := 0, 0;
    }

    /** Move the next `bytes` of the tiling onto the end of `out`. Where the tiling has
        run out `fallback` stands in for it. */
    method Carry(bytes: nat, out: seq<Run<S>>, fallback: S) returns (r: seq<Run<S>>)
      requires Valid()
      modifies this`at, this`used
      ensures Valid()
      ensures Remaining() == DropOr(old(Remaining()), bytes)
      ensures Expand(r) == Expand(out) + TakeOr(old(Remaining()), bytes, fallback)
      ensures Canonical(out) ==> Canonical(r)
    {
      hide Ahead, TakeOr, DropOr, Expand, Push, Canonical;
      r := out;
      var left: nat := bytes;
      ghost var whole, rest := Expand(r) + TakeOr(Remaining(), left, fallback), DropOr(Remaining(), left);
      while left > 0
        invariant Valid()
        invariant DropOr(Remaining(), left) == rest
        invariant Expand(r) + TakeOr(Remaining(), left, fallback) == whole
        invariant Canonical(out) ==> Canonical(r)
        decreases left, |runs| - at
      {
        if at == |runs| {
          PastTheEnd(runs, left, fallback);
          DropPastTheEnd(runs, left);
          ExpandPush(r, fallback, left);
          r := Push(r, fallback, left);
          return;
        }
        var run := runs[at];
        var take := if left < run.len - used then left else run.len - used;
        AheadStep(runs, at, used, take, left, fallback);
        ExpandPush(r, run.stamp, take);
        Concat3(Expand(r), Repeat(run.stamp, take), TakeOr(Ahead(runs, at, used + take), left - take, fallback));
        r := Push(r, run.stamp, take);
        used := used + take;
        left := left - take;
        if used == run.len {
          AheadOfNext(runs, at);
          at := at + 1;
          used := 0;
        }
      }
      NothingLeft(Remaining(), fallback);
      DropNothing(Remaining());
      assert Expand(r) + [] == Expand(r);
    }

    /** Pass over `bytes` the update deleted. */
    method Skip(bytes: nat)
      requires Valid()
      modifies this`at, this`used
      ensures Valid()
      ensures Remaining() == DropOr(old(Remaining()), bytes)
    {
      hide Ahead, DropOr, Expand;
      var left: nat := bytes;
      ghost var rest := DropOr(Remaining(), left);
      while left > 0
        invariant Valid()
        invariant DropOr(Remaining(), left) == rest
        decreases left, |runs| - at
      {
        if at == |runs| {
          DropPastTheEnd(runs, left);
          return;
        }
        var run := runs[at];
        var take := if left < run.len - used then left else run.len - used;
        AheadStep(runs, at, used, take, left, run.stamp);
        used := used + take;
        left := left - take;
        if used == run.len {
          AheadOfNext(runs, at);
          at := at + 1;
          used := 0;
        }
      }
      DropNothing(Remaining());
    }
  }

  // ----- the stamps an update must leave behind

  /** How many stamps are minted once a change is done: one per maximal run of
      inserts, `open` saying the previous change was an insert too. */
  function NextMinted<T>(c: Change<T>, minted: nat, open: bool): (m: nat)
    requires open ==> minted > 0
    ensures c.Insert? ==> m > 0
  {
    if c.Insert? && !open then minted + 1 else minted
  }

  /** The stamps of the new bytes one change contributes. */
  ghost function HeadStamps<T, S>(c: Change<T>, stamps: seq<S>, fallback: S,
                                  mint: nat -> S, minted: nat, open: bool): (r: seq<S>)
    requires open ==> minted > 0
    ensures |r| == HeadNew(c)
  {
    match c
    case Equal(v) => TakeOr(stamps, |v|, fallback)
    case Delete(_) => []
    case Insert(v) => Repeat(mint(NextMinted(c, minted, open) - 1), |v|)
  }

  /** Per byte: a survivor keeps its stamp, an introduced byte takes a minted one. */
  ghost function IntendedBytes<T, S>(script: seq<Change<T>>, stamps: seq<S>, fallback: S,
                                     mint: nat -> S, minted: nat, open: bool): (r: seq<S>)
    requires open ==> minted > 0
    ensures |r| == |NewSide(script)|
  {
    if script == [] then []
    else
      HeadStamps(script[0], stamps, fallback, mint, minted, open)
      + IntendedBytes(script[1..], DropOr(stamps, HeadOld(script[0])), fallback, mint,
                      NextMinted(script[0], minted, open), script[0].Insert?)
  }

  lemma IntendedStep<T, S>(script: seq<Change<T>>, stamps: seq<S>, fallback: S, mint: nat -> S, minted: nat, open: bool)
    requires open ==> minted > 0
    requires script != []
    ensures IntendedBytes(script, stamps, fallback, mint, minted, open)
         == HeadStamps(script[0], stamps, fallback, mint, minted, open)
            + IntendedBytes(script[1..], DropOr(stamps, HeadOld(script[0])), fallback, mint,
                            NextMinted(script[0], minted, open), script[0].Insert?)
  {
    hide HeadStamps, DropOr, NextMinted;
  }

  lemma IntendedEmpty<T, S>(stamps: seq<S>, fallback: S, mint: nat -> S, minted: nat, open: bool,
                            script: seq<Change<T>>)
    requires open ==> minted > 0
    requires script == []
    ensures IntendedBytes(script, stamps, fallback, mint, minted, open) == []
  {
  }

  /** Walks the diff once, tiling the new text by the stamps it must carry. */
  method IntendedStamps<T, S(==)>(script: seq<Change<T>>, beforeTiling: seq<Run<S>>, unattributed: S,
                                  mint: nat -> S) returns (out: seq<Run<S>>)
    ensures Expand(out) == IntendedBytes(script, Expand(beforeTiling), unattributed, mint, 0, false)
    ensures Canonical(out)
  {
    hide IntendedBytes, TakeOr, DropOr, Expand, Push, Canonical, NewSide, OldSide, Repeat;
    out := [];
    var cursor := new TilingCursor(beforeTiling);
    var minted: nat, open := 0, false;
    ghost var all := IntendedBytes(script, Expand(beforeTiling), unattributed, mint, 0, false);
    ExpandEmpty<S>();
    assert script[0..] == script && [] + all == all;
    for k := 0 to |script|
      invariant cursor.Valid() && Canonical(out) && (open ==> minted > 0)
      invariant all == Expand(out)
                       + IntendedBytes(script[k..], cursor.Remaining(), unattributed, mint, minted, open)
    {
      var c, n := script[k], |script[k].value|;
      assert script[k..][1..] == script[k+1..] && script[k..][0] == c;
      IntendedStep(script[k..], cursor.Remaining(), unattributed, mint, minted, open);
      ghost var rest := IntendedBytes(script[k+1..], DropOr(cursor.Remaining(), HeadOld(c)), unattributed, mint,
                                      NextMinted(c, minted, open), c.Insert?);
      Concat3(Expand(out), HeadStamps(c, cursor.Remaining(), unattributed, mint, minted, open), rest);
      match c {
        case Equal(_) =>
          open := false;
          out := cursor.Carry(n, out, unattributed);
        case Delete(_) =>
          assert Expand(out) + [] == Expand(out);
          open := false;
          cursor.Skip(n);
        case Insert(_) =>
          if !open {
            minted := minted + 1;
            open := true;
          }
          DropNothing(cursor.Remaining());
          ExpandPush(out, mint(minted - 1), n);
          out := Push(out, mint(minted - 1), n);
      }
    }
    assert script[|script|..] == [];
    IntendedEmpty(cursor.Remaining(), unattributed, mint, minted, open, script[|script|..]);
    assert Expand(out) + [] == Expand(out);
  }

  /** How many maximal runs of inserts begin in the script; one that continues a run opened
      before it begins none. */
  ghost function Begun<T>(script: seq<Change<T>>, open: bool): nat {
    if script == [] then 0
    else (if script[0].Insert? && !open then 1 else 0) + Begun(script[1..], script[0].Insert?)
  }

  /** The change a byte of the new text comes from. */
  ghost function ChangeOf<T>(script: seq<Change<T>>, k: nat): (j: nat)
    requires k < |NewSide(script)|
    ensures j < |script|
  {
    if k < HeadNew(script[0]) then 0 else 1 + ChangeOf(script[1..], k - HeadNew(script[0]))
  }

  /** The number of runs begun up to the one a byte is in. */
  ghost function RunOf<T>(script: seq<Change<T>>, open: bool, k: nat): nat
    requires k < |NewSide(script)|
  {
    Begun(script[..ChangeOf(script, k) + 1], open)
  }

  lemma BegunStep<T>(script: seq<Change<T>>, open: bool)
    requires script != []
    ensures Begun(script, open) == (if script[0].Insert? && !open then 1 else 0) + Begun(script[1..], script[0].Insert?)
  {
  }

  lemma BegunNothing<T>(script: seq<Change<T>>, open: bool)
    requires script == []
    ensures Begun(script, open) == 0
  {
  }

  lemma ChangeStep<T>(script: seq<Change<T>>, k: nat)
    requires k < |NewSide(script)| && script != []
    ensures k < HeadNew(script[0]) ==> ChangeOf(script, k) == 0
    ensures k >= HeadNew(script[0]) ==>
      && k - HeadNew(script[0]) < |NewSide(script[1..])|
      && ChangeOf(script, k) == 1 + ChangeOf(script[1..], k - HeadNew(script[0]))
  {
  }

  lemma RunOfStep<T>(script: seq<Change<T>>, open: bool, k: nat)
    requires k < |NewSide(script)| && script != []
    ensures var c, here := script[0], if script[0].Insert? && !open then 1 else 0;
      if k < HeadNew(c) then RunOf(script, open, k) == here
      else
        && k - HeadNew(c) < |NewSide(script[1..])|
        && RunOf(script, open, k) == here + RunOf(script[1..], c.Insert?, k - HeadNew(c))
  {
    hide Begun, ChangeOf, NewSide;
    ChangeStep(script, k);
    var j := ChangeOf(script, k);
    BegunStep(script[..j + 1], open);
    assert script[..j + 1][0] == script[0];
    if k < HeadNew(script[0]) {
      BegunNothing(script[..1][1..], script[0].Insert?);
    } else {
      assert script[..j + 1][1..] == script[1..][..j];
    }
  }

  /** The stamp a byte must carry according to the alignment alone: a survivor the one it
      had, the fallback beyond the old tiling, any other byte the one minted for its run. */
  ghost predicate StampFollows<S>(stamp: S, aligned: Origin, at: nat, stamps: seq<S>, fallback: S, minted: S) {
    match aligned
    case Survivor(j) => at <= j && stamp == if j - at < |stamps| then stamps[j - at] else fallback
    case Introduced => stamp == minted
  }

  lemma HeadStampFollows<T, S>(
    c: Change<T>, at: nat, stamps: seq<S>, fallback: S, mint: nat -> S, minted: nat, open: bool, k: nat, own: S)
    requires open ==> minted > 0
    requires k < HeadNew(c)
    requires c.Insert? ==> own == mint(NextMinted(c, minted, open) - 1)
    ensures StampFollows(HeadStamps(c, stamps, fallback, mint, minted, open)[k],
                         if c.Equal? then Survivor(at + k) else Introduced, at, stamps, fallback, own)
  {
  }

  lemma StampFollowsShift<S>(stamp: S, aligned: Origin, at: nat, d: nat, stamps: seq<S>, fallback: S, minted: S)
    requires StampFollows(stamp, aligned, at + d, DropOr(stamps, d), fallback, minted)
    ensures StampFollows(stamp, aligned, at, stamps, fallback, minted)
  {
  }

  lemma Counted<T>(c: Change<T>, minted: nat, open: bool)
    requires open ==> minted > 0
    ensures NextMinted(c, minted, open) == minted + if c.Insert? && !open then 1 else 0
  {
  }

  /** The intended stamp of a byte, read off the alignment alone: what it survives from had
      it, or it is the one minted for the maximal run of inserts the byte is in, counted
      from the start of the script. */
  lemma {:induction false} IntendedByAlignment<T, S>(
    script: seq<Change<T>>, at: nat, stamps: seq<S>, fallback: S, mint: nat -> S, minted: nat, open: bool, k: nat)
    requires open ==> minted > 0
    requires k < |NewSide(script)|
    ensures Alignment(script, at)[k].Introduced? ==> minted + RunOf(script, open, k) > 0
    ensures StampFollows(IntendedBytes(script, stamps, fallback, mint, minted, open)[k],
                         Alignment(script, at)[k], at, stamps, fallback,
                         if minted + RunOf(script, open, k) > 0
                         then mint(minted + RunOf(script, open, k) - 1) else fallback)
    decreases |script|
  {
    hide IntendedBytes, Alignment, OldSide, NewSide, StampFollows, NextMinted, HeadStamps, RunOf;
    SomethingInScript(script);
    SidesStep(script);
    AlignmentStep(script, at, k);
    IntendedStep(script, stamps, fallback, mint, minted, open);
    RunOfStep(script, open, k);
    var c, rest := script[0], script[1..];
    Counted(c, minted, open);
    if k < HeadNew(c) {
      var run := minted + RunOf(script, open, k);
      HeadStampFollows(c, at, stamps, fallback, mint, minted, open, k, if run > 0 then mint(run - 1) else fallback);
    } else {
      var d, stamps', minted' := HeadOld(c), DropOr(stamps, HeadOld(c)), NextMinted(c, minted, open);
      IntendedByAlignment(rest, at + d, stamps', fallback, mint, minted', c.Insert?, k - HeadNew(c));
      var run := minted' + RunOf(rest, c.Insert?, k - HeadNew(c));
      StampFollowsShift(IntendedBytes(rest, stamps', fallback, mint, minted', c.Insert?)[k - HeadNew(c)],
                        Alignment(rest, at + d)[k - HeadNew(c)], at, d, stamps, fallback,
                        if run > 0 then mint(run - 1) else fallback);
    }
  }

  // ----- where the document disagrees

  /** `len` bytes from `start` that must all be restamped `want`. */
  datatype Region<+S> = Region(start: nat, len: nat, want: S)

  /** Add a stretch to the regions so far; one that goes on from the last, with the same
      stamp wanted, lengthens it. */
  function PushRegion<S(==)>(out: seq<Region<S>>, start: nat, len: nat, want: S): seq<Region<S>> {
    if |out| > 0 && out[|out|-1].start + out[|out|-1].len == start && out[|out|-1].want == want then
      out[|out|-1 := Region(out[|out|-1].start, out[|out|-1].len + len, want)]
    else out + [Region(start, len, want)]
  }

  /** The regions over the first `n` bytes, found byte by byte. */
  ghost function Divergence<S>(want: seq<S>, have: seq<S>, n: nat): seq<Region<S>>
    requires n <= |want| && n <= |have|
  {
    if n == 0 then []
    else if want[n-1] == have[n-1] then Divergence(want, have, n - 1)
    else PushRegion(Divergence(want, have, n - 1), n - 1, 1, want[n-1])
  }

  lemma PushRegionTwice<S>(out: seq<Region<S>>, start: nat, a: nat, b: nat, want: S)
    requires a > 0 && b > 0
    ensures PushRegion(PushRegion(out, start, a, want), start + a, b, want) == PushRegion(out, start, a + b, want)
  {
  }

  /** A stretch of bytes with one wanted and one present stamp counts as one step. */
  lemma {:induction false} DivergenceStretch<S>(want: seq<S>, have: seq<S>, n: nat, step: nat)
    requires n + step <= |want| && n + step <= |have| && step > 0
    requires forall k | n <= k < n + step :: want[k] == want[n] && have[k] == have[n]
    ensures Divergence(want, have, n + step)
         == if want[n] == have[n] then Divergence(want, have, n)
            else PushRegion(Divergence(want, have, n), n, step, want[n])
  {
    if step > 1 {
      DivergenceStretch(want, have, n, step - 1);
      assert want[n + step - 1] == want[n] && have[n + step - 1] == have[n];
      if want[n] != have[n] {
        PushRegionTwice(Divergence(want, have, n), n, step - 1, 1, want[n]);
      }
    }
  }

  lemma DivergenceStep<S>(want: seq<S>, have: seq<S>, n: nat)
    requires 0 < n <= |want| && n <= |have|
    ensures Divergence(want, have, n)
         == if want[n-1] == have[n-1] then Divergence(want, have, n - 1)
            else PushRegion(Divergence(want, have, n - 1), n - 1, 1, want[n-1])
  {
  }

  lemma DivergenceEmpty<S>(want: seq<S>, have: seq<S>)
    ensures Divergence(want, have, 0) == []
  {
  }

  /** Walks both tilings at once. Terminates on empty runs, and finds exactly the
      maximal regions of the byte-by-byte scan. */
  method DivergingRuns<S(==)>(intended: seq<Run<S>>, observed: seq<Run<S>>) returns (out: seq<Region<S>>)
    ensures out == Divergence(Expand(intended), Expand(observed), Min(|Expand(intended)|, |Expand(observed)|))
  {
    hide Divergence, Expand, Total, PushRegion;
    out := [];
    ghost var want, have := Expand(intended), Expand(observed);
    var i: nat, j: nat, iUsed: nat, jUsed: nat, pos: nat := 0, 0, 0, 0, 0;
    TotalWhole(intended, 0);
    TotalWhole(observed, 0);
    DivergenceEmpty(want, have);
    while i < |intended| && j < |observed|
      invariant i <= |intended| && j <= |observed|
      invariant if i < |intended| then iUsed <= intended[i].len else iUsed == 0
      invariant if j < |observed| then jUsed <= observed[j].len else jUsed == 0
      invariant pos == Total(intended[..i]) + iUsed == Total(observed[..j]) + jUsed
      invariant pos <= |want| && pos <= |have|
      invariant out == Divergence(want, have, pos)
      decreases |intended| - i + |observed| - j
    {
      var w, h := intended[i], observed[j];
      var step := if w.len - iUsed < h.len - jUsed then w.len - iUsed else h.len - jUsed;
      TotalPrefix(intended, i);
      TotalPrefix(observed, j);
      TotalWhole(intended, i + 1);
      TotalWhole(observed, j + 1);
      if step > 0 {
        forall k | pos <= k < pos + step
          ensures want[k] == w.stamp && have[k] == h.stamp
        {
          ExpandAt(intended, i, k - Total(intended[..i]));
          ExpandAt(observed, j, k - Total(observed[..j]));
        }
        DivergenceStretch(want, have, pos, step);
        if w.stamp != h.stamp {
          out := PushRegion(out, pos, step, w.stamp);
        }
      }
      pos := pos + step;
      iUsed := iUsed + step;
      jUsed := jUsed + step;
      if iUsed == w.len {
        i := i + 1;
        iUsed := 0;
      }
      if jUsed == h.len {
        j := j + 1;
        jUsed := 0;
      }
    }
    TotalWhole(intended, i);
    TotalWhole(observed, j);
  }

  ghost predicate Covers<S>(region: Region<S>, k: nat) {
    region.start <= k < region.start + region.len
  }

  /** In order, non-empty, and apart or abutting with different wants. */
  ghost predicate InOrder<S>(regions: seq<Region<S>>, n: nat) {
    && (forall r | 0 <= r < |regions| :: regions[r].len > 0 && regions[r].start + regions[r].len <= n)
    && (forall r | 0 < r < |regions| ::
          && regions[r-1].start + regions[r-1].len <= regions[r].start
          && (regions[r-1].start + regions[r-1].len == regions[r].start ==> regions[r-1].want != regions[r].want))
  }

  /** Each byte inside a region disagrees and wants the region's stamp. */
  ghost predicate OnlyDisagreements<S>(regions: seq<Region<S>>, want: seq<S>, have: seq<S>, n: nat)
    requires n <= |want| && n <= |have|
  {
    forall r, k: nat | 0 <= r < |regions| && k < n && Covers(regions[r], k) ::
      have[k] != want[k] && want[k] == regions[r].want
  }

  ghost predicate Covered<S>(regions: seq<Region<S>>, k: nat) {
    exists r :: 0 <= r < |regions| && Covers(regions[r], k)
  }

  /** Each disagreeing byte is inside a region. */
  ghost predicate AllDisagreements<S>(regions: seq<Region<S>>, want: seq<S>, have: seq<S>, n: nat)
    requires n <= |want| && n <= |have|
  {
    forall k: nat | k < n && want[k] != have[k] :: Covered(regions, k)
  }

  lemma PushRegionInOrder<S>(regions: seq<Region<S>>, n: nat, want: S)
    requires InOrder(regions, n)
    ensures InOrder(PushRegion(regions, n, 1, want), n + 1)
  {
    var after := PushRegion(regions, n, 1, want);
    forall r | 0 < r < |after|
      ensures after[r-1].start + after[r-1].len <= after[r].start
      ensures after[r-1].start + after[r-1].len == after[r].start ==> after[r-1].want != after[r].want
    {
      assert after[r-1] == regions[r-1];
      if r < |regions| {
        assert after[r].start == regions[r].start && after[r].want == regions[r].want;
      }
    }
  }

  lemma {:induction false} DivergencesInOrder<S>(want: seq<S>, have: seq<S>, n: nat)
    requires n <= |want| && n <= |have|
    ensures InOrder(Divergence(want, have, n), n)
  {
    hide PushRegion, InOrder, Divergence;
    if n == 0 {
      NothingInOrder<S>(0);
      DivergenceEmpty(want, have);
    } else {
      DivergenceStep(want, have, n);
      DivergencesInOrder(want, have, n - 1);
      PushRegionInOrder(Divergence(want, have, n - 1), n - 1, want[n-1]);
      InOrderLater(Divergence(want, have, n - 1), n - 1);
    }
  }

  lemma NothingInOrder<S>(n: nat)
    ensures InOrder<S>([], n)
  {
  }

  lemma InOrderLater<S>(regions: seq<Region<S>>, n: nat)
    requires InOrder(regions, n)
    ensures InOrder(regions, n + 1)
  {
  }

  lemma {:induction false} DivergencesSound<S>(want: seq<S>, have: seq<S>, n: nat)
    requires n <= |want| && n <= |have|
    ensures OnlyDisagreements(Divergence(want, have, n), want, have, n)
  {
    if n == 0 {
    } else {
      DivergencesSound(want, have, n - 1);
      DivergencesInOrder(want, have, n - 1);
      var before, after := Divergence(want, have, n - 1), Divergence(want, have, n);
      forall r, k: nat | 0 <= r < |after| && k < n && Covers(after[r], k)
        ensures have[k] != want[k] && want[k] == after[r].want
      {
        if k < n - 1 {
          assert Covers(before[r], k);
        }
      }
    }
  }

  lemma {:induction false} DivergencesComplete<S>(want: seq<S>, have: seq<S>, n: nat)
    requires n <= |want| && n <= |have|
    ensures AllDisagreements(Divergence(want, have, n), want, have, n)
    ensures Divergence(want, have, n) == [] <==> want[..n] == have[..n]
  {
    if n == 0 {
    } else {
      DivergencesComplete(want, have, n - 1);
      assert want[..n] == want[..n-1] + [want[n-1]] && have[..n] == have[..n-1] + [have[n-1]];
      var before, after := Divergence(want, have, n - 1), Divergence(want, have, n);
      forall k: nat | k < n && want[k] != have[k]
        ensures Covered(after, k)
      {
        if k == n - 1 {
          assert Covers(after[|after|-1], k);
        } else {
          var r :| 0 <= r < |before| && Covers(before[r], k);
          assert Covers(after[r], k);
        }
      }
    }
  }
}
