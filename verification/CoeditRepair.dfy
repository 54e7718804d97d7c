/** Server-owned authorship: after every client update the server restamps the
    document so that no stamp a client wrote survives. */
module CoeditRepair {
  import opened Tilings
  import opened EditScripts
  import opened CoeditStamps
  import opened CoeditDocs

  /** The stamps an attributed update must leave behind: a function of the text
      before, its stamps, the text after, and the connection's own stamp. */
  ghost function Attributed<B, S>(differ: (seq<B>, seq<B>) -> seq<Change<B>>, mine: S, unattributed: S,
                                  before: seq<B>, stamps: seq<S>, after: seq<B>): seq<S> {
    IntendedBytes(differ(before, after), stamps, unattributed, _ => mine, 0, false)
  }

  /** Cells whose bytes carry the wanted stamps in the first regions, and still
      carry what they had elsewhere. */
  ghost predicate RepairedSoFar<S>(stamps: seq<S>, regions: seq<Region<S>>, want: seq<S>, have: seq<S>) {
    && |stamps| == |want| == |have|
    && forall k: nat | k < |stamps| :: stamps[k] == if Covered(regions, k) then want[k] else have[k]
  }

  lemma NothingRepaired<S>(regions: seq<Region<S>>, want: seq<S>, have: seq<S>)
    requires regions == [] && |want| == |have|
    ensures RepairedSoFar(have, regions, want, have)
  {
  }

  /** One formatted region joins the repaired ones. */
  lemma RepairOne<S>(before: seq<S>, after: seq<S>, regions: seq<Region<S>>, r: nat, want: seq<S>, have: seq<S>)
    requires r < |regions| && |want| == |have|
    requires RepairedSoFar(before, regions[..r], want, have)
    requires OnlyDisagreements(regions, want, have, |want|)
    requires |after| == |before|
    requires forall k: nat | k < |before| ::
      after[k] == if regions[r].start <= k < regions[r].start + regions[r].len then regions[r].want else before[k]
    ensures RepairedSoFar(after, regions[..r+1], want, have)
  {
    var done, more := regions[..r], regions[..r+1];
    forall k: nat | k < |after|
      ensures after[k] == if Covered(more, k) then want[k] else have[k]
    {
      if Covers(regions[r], k) {
        assert Covers(more[r], k) && want[k] == regions[r].want;
      } else {
        if Covered(done, k) {
          var q :| 0 <= q < |done| && Covers(done[q], k);
          assert Covers(more[q], k);
        }
        if Covered(more, k) {
          var q :| 0 <= q < |more| && Covers(more[q], k);
          assert Covers(done[q], k);
        }
      }
    }
  }

  /** Once every region is repaired, every byte carries the wanted stamp. */
  lemma AllRepaired<S>(stamps: seq<S>, regions: seq<Region<S>>, want: seq<S>, have: seq<S>)
    requires RepairedSoFar(stamps, regions, want, have)
    requires AllDisagreements(regions, want, have, |want|)
    ensures stamps == want
  {
  }

  /** The live document: client updates go in, the server's repair comes out. */
  class CoeditDoc<B(==,!new), S(==,!new)> {
    var cells: seq<Cell<B, S>>

    constructor ()
      ensures cells == []
    {
      cells := [];
    }

    /** The runs the CRDT reports for the current cells, in some fragmentation. */
    method ScanRuns() returns (runs: seq<DocRun<S>>)
      ensures Describes(runs, cells)
    {
      runs := CellRuns(cells);
    }

    /** Merge a client's update and repair authorship in the same transaction.
        `merged` is the document as the client's update leaves it, with whatever
        stamps the client chose; `repaired` lists the restamped regions. */
    method ApplyUpdateAs(differ: (seq<B>, seq<B>) -> seq<Change<B>>, mine: S, unattributed: S,
                         merged: seq<Cell<B, S>>) returns (repaired: seq<Region<S>>)
      requires Turns(differ(Flat(cells), Flat(merged)), Flat(cells), Flat(merged))
      modifies this
      ensures SameLayout(merged, cells) && Flat(cells) == Flat(merged)
      ensures Stamps(cells)
           == Attributed(differ, mine, unattributed, old(Flat(cells)), old(Stamps(cells)), Flat(merged))
      ensures AreRepairs(repaired, Stamps(cells), Stamps(merged))
    {
      hide Flat, Stamps, SameLayout, Expand, IntendedBytes, Divergence, Describes, Canonical, Format, IndexOf,
           OldSide, NewSide, InOrder, OnlyDisagreements, AllDisagreements, RepairedSoFar, AreRepairs;
      ghost var script := differ(Flat(cells), Flat(merged));
      var textBefore := Flat(cells);
      var runsBefore := ScanRuns();
      var tilingBefore := StampTiling(runsBefore, cells);

      cells := merged;
      var runsAfter := ScanRuns();
      var want := IntendedStamps(differ(textBefore, Flat(cells)), tilingBefore, unattributed, _ => mine);
      var have := StampTiling(runsAfter, cells);
      repaired := DivergingRuns(want, have);

      ghost var w, h := Expand(want), Expand(have);
      assert |w| == |h| == |Flat(merged)|;
      DivergencesSound(w, h, |w|);
      DivergencesComplete(w, h, |w|);
      DivergencesInOrder(w, h, |w|);
      NothingRepaired(repaired[..0], w, h);
      SameLayoutReflexive(merged);
      for r := 0 to |repaired|
        invariant SameLayout(merged, cells)
        invariant RepairedSoFar(Stamps(cells), repaired[..r], w, h)
      {
        RegionInText(repaired, r, |w|);
        var range := RangeOf(runsAfter, repaired[r].start, repaired[r].len, merged);
        FormatNext(merged, cells, repaired, r, w, h);
        if range.Some? {
          cells := Format(cells, range.value.index, range.value.len, repaired[r].want);
        }
      }
      assert repaired[..|repaired|] == repaired;
      AllRepaired(Stamps(cells), repaired, w, h);
      SameLayoutSameText(merged, cells);
      RegionsAreRepairs(repaired, w, h);
    }
  }

  lemma SameLayoutReflexive<B, S>(cells: seq<Cell<B, S>>)
    ensures SameLayout(cells, cells)
  {
  }

  lemma RegionInText<S>(regions: seq<Region<S>>, r: nat, n: nat)
    requires InOrder(regions, n) && r < |regions|
    ensures regions[r].start + regions[r].len <= n
  {
  }

  /** Formatting region `r` at the range computed on the document as scanned, while
      earlier regions have already been formatted. */
  lemma FormatNext<B, S>(scanned: seq<Cell<B, S>>, cells: seq<Cell<B, S>>, regions: seq<Region<S>>, r: nat,
                         want: seq<S>, have: seq<S>)
    requires SameLayout(scanned, cells) && |want| == |have| == |Flat(scanned)|
    requires r < |regions| && regions[r].start + regions[r].len <= |want|
    requires RepairedSoFar(Stamps(cells), regions[..r], want, have)
    requires OnlyDisagreements(regions, want, have, |want|)
    ensures var start, end := regions[r].start, regions[r].start + regions[r].len;
      var i, j := IndexOf(scanned, start), IndexOf(scanned, end);
      && i <= j <= |cells|
      && SameLayout(scanned, Format(cells, i, j - i, regions[r].want))
      && RepairedSoFar(Stamps(Format(cells, i, j - i, regions[r].want)), regions[..r+1], want, have)
  {
    hide Flat, Stamps, SameLayout, Format, IndexOf, OnlyDisagreements, RepairedSoFar;
    var start, len, stamp := regions[r].start, regions[r].len, regions[r].want;
    SameLayoutSameIndex(scanned, cells, start);
    SameLayoutSameIndex(scanned, cells, start + len);
    FormatRestamps(cells, start, len, stamp);
    var formatted := Format(cells, IndexOf(cells, start), IndexOf(cells, start + len) - IndexOf(cells, start), stamp);
    SameLayoutTransitive(scanned, cells, formatted);
    RepairOne(Stamps(cells), Stamps(formatted), regions, r, want, have);
  }

  /** The reported regions: only bytes whose stamp was wrong, all of them, maximal;
      none at all exactly when nothing was wrong. */
  ghost predicate AreRepairs<S>(regions: seq<Region<S>>, want: seq<S>, have: seq<S>) {
    && |want| == |have|
    && InOrder(regions, |want|)
    && OnlyDisagreements(regions, want, have, |want|)
    && AllDisagreements(regions, want, have, |want|)
    && (regions == [] <==> want == have)
  }

  lemma RegionsAreRepairs<S>(regions: seq<Region<S>>, want: seq<S>, have: seq<S>)
    requires |want| == |have|
    requires InOrder(regions, |want|)
    requires OnlyDisagreements(regions, want, have, |want|)
    requires AllDisagreements(regions, want, have, |want|)
    requires regions == [] <==> want[..|want|] == have[..|want|]
    ensures AreRepairs(regions, want, have)
  {
    assert want[..|want|] == want && have[..|want|] == have;
  }

  // ----- over any run of updates

  /** One attributed update: the connection's stamp and the document its update leaves. */
  datatype Update<+B, +S> = Update(mine: S, merged: seq<Cell<B, S>>)

  /** The stamps after a run of attributed updates on a document. */
  ghost function RunStamps<B, S>(differ: (seq<B>, seq<B>) -> seq<Change<B>>, unattributed: S,
                                 text: seq<B>, stamps: seq<S>, updates: seq<Update<B, S>>): seq<S>
    decreases |updates|
  {
    if updates == [] then stamps
    else
      var after := Flat(updates[0].merged);
      RunStamps(differ, unattributed, after,
                Attributed(differ, updates[0].mine, unattributed, text, stamps, after), updates[1..])
  }

  ghost predicate SameTextsAndSenders<B, S>(a: seq<Update<B, S>>, b: seq<Update<B, S>>) {
    |a| == |b| && forall i | 0 <= i < |a| :: a[i].mine == b[i].mine && Flat(a[i].merged) == Flat(b[i].merged)
  }

  /** Whatever stamps clients write, the authors at the end are the same. */
  lemma {:induction false} ForgedStampsHaveNoEffect<B, S>(
    differ: (seq<B>, seq<B>) -> seq<Change<B>>, unattributed: S, text: seq<B>, stamps: seq<S>,
    a: seq<Update<B, S>>, b: seq<Update<B, S>>)
    requires SameTextsAndSenders(a, b)
    ensures RunStamps(differ, unattributed, text, stamps, a) == RunStamps(differ, unattributed, text, stamps, b)
    decreases |a|
  {
    if a == [] {
    } else {
      hide Flat, Attributed;
      assert a[0].mine == b[0].mine && Flat(a[0].merged) == Flat(b[0].merged);
      forall i | 0 <= i < |a[1..]|
        ensures a[1..][i].mine == b[1..][i].mine && Flat(a[1..][i].merged) == Flat(b[1..][i].merged)
      {
        assert a[i+1].mine == b[i+1].mine && Flat(a[i+1].merged) == Flat(b[i+1].merged);
      }
      var after := Flat(a[0].merged);
      ForgedStampsHaveNoEffect(differ, unattributed, after,
                               Attributed(differ, a[0].mine, unattributed, text, stamps, after), a[1..], b[1..]);
    }
  }

  ghost predicate AnySender<B, S>(stamp: S, updates: seq<Update<B, S>>) {
    exists i :: 0 <= i < |updates| && updates[i].mine == stamp
  }

  /** Each byte of an attributed update is the connection's, or survives, in order
      and byte for byte, from the document before under the stamp it had there. */
  lemma AttributedByAlignment<B, S>(differ: (seq<B>, seq<B>) -> seq<Change<B>>, mine: S, unattributed: S,
                                    before: seq<B>, stamps: seq<S>, after: seq<B>, k: nat)
    requires Turns(differ(before, after), before, after)
    requires |stamps| == |before| && k < |after|
    ensures |Attributed(differ, mine, unattributed, before, stamps, after)| == |after|
    ensures var stamp := Attributed(differ, mine, unattributed, before, stamps, after)[k];
      match Alignment(differ(before, after), 0)[k]
      case Introduced => stamp == mine
      case Survivor(j) => 0 <= j < |before| && before[j] == after[k] && stamp == stamps[j]
    ensures forall m: nat | k < m < |after| && Alignment(differ(before, after), 0)[k].Survivor?
                            && Alignment(differ(before, after), 0)[m].Survivor? ::
      Alignment(differ(before, after), 0)[k].pos < Alignment(differ(before, after), 0)[m].pos
  {
    hide IntendedBytes, Alignment, OldSide, NewSide;
    var script := differ(before, after);
    IntendedByAlignment(script, 0, stamps, unattributed, _ => mine, 0, false, k);
    if Alignment(script, 0)[k].Survivor? {
      AlignedItem(script, 0, k);
      forall m: nat | k < m < |after| && Alignment(script, 0)[m].Survivor?
        ensures Alignment(script, 0)[k].pos < Alignment(script, 0)[m].pos
      {
        AlignedOrder(script, 0, k, m);
      }
    }
  }

  /** Over any run, every author present came from the initial document or is an
      authenticated connection. */
  lemma {:induction false} AuthorsAreAuthentic<B(!new), S>(
    differ: (seq<B>, seq<B>) -> seq<Change<B>>, unattributed: S, text: seq<B>, stamps: seq<S>,
    updates: seq<Update<B, S>>, k: nat)
    requires IsDiffer(differ)
    requires |stamps| == |text|
    requires k < |RunStamps(differ, unattributed, text, stamps, updates)|
    ensures var stamp := RunStamps(differ, unattributed, text, stamps, updates)[k];
      stamp in stamps || AnySender(stamp, updates)
    decreases |updates|
  {
    if updates == [] {
    } else {
      hide Flat, Attributed, Alignment;
      var after := Flat(updates[0].merged);
      assert Turns(differ(text, after), text, after);
      var next := Attributed(differ, updates[0].mine, unattributed, text, stamps, after);
      AttributedLength(differ, updates[0].mine, unattributed, text, stamps, after);
      AuthorsAreAuthentic(differ, unattributed, after, next, updates[1..], k);
      var stamp := RunStamps(differ, unattributed, after, next, updates[1..])[k];
      if AnySender(stamp, updates[1..]) {
        var i :| 0 <= i < |updates[1..]| && updates[1..][i].mine == stamp;
        assert updates[i+1].mine == stamp;
      } else {
        var m :| 0 <= m < |next| && next[m] == stamp;
        AttributedByAlignment(differ, updates[0].mine, unattributed, text, stamps, after, m);
      }
    }
  }

  // ----- the document under a run of updates

  lemma RunStep<B, S>(differ: (seq<B>, seq<B>) -> seq<Change<B>>, unattributed: S, text: seq<B>, stamps: seq<S>,
                      updates: seq<Update<B, S>>)
    requires updates != []
    ensures RunStamps(differ, unattributed, text, stamps, updates)
         == RunStamps(differ, unattributed, Flat(updates[0].merged),
                      Attributed(differ, updates[0].mine, unattributed, text, stamps, Flat(updates[0].merged)),
                      updates[1..])
  {
  }

  lemma RunNothing<B, S>(differ: (seq<B>, seq<B>) -> seq<Change<B>>, unattributed: S, text: seq<B>, stamps: seq<S>,
                         updates: seq<Update<B, S>>)
    requires updates == []
    ensures RunStamps(differ, unattributed, text, stamps, updates) == stamps
  {
  }

  /** A document that takes one update after the other ends with the stamps of the run:
      every one of them was there at the start or is a sender's. */
  method ApplyAll<B(==,!new), S(==,!new)>(doc: CoeditDoc<B, S>, differ: (seq<B>, seq<B>) -> seq<Change<B>>,
                                          unattributed: S, updates: seq<Update<B, S>>)
    requires IsDiffer(differ)
    modifies doc
    ensures Flat(doc.cells) == if updates == [] then Flat(old(doc.cells)) else Flat(updates[|updates|-1].merged)
    ensures Stamps(doc.cells) == RunStamps(differ, unattributed, Flat(old(doc.cells)), Stamps(old(doc.cells)), updates)
    ensures forall stamp | stamp in Stamps(doc.cells) :: stamp in Stamps(old(doc.cells)) || AnySender(stamp, updates)
  {
    hide Flat, Stamps, RunStamps, AnySender, IsDiffer, Attributed;
    ghost var text, stamps := Flat(doc.cells), Stamps(doc.cells);
    assert updates[0..] == updates;
    for k := 0 to |updates|
      invariant Flat(doc.cells) == if k == 0 then text else Flat(updates[k-1].merged)
      invariant RunStamps(differ, unattributed, Flat(doc.cells), Stamps(doc.cells), updates[k..])
             == RunStamps(differ, unattributed, text, stamps, updates)
    {
      var update := updates[k];
      RunStep(differ, unattributed, Flat(doc.cells), Stamps(doc.cells), updates[k..]);
      assert updates[k..][0] == update && updates[k..][1..] == updates[k+1..];
      DifferTurns(differ, Flat(doc.cells), Flat(update.merged));
      var _ := doc.ApplyUpdateAs(differ, update.mine, unattributed, update.merged);
    }
    RunNothing(differ, unattributed, Flat(doc.cells), Stamps(doc.cells), updates[|updates|..]);
    forall stamp | stamp in Stamps(doc.cells) ensures stamp in stamps || AnySender(stamp, updates) {
      var k: nat :| k < |Stamps(doc.cells)| && Stamps(doc.cells)[k] == stamp;
      AuthorsAreAuthentic(differ, unattributed, text, stamps, updates, k);
    }
  }

  lemma DifferTurns<B(!new)>(differ: (seq<B>, seq<B>) -> seq<Change<B>>, before: seq<B>, after: seq<B>)
    requires IsDiffer(differ)
    ensures Turns(differ(before, after), before, after)
  {
  }

  /** Two documents that start alike and take updates from the same senders to the same
      texts end alike, whatever stamps, layouts and forgeries the updates carried. */
  method ApplyBoth<B(==,!new), S(==,!new)>(one: CoeditDoc<B, S>, other: CoeditDoc<B, S>,
                                           differ: (seq<B>, seq<B>) -> seq<Change<B>>, unattributed: S,
                                           a: seq<Update<B, S>>, b: seq<Update<B, S>>)
    requires IsDiffer(differ) && one != other && SameTextsAndSenders(a, b)
    requires Flat(one.cells) == Flat(other.cells) && Stamps(one.cells) == Stamps(other.cells)
    modifies one, other
    ensures Flat(one.cells) == Flat(other.cells) && Stamps(one.cells) == Stamps(other.cells)
  {
    hide Flat, Stamps, RunStamps, AnySender, IsDiffer;
    ForgedStampsHaveNoEffect(differ, unattributed, Flat(one.cells), Stamps(one.cells), a, b);
    ApplyAll(one, differ, unattributed, a);
    ApplyAll(other, differ, unattributed, b);
  }

  lemma AttributedLength<B, S>(differ: (seq<B>, seq<B>) -> seq<Change<B>>, mine: S, unattributed: S,
                               before: seq<B>, stamps: seq<S>, after: seq<B>)
    requires Turns(differ(before, after), before, after)
    ensures |Attributed(differ, mine, unattributed, before, stamps, after)| == |after|
  {
  }
}
