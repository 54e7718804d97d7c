/** Edit scripts: what a text differ returns, over characters, bytes or lines. The
    differ itself is not modelled; a script is any list of changes whose kept and
    deleted parts spell the old text and whose kept and inserted parts the new one. */
module EditScripts {
  import opened Tilings

  datatype Change<+T> = Equal(value: seq<T>) | Delete(value: seq<T>) | Insert(value: seq<T>)

  ghost function OldSide<T>(script: seq<Change<T>>): seq<T> {
    if script == [] then []
    else (if script[0].Insert? then [] else script[0].value) + OldSide(script[1..])
  }

  ghost function NewSide<T>(script: seq<Change<T>>): seq<T> {
    if script == [] then []
    else (if script[0].Delete? then [] else script[0].value) + NewSide(script[1..])
  }

  ghost predicate Turns<T>(script: seq<Change<T>>, before: seq<T>, after: seq<T>) {
    OldSide(script) == before && NewSide(script) == after
  }

  /** A deterministic differ: some valid script for every pair of texts. */
  ghost predicate IsDiffer<T(!new)>(differ: (seq<T>, seq<T>) -> seq<Change<T>>) {
    forall before, after :: Turns(differ(before, after), before, after)
  }

  /** Where an item of the new text comes from. */
  datatype Origin = Introduced | Survivor(pos: int)

  /** The `n` positions from `at` on. */
  ghost function Onwards(at: nat, n: nat): (r: seq<Origin>)
    ensures |r| == n
    ensures forall i | 0 <= i < n :: r[i] == Survivor(at + i)
    decreases n
  {
    if n == 0 then [] else [Survivor(at)] + Onwards(at + 1, n - 1)
  }

  ghost function HeadOld<T>(c: Change<T>): nat { if c.Insert? then 0 else |c.value| }

  ghost function HeadNew<T>(c: Change<T>): nat { if c.Delete? then 0 else |c.value| }

  /** Where the new items of one change come from, `at` old items being passed. */
  ghost function Origins<T>(c: Change<T>, at: nat): (r: seq<Origin>)
    ensures |r| == HeadNew(c)
    ensures forall i | 0 <= i < |r| :: r[i] == if c.Equal? then Survivor(at + i) else Introduced
  {
    match c
    case Equal(v) => Onwards(at, |v|)
    case Delete(_) => []
    case Insert(v) => Repeat(Introduced, |v|)
  }

  /** For every item of the new text, the old position it survives from, if any. */
  ghost function Alignment<T>(script: seq<Change<T>>, at: nat): (a: seq<Origin>)
    ensures |a| == |NewSide(script)|
  {
    if script == [] then []
    else Origins(script[0], at) + Alignment(script[1..], at + HeadOld(script[0]))
  }

  lemma SomethingInScript<T>(script: seq<Change<T>>)
    ensures NewSide(script) != [] ==> script != []
  {
  }

  lemma SidesStep<T>(script: seq<Change<T>>)
    requires script != []
    ensures |OldSide(script)| == HeadOld(script[0]) + |OldSide(script[1..])|
    ensures |NewSide(script)| == HeadNew(script[0]) + |NewSide(script[1..])|
    ensures HeadOld(script[0]) > 0 ==> OldSide(script)[..HeadOld(script[0])] == script[0].value
    ensures OldSide(script)[HeadOld(script[0])..] == OldSide(script[1..])
    ensures HeadNew(script[0]) > 0 ==> NewSide(script)[..HeadNew(script[0])] == script[0].value
    ensures NewSide(script)[HeadNew(script[0])..] == NewSide(script[1..])
  {
  }

  lemma NoSides<T>()
    ensures OldSide<T>([]) == [] && NewSide<T>([]) == []
  {
  }

  lemma AlignmentUnfold<T>(script: seq<Change<T>>, at: nat)
    requires script != []
    ensures Alignment(script, at) == Origins(script[0], at) + Alignment(script[1..], at + HeadOld(script[0]))
  {
  }

  lemma AlignmentStep<T>(script: seq<Change<T>>, at: nat, k: nat)
    requires k < |NewSide(script)|
    ensures var head := HeadNew(script[0]);
      if k < head then
        Alignment(script, at)[k] == if script[0].Equal? then Survivor(at + k) else Introduced
      else
        && k - head < |NewSide(script[1..])|
        && Alignment(script, at)[k] == Alignment(script[1..], at + HeadOld(script[0]))[k - head]
  {
    hide Alignment, NewSide, OldSide, Origins;
    SomethingInScript(script);
    SidesStep(script);
    AlignmentUnfold(script, at);
  }

  /** A survivor is paired with an equal item of the old text. */
  lemma {:induction false} AlignedItem<T>(script: seq<Change<T>>, at: nat, k: nat)
    requires k < |NewSide(script)| && Alignment(script, at)[k].Survivor?
    ensures var j := Alignment(script, at)[k].pos;
      at <= j < at + |OldSide(script)| && OldSide(script)[j - at] == NewSide(script)[k]
    decreases |script|
  {
    hide Alignment, OldSide, NewSide;
    SomethingInScript(script);
    AlignmentStep(script, at, k);
    SidesStep(script);
    var headOld, headNew, rest := HeadOld(script[0]), HeadNew(script[0]), script[1..];
    if k < headNew {
      assert NewSide(script)[k] == NewSide(script)[..headNew][k] == OldSide(script)[..headOld][k];
    } else {
      AlignedItem(rest, at + headOld, k - headNew);
      var j := Alignment(script, at)[k].pos;
      assert NewSide(script)[k] == NewSide(rest)[k - headNew];
      assert OldSide(script)[j - at] == OldSide(rest)[j - at - headOld];
    }
  }

  /** What a change keeps survives, item for item, from where it stands in the old text;
      what it inserts is introduced. */
  lemma {:induction false} ChangeAligned<T>(script: seq<Change<T>>, at: nat, c: nat, k: nat)
    requires c < |script| && !script[c].Delete? && k < |script[c].value|
    ensures var pos := |NewSide(script[..c])| + k;
      && pos < |NewSide(script)|
      && Alignment(script, at)[pos]
         == if script[c].Equal? then Survivor(at + |OldSide(script[..c])| + k) else Introduced
    decreases |script|
  {
    hide Alignment, Origins, OldSide, NewSide;
    SidesStep(script);
    if c == 0 {
      NoSides<T>();
      AlignmentStep(script, at, k);
    } else {
      var head, rest := script[0], script[1..];
      ChangeAligned(rest, at + HeadOld(head), c - 1, k);
      assert script[..c][0] == head && script[..c][1..] == rest[..c-1];
      SidesStep(script[..c]);
      AlignmentStep(script, at, |NewSide(script[..c])| + k);
    }
  }

  /** Survivors keep their order. */
  lemma {:induction false} AlignedOrder<T>(script: seq<Change<T>>, at: nat, k: nat, m: nat)
    requires k < m < |NewSide(script)|
    requires Alignment(script, at)[k].Survivor? && Alignment(script, at)[m].Survivor?
    ensures Alignment(script, at)[k].pos < Alignment(script, at)[m].pos
    decreases |script|
  {
    hide Alignment, OldSide, NewSide;
    SomethingInScript(script);
    AlignmentStep(script, at, k);
    AlignmentStep(script, at, m);
    var head := HeadNew(script[0]);
    if k >= head {
      AlignedOrder(script[1..], at + HeadOld(script[0]), k - head, m - head);
    } else if m >= head {
      AlignedItem(script[1..], at + HeadOld(script[0]), m - head);
    }
  }
}
