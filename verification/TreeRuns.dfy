/** Documents and the file they check point to, driven through any sequence of calls: what
    the calls do is a run of the protocol. */
module TreeRuns {
  import opened Tilings
  import opened Authorship
  import opened Bytes
  import opened TreeSpans
  import opened TreeCheckpoints

  /** A call on the file, or a foreign write to it. Documents are named in the order they
      were loaded. */
  datatype Call =
    | Load(root: string)
    | SeedFrom(doc: nat, body: seq<byte>)
    | CheckPoint(doc: nat, body: seq<byte>, spans: seq<TreeSpan>, authors: map<Node, Author>, who: Author,
                 boundary: nat -> bool, landed: Option<Address>)
    | Persist(doc: nat)
    | Overwrite(content: Option<Address>)

  /** The step a call is, `n` documents having been loaded: none for a document that was
      not, and none for a body that is not text, or not the one stored where it would land. */
  ghost function StepOf(store: Address -> seq<byte>, isText: seq<byte> -> bool, call: Call, n: nat): Option<Step> {
    match call
    case Load(root) => Some(Open(root))
    case SeedFrom(i, body) => if i < n then Some(Seed(i, body)) else None
    case CheckPoint(i, body, spans, _, _, boundary, landed) =>
      if i < n && isText(body) && Read(store, landed) == body
      then Some(Check(i, body, landed, Ordered(spans, 0, |body|, boundary))) else None
    case Persist(i) => if i < n then Some(Sweep(i)) else None
    case Overwrite(content) => Some(Write(content))
  }

  ghost function Loads(calls: seq<Call>): nat {
    if calls == [] then 0 else Loads(calls[..|calls|-1]) + if calls[|calls|-1].Load? then 1 else 0
  }

  ghost function StepsOf(store: Address -> seq<byte>, isText: seq<byte> -> bool, calls: seq<Call>): seq<Step> {
    if calls == [] then []
    else
      var earlier := calls[..|calls|-1];
      var step := StepOf(store, isText, calls[|calls|-1], Loads(earlier));
      StepsOf(store, isText, earlier) + if step.Some? then [step.value] else []
  }

  lemma OneMoreCall(store: Address -> seq<byte>, isText: seq<byte> -> bool, calls: seq<Call>, k: nat)
    requires k < |calls|
    ensures var step := StepOf(store, isText, calls[k], Loads(calls[..k]));
      StepsOf(store, isText, calls[..k+1])
      == StepsOf(store, isText, calls[..k]) + if step.Some? then [step.value] else []
    ensures Loads(calls[..k+1]) == Loads(calls[..k]) + if calls[k].Load? then 1 else 0
  {
    assert calls[..k+1][..k] == calls[..k];
  }

  /** The documents as they are. */
  ghost predicate Shows(docs: seq<CoeditTreeDoc>, views: seq<Doc>)
    reads docs
  {
    |docs| == |views| && forall i | 0 <= i < |docs| :: docs[i].View() == views[i]
  }

  ghost predicate Sound(store: Address -> seq<byte>, docs: seq<CoeditTreeDoc>)
    reads docs
  {
    && (forall i, j | 0 <= i < j < |docs| :: docs[i] != docs[j])
    && (forall i | 0 <= i < |docs| :: Addressed(store, docs[i].View()))
  }

  lemma NoCalls(store: Address -> seq<byte>, isText: seq<byte> -> bool, files: Files)
    requires files.sidecar == None
    ensures IsRun(store, [State(files, [], [])], []) && StepsOf(store, isText, []) == [] && Loads([]) == 0
  {
  }

  /** Over a file that has no sidecar yet: whatever is called, in whatever order, the file
      and the documents end as a run of exactly these steps leaves them. */
  method Drive(file: TreeFile, calls: seq<Call>)
    returns (docs: seq<CoeditTreeDoc>, ghost run: seq<State>, ghost steps: seq<Step>)
    requires file.sidecar == None
    modifies file
    ensures IsRun(file.store, run, steps) && run[0] == State(old(file.View()), [], [])
    ensures steps == StepsOf(file.store, file.isText, calls)
    ensures file.View() == run[|run|-1].files && Shows(docs, run[|run|-1].docs)
  {
    hide IsRun, Next, StepsOf, StepOf, Loads;
    docs, run, steps := [], [State(file.View(), [], [])], [];
    NoCalls(file.store, file.isText, file.View());
    for k := 0 to |calls|
      invariant IsRun(file.store, run, steps) && run != [] && run[0] == State(old(file.View()), [], [])
      invariant steps == StepsOf(file.store, file.isText, calls[..k]) && |docs| == Loads(calls[..k])
      invariant file.View() == run[|run|-1].files && Shows(docs, run[|run|-1].docs)
      invariant Sound(file.store, docs) && forall i | 0 <= i < |docs| :: fresh(docs[i])
    {
      ghost var before, step := run[|run|-1], StepOf(file.store, file.isText, calls[k], |docs|);
      OneMoreCall(file.store, file.isText, calls, k);
      ghost var after;
      docs, after := Do(file, docs, calls[k], before);
      if step.Some? {
        run, steps := Extend(file.store, run, steps, after, step.value);
      }
    }
    assert calls[..|calls|] == calls;
  }

  /** One call. */
  method Do(file: TreeFile, docs: seq<CoeditTreeDoc>, call: Call, ghost before: State)
    returns (docs': seq<CoeditTreeDoc>, ghost after: State)
    requires file.View() == before.files && Shows(docs, before.docs) && Sound(file.store, docs)
    modifies file, docs
    ensures file.View() == after.files && Shows(docs', after.docs) && Sound(file.store, docs')
    ensures docs <= docs' && forall i | |docs| <= i < |docs'| :: fresh(docs'[i])
    ensures |docs'| == |docs| + if call.Load? then 1 else 0
    ensures match StepOf(file.store, file.isText, call, |docs|)
            case Some(step) => Next(file.store, before, after, step)
            case None => after == before
  {
    hide Entitled, Settled, Ordered, Opened, Framed;
    docs', after := docs, before;
    match call {
      case Load(root) =>
        var doc := file.Load(root);
        docs', after := docs + [doc], before.(docs := before.docs + [doc.View()]);
      case SeedFrom(i, body) =>
        if i < |docs| {
          docs[i].SeededFrom(body);
          after := State(before.files, before.docs[i := docs[i].View()],
                         before.history + [Seeded(docs[i].root, body)]);
        }
      case CheckPoint(i, body, spans, authors, who, boundary, landed) =>
        if i < |docs| && Read(file.store, landed) == body {
          var r := file.Checkpoint(docs[i], body, spans, authors, who, boundary, landed);
          if r != NotText {
            after := Checkpointed(file.store, before, i, body, landed, Ordered(spans, 0, |body|, boundary));
          }
        }
      case Persist(i) =>
        if i < |docs| {
          file.Persist(docs[i]);
          after := before.(files := file.View());
        }
      case Overwrite(content) =>
        file.content := content;
        after := before.(files := file.View());
    }
  }
}
