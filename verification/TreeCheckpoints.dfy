/** Checkpoints of a tree-shaped document: which bytes a replica may replace, and what
    sidecars say, whatever other replicas and writers do to the file in between. */
module TreeCheckpoints {
  import opened Tilings
  import opened Authorship
  import opened Bytes
  import opened TreeSpans

  /** Where a body is stored. One body can have several addresses. */
  type Address = nat

  datatype Base = Base(body: Hash, addr: Option<Address>)

  datatype Doc = Doc(root: string, base: Option<Base>)

  datatype Sidecar = Sidecar(root: string, body: Hash)

  datatype Files = Files(content: Option<Address>, sidecar: Option<Sidecar>)

  /** A missing file reads as empty. */
  function Read(store: Address -> seq<byte>, content: Option<Address>): seq<byte> {
    if content.Some? then store(content.value) else []
  }

  function Current(store: Address -> seq<byte>, files: Files): Hash {
    Hash(Read(store, files.content))
  }

  predicate Vouches(files: Files, root: string, body: Hash) {
    files.sidecar == Some(Sidecar(root, body))
  }

  predicate Names(doc: Doc, body: Hash) {
    doc.base.Some? && doc.base.value.body == body
  }

  /** The bytes in the file are ones the document accounts for. */
  predicate Entitled(store: Address -> seq<byte>, files: Files, doc: Doc) {
    || Names(doc, Current(store, files))
    || Vouches(files, doc.root, Current(store, files))
    || (doc.base == None && Read(store, files.content) == [])
  }

  /** The address a base remembers holds the body it names. */
  predicate Addressed(store: Address -> seq<byte>, doc: Doc) {
    doc.base.Some? && doc.base.value.addr.Some? ==> Hash(store(doc.base.value.addr.value)) == doc.base.value.body
  }

  /** The document once the guard has let it pass. */
  function Settled(store: Address -> seq<byte>, files: Files, doc: Doc): Doc {
    if Names(doc, Current(store, files)) || Vouches(files, doc.root, Current(store, files))
    then doc.(base := Some(Base(Current(store, files), files.content)))
    else doc
  }

  function Opened(store: Address -> seq<byte>, files: Files, root: string): Doc {
    var bytes := Current(store, files);
    Doc(root, if Vouches(files, root, bytes) then Some(Base(bytes, files.content)) else None)
  }

  /** A sidecar is framed with the document's base, an unseeded one with no bytes. */
  function Framed(doc: Doc): Sidecar {
    Sidecar(doc.root, if doc.base.Some? then doc.base.value.body else Hash([]))
  }

  // ----- the operations

  class CoeditTreeDoc {
    const root: string
    var base: Option<Base>
    var resumed: bool

    function View(): Doc
      reads this
    {
      Doc(root, base)
    }

    constructor (root: string)
      ensures View() == Doc(root, None) && !resumed
    {
      this.root, base, resumed := root, None, false;
    }

    method SeededFrom(body: seq<byte>)
      modifies this`base
      ensures View() == old(View()).(base := Some(Base(Hash(body), None)))
    {
      base := Some(Base(Hash(body), None));
    }
  }

  datatype Outcome = Landed | NotText | ForeignWrite | BadSpans

  class TreeFile {
    const store: Address -> seq<byte>
    const isText: seq<byte> -> bool
    var content: Option<Address>
    var sidecar: Option<Sidecar>
    var blame: seq<Run<Author>>

    function View(): Files
      reads this
    {
      Files(content, sidecar)
    }

    constructor (store: Address -> seq<byte>, isText: seq<byte> -> bool)
      ensures View() == Files(None, None) && this.store == store && this.isText == isText
    {
      this.store, this.isText, content, sidecar, blame := store, isText, None, None, [];
    }

    /** Resumes exactly when the sidecar is this root's and vouches for the file. */
    method Load(root: string) returns (doc: CoeditTreeDoc)
      ensures fresh(doc) && doc.View() == Opened(store, View(), root)
      ensures Addressed(store, doc.View()) && doc.resumed == doc.base.Some?
    {
      doc := new CoeditTreeDoc(root);
      if sidecar.None? || sidecar.value.root != root {
        return;
      }
      var current := Read(store, content);
      if Hash(current) != sidecar.value.body {
        return;
      }
      doc.resumed := true;
      doc.base := Some(Base(Hash(current), content));
    }

    /** The address alone settles the ordinary case; the hash decides the others. */
    method EnsureCoherent(doc: CoeditTreeDoc) returns (ok: bool)
      requires Addressed(store, doc.View())
      modifies doc`base
      ensures ok <==> Entitled(store, View(), old(doc.View()))
      ensures doc.View() == if ok then Settled(store, View(), old(doc.View())) else old(doc.View())
      ensures var bytes := Read(store, content);
        var named := old(doc.base).Some? && old(doc.base).value.body == Hash(bytes);
        var vouched := sidecar == Some(Sidecar(doc.root, Hash(bytes)));
        && (ok <==> named || vouched || (old(doc.base).None? && bytes == []))
        && doc.base == if named || vouched then Some(Base(Hash(bytes), content)) else old(doc.base)
    {
      if content.Some? && doc.base.Some? && doc.base.value.addr == content {
        return true;
      }
      var current := Read(store, content);
      if doc.base.Some? && doc.base.value.body == Hash(current) {
        doc.base := Some(Base(Hash(current), content));
        return true;
      }
      if sidecar.Some? && sidecar.value.root == doc.root && sidecar.value.body == Hash(current) {
        doc.base := Some(Base(Hash(current), content));
        return true;
      }
      ok := doc.base.None? && current == [];
    }

    method Persist(doc: CoeditTreeDoc)
      modifies this`sidecar
      ensures View() == old(View()).(sidecar := Some(Framed(doc.View())))
    {
      sidecar := Some(Sidecar(doc.root, if doc.base.Some? then doc.base.value.body else Hash([])));
    }

    /** Lands `body` at `landed` if the file's bytes are accounted for. */
    method Checkpoint(doc: CoeditTreeDoc, body: seq<byte>, spans: seq<TreeSpan>, authors: map<Node, Author>,
                      who: Author, boundary: nat -> bool, landed: Option<Address>) returns (r: Outcome)
      requires Addressed(store, doc.View()) && Read(store, landed) == body
      modifies this, doc`base
      ensures Addressed(store, doc.View())
      ensures r == if !isText(body) then NotText
                   else if !Entitled(store, old(View()), old(doc.View())) then ForeignWrite
                   else if !Ordered(spans, 0, |body|, boundary) then BadSpans
                   else Landed
      ensures var bytes := Read(store, old(content));
        var coherent := || (old(doc.base).Some? && old(doc.base).value.body == Hash(bytes))
                        || old(sidecar) == Some(Sidecar(doc.root, Hash(bytes)))
                        || (old(doc.base).None? && bytes == []);
        r.Landed? <==> isText(body) && coherent && Ordered(spans, 0, |body|, boundary)
      ensures r != Landed ==> View() == old(View()) && blame == old(blame)
      ensures r.Landed? ==>
        && View() == Files(landed, Some(Sidecar(doc.root, Hash(body))))
        && doc.View() == Doc(doc.root, Some(Base(Hash(body), landed)))
        && Ordered(spans, 0, |body|, boundary)
        && Expand(blame) == SpanAuthors(spans, 0, |body|, authors, who, boundary)
      ensures r.NotText? || r.ForeignWrite? ==> doc.View() == old(doc.View())
      ensures r.BadSpans? ==> doc.View() == Settled(store, old(View()), old(doc.View()))
    {
      if !isText(body) {
        return NotText;
      }
      var coherent := EnsureCoherent(doc);
      if !coherent {
        return ForeignWrite;
      }
      var tiled := TileSpans(|body|, spans, authors, who, boundary);
      if tiled.Refused? {
        return BadSpans;
      }
      content, blame := landed, tiled.spans;
      doc.base := Some(Base(Hash(body), content));
      Persist(doc);
      r := Landed;
    }
  }

  // ----- runs: many replicas of any roots, and writers around them

  /** What happened to the file and to what documents account for. */
  datatype Event =
    | Seeded(root: string, body: seq<byte>)
    | Replaced(root: string, body: seq<byte>, before: seq<byte>)

  datatype State = State(files: Files, docs: seq<Doc>, history: seq<Event>)

  datatype Step =
    | Open(root: string)
    | Seed(doc: nat, body: seq<byte>)
    | Check(doc: nat, body: seq<byte>, landed: Option<Address>, fits: bool)
    | Sweep(doc: nat)
    | Write(content: Option<Address>)

  ghost predicate Init(s: State) {
    s.files.sidecar == None && s.docs == [] && s.history == []
  }

  ghost predicate Next(store: Address -> seq<byte>, s: State, s': State, step: Step) {
    match step
    case Open(root) => s' == s.(docs := s.docs + [Opened(store, s.files, root)])
    case Seed(i, body) =>
      i < |s.docs| && s' == s.(docs := s.docs[i := s.docs[i].(base := Some(Base(Hash(body), None)))],
                               history := s.history + [Seeded(s.docs[i].root, body)])
    case Check(i, body, landed, fits) =>
      i < |s.docs| && Read(store, landed) == body && s' == Checkpointed(store, s, i, body, landed, fits)
    case Sweep(i) => i < |s.docs| && s' == s.(files := s.files.(sidecar := Some(Framed(s.docs[i]))))
    case Write(content) => s' == s.(files := s.files.(content := content))
  }

  function Checkpointed(store: Address -> seq<byte>, s: State, i: nat, body: seq<byte>, landed: Option<Address>,
                        fits: bool): State
    requires i < |s.docs|
  {
    var doc := s.docs[i];
    if !Entitled(store, s.files, doc) then s
    else if !fits then s.(docs := s.docs[i := Settled(store, s.files, doc)])
    else State(Files(landed, Some(Sidecar(doc.root, Hash(body)))),
               s.docs[i := doc.(base := Some(Base(Hash(body), landed)))],
               s.history + [Replaced(doc.root, body, Read(store, s.files.content))])
  }

  /** Some replica of `root` was seeded from `body` or landed it, before event `n`. */
  ghost predicate AccountedFor(history: seq<Event>, n: nat, root: string, body: Hash) {
    exists j: nat | j < n && j < |history| :: history[j].root == root && Hash(history[j].body) == body
  }

  ghost predicate Known(history: seq<Event>, root: string, body: Hash) {
    body == Hash([]) || AccountedFor(history, |history|, root, body)
  }

  /** A landing replaced nothing, or bytes some replica of its root accounted for. */
  ghost predicate LossFree(history: seq<Event>, n: nat)
    requires n < |history|
  {
    history[n].Replaced? ==>
      history[n].before == [] || AccountedFor(history, n, history[n].root, Hash(history[n].before))
  }

  ghost predicate DocKnown(store: Address -> seq<byte>, history: seq<Event>, doc: Doc) {
    Addressed(store, doc) && (doc.base.Some? ==> Known(history, doc.root, doc.base.value.body))
  }

  ghost predicate Inv(store: Address -> seq<byte>, s: State) {
    && (s.files.sidecar.Some? ==> Known(s.history, s.files.sidecar.value.root, s.files.sidecar.value.body))
    && (forall doc | doc in s.docs :: DocKnown(store, s.history, doc))
    && (forall n: nat | n < |s.history| :: LossFree(s.history, n))
  }

  lemma KnownGrows(history: seq<Event>, event: Event, root: string, body: Hash)
    ensures Known(history, root, body) ==> Known(history + [event], root, body)
    ensures Known(history + [event], event.root, Hash(event.body))
  {
    var more := history + [event];
    assert more[|history|] == event;
    if j: nat :| j < |history| && history[j].root == root && Hash(history[j].body) == body {
      assert more[j] == history[j];
    }
  }

  lemma AccountedGrows(history: seq<Event>, event: Event, n: nat, root: string, body: Hash)
    requires n <= |history|
    ensures AccountedFor(history, n, root, body) ==> AccountedFor(history + [event], n, root, body)
  {
    var more := history + [event];
    if j: nat :| j < n && j < |history| && history[j].root == root && Hash(history[j].body) == body {
      assert more[j] == history[j];
    }
  }

  /** Whoever the guard lets pass accounts for the bytes. */
  lemma EntitledIsKnown(store: Address -> seq<byte>, s: State, doc: Doc)
    requires Inv(store, s) && doc in s.docs && Entitled(store, s.files, doc)
    ensures Known(s.history, doc.root, Current(store, s.files))
  {
    hide AccountedFor;
    assert DocKnown(store, s.history, doc);
  }

  lemma SettledIsKnown(store: Address -> seq<byte>, s: State, doc: Doc)
    requires Inv(store, s) && doc in s.docs && Entitled(store, s.files, doc)
    ensures DocKnown(store, s.history, Settled(store, s.files, doc))
  {
    hide Known;
    EntitledIsKnown(store, s, doc);
    assert DocKnown(store, s.history, doc);
  }

  /** One more event and one document changed, to a base the history knows. */
  lemma RecordKeepsInv(store: Address -> seq<byte>, s: State, s': State, i: nat, event: Event, doc: Doc)
    requires Inv(store, s) && i < |s.docs|
    requires s'.history == s.history + [event] && s'.docs == s.docs[i := doc]
    requires DocKnown(store, s'.history, doc) && LossFree(s'.history, |s.history|)
    requires s'.files.sidecar == s.files.sidecar || s'.files.sidecar == Some(Sidecar(event.root, Hash(event.body)))
    ensures Inv(store, s')
  {
    hide Known, AccountedFor, Addressed;
    forall root, body ensures Known(s.history, root, body) ==> Known(s'.history, root, body) {
      KnownGrows(s.history, event, root, body);
    }
    KnownGrows(s.history, event, event.root, Hash(event.body));
    forall d | d in s'.docs ensures DocKnown(store, s'.history, d) {
      assert d == doc || d in s.docs;
    }
    forall n: nat | n < |s'.history| ensures LossFree(s'.history, n) {
      if n < |s.history| {
        assert LossFree(s.history, n) && s'.history[n] == s.history[n];
        if s.history[n].Replaced? {
          AccountedGrows(s.history, event, n, s.history[n].root, Hash(s.history[n].before));
        }
      }
    }
  }

  lemma CheckKeepsInv(store: Address -> seq<byte>, s: State, i: nat, body: seq<byte>, landed: Option<Address>,
                      fits: bool)
    requires Inv(store, s) && i < |s.docs| && Read(store, landed) == body
    ensures Inv(store, Checkpointed(store, s, i, body, landed, fits))
  {
    hide Known, AccountedFor, Entitled, Settled;
    var doc, s' := s.docs[i], Checkpointed(store, s, i, body, landed, fits);
    if Entitled(store, s.files, doc) {
      if fits {
        var event := Replaced(doc.root, body, Read(store, s.files.content));
        KnownGrows(s.history, event, doc.root, Hash(body));
        EntitledIsKnown(store, s, doc);
        LandingIsLossFree(s.history, event);
        RecordKeepsInv(store, s, s', i, event, s'.docs[i]);
      } else {
        SettledIsKnown(store, s, doc);
        forall d | d in s'.docs ensures DocKnown(store, s'.history, d) {
          assert d == s'.docs[i] || d in s.docs;
        }
      }
    }
  }

  lemma LandingIsLossFree(history: seq<Event>, event: Event)
    requires event.Replaced? && Known(history, event.root, Hash(event.before))
    ensures LossFree(history + [event], |history|)
  {
    AccountedGrows(history, event, |history|, event.root, Hash(event.before));
    assert (history + [event])[|history|] == event;
  }

  lemma NextKeepsInv(store: Address -> seq<byte>, s: State, s': State, step: Step)
    requires Inv(store, s) && Next(store, s, s', step)
    ensures Inv(store, s')
  {
    hide Known, AccountedFor, Checkpointed, LossFree;
    match step
    case Open(root) =>
      forall d | d in s'.docs ensures DocKnown(store, s'.history, d) {
        assert d == Opened(store, s.files, root) || d in s.docs;
      }
    case Seed(i, body) =>
      var event := Seeded(s.docs[i].root, body);
      KnownGrows(s.history, event, event.root, Hash(body));
      SeedIsLossFree(s.history, event);
      RecordKeepsInv(store, s, s', i, event, s'.docs[i]);
    case Check(i, body, landed, fits) =>
      CheckKeepsInv(store, s, i, body, landed, fits);
    case Sweep(i) =>
      assert DocKnown(store, s.history, s.docs[i]);
      EmptyIsKnown(s.history, s.docs[i].root);
    case Write(content) =>
  }

  lemma EmptyIsKnown(history: seq<Event>, root: string)
    ensures Known(history, root, Hash([]))
  {
  }

  lemma SeedIsLossFree(history: seq<Event>, event: Event)
    requires event.Seeded?
    ensures LossFree(history + [event], |history|)
  {
    assert (history + [event])[|history|] == event;
  }

  ghost predicate IsRun(store: Address -> seq<byte>, run: seq<State>, steps: seq<Step>) {
    && |run| == |steps| + 1 && Init(run[0])
    && forall k | 0 <= k < |steps| :: Takes(store, run, steps, k)
  }

  ghost predicate Takes(store: Address -> seq<byte>, run: seq<State>, steps: seq<Step>, k: nat)
    requires k < |steps| && k + 1 < |run|
  {
    Next(store, run[k], run[k + 1], steps[k])
  }

  lemma {:induction false} RunKeepsInv(store: Address -> seq<byte>, run: seq<State>, steps: seq<Step>, n: nat)
    requires IsRun(store, run, steps) && n < |run|
    ensures Inv(store, run[n])
    decreases n
  {
    hide Next;
    if n == 0 {
      assert Inv(store, run[0]);
    } else {
      RunKeepsInv(store, run, steps, n - 1);
      assert Takes(store, run, steps, n - 1);
      NextKeepsInv(store, run[n-1], run[n], steps[n-1]);
    }
  }

  // ----- what the guard buys

  /** Over any run, what a checkpoint replaced was nothing, or bytes a replica of the same
      root had been seeded from or had itself landed earlier. */
  lemma CheckpointsLoseNothing(store: Address -> seq<byte>, run: seq<State>, steps: seq<Step>, n: nat, k: nat)
    requires IsRun(store, run, steps) && n < |run|
    requires k < |run[n].history| && run[n].history[k].Replaced? && run[n].history[k].before != []
    ensures exists j: nat | j < k ::
              run[n].history[j].root == run[n].history[k].root && run[n].history[j].body == run[n].history[k].before
  {
    hide Init, Next, Takes;
    RunKeepsInv(store, run, steps, n);
    assert LossFree(run[n].history, k);
  }

  /** Bytes no replica of a root was seeded from or landed are refused to all its replicas. */
  lemma ForeignBytesAreRefused(store: Address -> seq<byte>, run: seq<State>, steps: seq<Step>, n: nat, doc: Doc)
    requires IsRun(store, run, steps) && n < |run| && doc in run[n].docs
    requires Read(store, run[n].files.content) != []
    requires forall j: nat | j < |run[n].history| && run[n].history[j].root == doc.root ::
               run[n].history[j].body != Read(store, run[n].files.content)
    ensures !Entitled(store, run[n].files, doc)
  {
    hide Init, Next, Takes;
    RunKeepsInv(store, run, steps, n);
    if Entitled(store, run[n].files, doc) {
      EntitledIsKnown(store, run[n], doc);
    }
  }

  /** A sidecar's hash is that of a body one of its root's replicas was seeded from or
      landed, or of no bytes. */
  lemma SidecarsAreEarned(store: Address -> seq<byte>, run: seq<State>, steps: seq<Step>, n: nat)
    requires IsRun(store, run, steps) && n < |run| && run[n].files.sidecar.Some?
    ensures var sidecar := run[n].files.sidecar.value;
            sidecar.body == Hash([]) ||
            exists j: nat | j < |run[n].history| ::
              run[n].history[j].root == sidecar.root && Hash(run[n].history[j].body) == sidecar.body
  {
    hide Init, Next, Takes;
    RunKeepsInv(store, run, steps, n);
  }

  // ----- who may go on

  /** The file holds what this root's sidecar vouches for. */
  ghost predicate Vouched(store: Address -> seq<byte>, files: Files, root: string) {
    Vouches(files, root, Current(store, files))
  }

  /** The step leaves the file to the replicas of `root`: nobody else writes or lands, and
      a sweep frames the bytes the file holds. */
  ghost predicate LeftTo(store: Address -> seq<byte>, s: State, step: Step, root: string) {
    match step
    case Write(_) => false
    case Sweep(i) => i < |s.docs| && Framed(s.docs[i]) == Sidecar(root, Current(store, s.files))
    case Check(i, _, _, fits) =>
      i < |s.docs| && (s.docs[i].root == root || !fits || !Entitled(store, s.files, s.docs[i]))
    case _ => true
  }

  /** Step `k` lands a body for a replica of `root`. */
  ghost predicate Lands(store: Address -> seq<byte>, s: State, step: Step, root: string) {
    step.Check? && step.fits && step.doc < |s.docs| && s.docs[step.doc].root == root
    && Entitled(store, s.files, s.docs[step.doc])
  }

  lemma LandingVouches(store: Address -> seq<byte>, s: State, s': State, step: Step, root: string)
    requires Next(store, s, s', step) && Lands(store, s, step, root)
    ensures Vouched(store, s'.files, root)
  {
  }

  lemma StepKeepsVouched(store: Address -> seq<byte>, s: State, s': State, step: Step, root: string)
    requires Next(store, s, s', step) && Vouched(store, s.files, root) && LeftTo(store, s, step, root)
    ensures Vouched(store, s'.files, root)
  {
  }

  lemma {:induction false} StaysVouched(store: Address -> seq<byte>, run: seq<State>, steps: seq<Step>, root: string,
                                        m: nat, n: nat)
    requires IsRun(store, run, steps) && m < n < |run| && Lands(store, run[m], steps[m], root)
    requires forall k: nat | m < k < n :: LeftTo(store, run[k], steps[k], root)
    ensures Vouched(store, run[n].files, root)
    decreases n
  {
    hide Init, Next, Lands, LeftTo, Vouched;
    assert Takes(store, run, steps, n - 1);
    if n == m + 1 {
      LandingVouches(store, run[m], run[n], steps[m], root);
    } else {
      StaysVouched(store, run, steps, root, m, n - 1);
      StepKeepsVouched(store, run[n-1], run[n], steps[n-1], root);
    }
  }

  /** From when one replica of a root lands, and for as long as the file is left to the
      root's replicas, each of them, whatever it was seeded from, may check point over
      what the file holds, and one opened resumes from it. */
  lemma EveryReplicaMayFollow(store: Address -> seq<byte>, run: seq<State>, steps: seq<Step>, root: string,
                              m: nat, n: nat)
    requires IsRun(store, run, steps) && m < n < |run| && Lands(store, run[m], steps[m], root)
    requires forall k: nat | m < k < n :: LeftTo(store, run[k], steps[k], root)
    ensures forall doc | doc in run[n].docs && doc.root == root :: Entitled(store, run[n].files, doc)
    ensures var files := run[n].files;
      Opened(store, files, root) == Doc(root, Some(Base(Current(store, files), files.content)))
  {
    hide IsRun, Lands, LeftTo;
    StaysVouched(store, run, steps, root, m, n);
  }

  /** The step neither seeds document `i` nor check points it. */
  ghost predicate LeavesDoc(step: Step, i: nat) {
    !(step.Seed? && step.doc == i) && !(step.Check? && step.doc == i)
  }

  /** Step `m` seeds document `i` from `body`, or lands `body` for it. */
  ghost predicate Bases(store: Address -> seq<byte>, s: State, step: Step, i: nat, body: seq<byte>) {
    || step == Seed(i, body)
    || (step.Check? && step.doc == i && step.body == body && step.fits && i < |s.docs|
        && Entitled(store, s.files, s.docs[i]))
  }

  lemma {:induction false} BaseStays(store: Address -> seq<byte>, run: seq<State>, steps: seq<Step>, m: nat, n: nat,
                                     i: nat, body: seq<byte>)
    requires IsRun(store, run, steps) && m < n < |run| && Bases(store, run[m], steps[m], i, body)
    requires forall k: nat | m < k < n :: LeavesDoc(steps[k], i)
    ensures i < |run[n].docs| && Names(run[n].docs[i], Hash(body))
    decreases n
  {
    hide Init;
    assert Takes(store, run, steps, n - 1);
    if m + 1 < n {
      hide Bases, Entitled, Settled, Opened;
      BaseStays(store, run, steps, m, n - 1, i, body);
      assert LeavesDoc(steps[n-1], i);
    }
  }

  /** A replica seeded from a body, or having landed it, and neither seeded nor check pointed
      since, lands its next checkpoint whenever the file reads that body, whatever anybody
      did to file and sidecar in between. */
  lemma OwnBytesLand(store: Address -> seq<byte>, run: seq<State>, steps: seq<Step>, m: nat, n: nat, i: nat,
                     body: seq<byte>)
    requires IsRun(store, run, steps) && m < n < |steps| && Bases(store, run[m], steps[m], i, body)
    requires forall k: nat | m < k < n :: LeavesDoc(steps[k], i)
    requires steps[n].Check? && steps[n].doc == i && steps[n].fits && Read(store, run[n].files.content) == body
    ensures i < |run[n].docs|
    ensures run[n+1].files == Files(steps[n].landed, Some(Sidecar(run[n].docs[i].root, Hash(steps[n].body))))
    ensures run[n+1].history == run[n].history + [Replaced(run[n].docs[i].root, steps[n].body, body)]
  {
    BaseStays(store, run, steps, m, n, i, body);
    assert Takes(store, run, steps, n);
    hide Init, Bases;
  }

  /** The step leaves the sidecar alone, whatever it does to the file. */
  ghost predicate LeavesSidecar(store: Address -> seq<byte>, s: State, step: Step) {
    match step
    case Sweep(_) => false
    case Check(i, _, _, fits) => i < |s.docs| && (!fits || !Entitled(store, s.files, s.docs[i]))
    case _ => true
  }

  lemma {:induction false} SidecarStays(store: Address -> seq<byte>, run: seq<State>, steps: seq<Step>, m: nat, n: nat)
    requires IsRun(store, run, steps) && m < n < |run| && steps[m].Sweep?
    requires forall k: nat | m < k < n :: LeavesSidecar(store, run[k], steps[k])
    ensures steps[m].doc < |run[m].docs| && run[n].files.sidecar == Some(Framed(run[m].docs[steps[m].doc]))
    decreases n
  {
    hide Init;
    assert Takes(store, run, steps, n - 1);
    if m + 1 < n {
      hide Next, LeavesSidecar, Framed;
      SidecarStays(store, run, steps, m, n - 1);
      StepLeavesSidecar(store, run[n-1], run[n], steps[n-1]);
    }
  }

  lemma StepLeavesSidecar(store: Address -> seq<byte>, s: State, s': State, step: Step)
    requires Next(store, s, s', step) && LeavesSidecar(store, s, step)
    ensures s'.files.sidecar == s.files.sidecar
  {
  }

  /** A document swept at step `m` can be resumed, until a sidecar is written again and
      through any foreign writes, exactly while the file holds its base, or nothing if it
      was never seeded. */
  lemma SweptResumesIff(store: Address -> seq<byte>, run: seq<State>, steps: seq<Step>, m: nat, n: nat)
    requires IsRun(store, run, steps) && m < n < |run| && steps[m].Sweep?
    requires forall k: nat | m < k < n :: LeavesSidecar(store, run[k], steps[k])
    ensures steps[m].doc < |run[m].docs|
    ensures var doc, files := run[m].docs[steps[m].doc], run[n].files;
      Opened(store, files, doc.root).base.Some?
      <==> Names(doc, Current(store, files)) || (doc.base.None? && Read(store, files.content) == [])
  {
    assert m < |steps|;
    hide IsRun, LeavesSidecar;
    SidecarStays(store, run, steps, m, n);
    FramedResumesIff(store, run[n].files, run[m].docs[steps[m].doc]);
  }

  lemma FramedResumesIff(store: Address -> seq<byte>, files: Files, doc: Doc)
    requires files.sidecar == Some(Framed(doc))
    ensures Opened(store, files, doc.root).base.Some?
            <==> Names(doc, Current(store, files)) || (doc.base.None? && Read(store, files.content) == [])
  {
  }

  lemma Extend(store: Address -> seq<byte>, run: seq<State>, steps: seq<Step>, s: State, step: Step)
    returns (run': seq<State>, steps': seq<Step>)
    requires IsRun(store, run, steps) && Next(store, run[|run|-1], s, step)
    ensures IsRun(store, run', steps') && run' == run + [s] && steps' == steps + [step]
  {
    hide Next, Init;
    run', steps' := run + [s], steps + [step];
    forall k | 0 <= k < |steps'| ensures Takes(store, run', steps', k) {
      if k < |steps| {
        assert Takes(store, run, steps, k);
      }
    }
  }
}
