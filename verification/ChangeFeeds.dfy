/** A filesystem of files in directories, its append-only change feed, and what a batch of
    feed events asks of a sink. */
module ChangeFeeds {
  import opened Tilings
  import opened Bytes

  type Path = seq<string>

  datatype Event =
    | Written(path: Path)
    | Removed(path: Path)
    | Renamed(path: Path, detail: Option<Path>)
    | Other(path: Path)

  datatype Fs = Fs(files: map<Path, Data>, dirs: set<Path>, feed: seq<Event>)

  function Parent(p: Path): Path
    requires p != []
  {
    p[..|p|-1]
  }

  // ----- changes: each one and its event are one step

  datatype FsChange =
    | WriteFile(path: Path, data: Data)
    | RemoveFile(path: Path)
    | RenameFile(from: Path, to: Path)
    | MakeDir(path: Path)
    | RemoveDir(path: Path)

  /** Nothing lies in the directory. */
  predicate Bare(fs: Fs, d: Path) {
    (forall p | p in fs.files :: !(d < p)) && (forall p | p in fs.dirs :: !(d < p))
  }

  predicate CanPlace(fs: Fs, p: Path) {
    p != [] && Parent(p) in fs.dirs
  }

  predicate Allowed(fs: Fs, change: FsChange) {
    match change
    case WriteFile(p, _) => CanPlace(fs, p) && p !in fs.dirs
    case RemoveFile(p) => p in fs.files
    case RenameFile(a, b) => a in fs.files && a != b && CanPlace(fs, b) && (b in fs.dirs ==> Bare(fs, b))
    case MakeDir(d) => CanPlace(fs, d) && d !in fs.dirs && d !in fs.files
    case RemoveDir(d) => d in fs.dirs && d != [] && Bare(fs, d)
  }

  function EventOf(change: FsChange): Event {
    match change
    case WriteFile(p, _) => Written(p)
    case RemoveFile(p) => Removed(p)
    case RenameFile(a, b) => Renamed(a, Some(b))
    case MakeDir(d) => Other(d)
    case RemoveDir(d) => Other(d)
  }

  function Changed(fs: Fs, change: FsChange): Fs
    requires Allowed(fs, change)
  {
    var feed := fs.feed + [EventOf(change)];
    match change
    case WriteFile(p, data) => Fs(fs.files[p := data], fs.dirs, feed)
    case RemoveFile(p) => Fs(fs.files - {p}, fs.dirs, feed)
    case RenameFile(a, b) => Fs((fs.files - {a})[b := fs.files[a]], fs.dirs - {b}, feed)
    case MakeDir(d) => Fs(fs.files, fs.dirs + {d}, feed)
    case RemoveDir(d) => Fs(fs.files, fs.dirs - {d}, feed)
  }

  // ----- what an event says of a path

  /** `Some(true)` when the event leaves a file at `p`, `Some(false)` when it leaves none. */
  function Says(event: Event, p: Path): Option<bool> {
    match event
    case Written(q) => if p == q then Some(true) else None
    case Removed(q) => if p == q then Some(false) else None
    case Renamed(q, detail) =>
      if detail == Some(p) then Some(true) else if p == q then Some(false) else None
    case Other(_) => None
  }

  /** What the last event about `p` says. */
  function LastSays(events: seq<Event>, p: Path): Option<bool> {
    if events == [] then None
    else if Says(events[|events|-1], p).Some? then Says(events[|events|-1], p)
    else LastSays(events[..|events|-1], p)
  }

  /** Some event from the `n`th on is about `p`. */
  ghost predicate Touched(fs: Fs, n: nat, p: Path) {
    n <= |fs.feed| && LastSays(fs.feed[n..], p).Some?
  }

  lemma LastSaysStep(events: seq<Event>, event: Event, p: Path)
    ensures LastSays(events + [event], p) == if Says(event, p).Some? then Says(event, p) else LastSays(events, p)
  {
    assert (events + [event])[..|events|] == events;
  }

  lemma {:induction false} LastSaysAppend(a: seq<Event>, b: seq<Event>, p: Path)
    ensures LastSays(a + b, p) == if LastSays(b, p).Some? then LastSays(b, p) else LastSays(a, p)
    decreases |b|
  {
    hide LastSays;
    if b == [] {
      assert a + b == a;
      NothingSaid(p);
    } else {
      var front, event := b[..|b|-1], b[|b|-1];
      assert front + [event] == b;
      assert a + b == (a + front) + [event];
      LastSaysStep(a + front, event, p);
      LastSaysStep(front, event, p);
      LastSaysAppend(a, front, p);
    }
  }

  lemma NothingSaid(p: Path)
    ensures LastSays([], p) == None
  {
  }

  // ----- the filesystem's own invariant

  ghost predicate Sound(fs: Fs) {
    && [] in fs.dirs
    && (forall d | d in fs.dirs && d != [] :: Parent(d) in fs.dirs)
    && (forall p | p in fs.files :: CanPlace(fs, p) && p !in fs.dirs)
  }

  /** Where the feed speaks of a path, its last word is whether there is a file. */
  ghost predicate FeedTrue(fs: Fs) {
    forall p :: LastSays(fs.feed, p).Some? ==> (LastSays(fs.feed, p).value <==> p in fs.files)
  }

  lemma NothingUnder(fs: Fs, d: Path, p: Path)
    requires Bare(fs, d) && p != [] && Parent(p) == d
    ensures p !in fs.files && p !in fs.dirs
  {
    assert d < p;
  }

  lemma ChangeKeepsSound(fs: Fs, change: FsChange)
    requires Sound(fs) && Allowed(fs, change)
    ensures Sound(Changed(fs, change))
  {
    hide Bare;
    var fs' := Changed(fs, change);
    forall p | p != [] && (p in fs'.dirs || p in fs'.files)
      ensures Parent(p) in fs'.dirs
    {
      if change.RemoveDir? && Parent(p) == change.path {
        NothingUnder(fs, change.path, p);
      }
      if change.RenameFile? && change.to in fs.dirs {
        if p != change.to && Parent(p) == change.to {
          NothingUnder(fs, change.to, p);
        }
      }
    }
  }

  /** A change says what it does, and does nothing elsewhere. */
  lemma ChangeSays(fs: Fs, change: FsChange, p: Path)
    requires Allowed(fs, change)
    ensures var fs' := Changed(fs, change);
      && (Says(EventOf(change), p).Some? ==> (Says(EventOf(change), p).value <==> p in fs'.files))
      && (Says(EventOf(change), p).None? ==> (p in fs'.files <==> p in fs.files)
                                             && (p in fs.files ==> fs'.files[p] == fs.files[p]))
  {
  }

  lemma ChangeKeepsFeedTrue(fs: Fs, change: FsChange)
    requires FeedTrue(fs) && Allowed(fs, change)
    ensures FeedTrue(Changed(fs, change))
  {
    hide LastSays, Says;
    forall p ensures var f := Changed(fs, change);
      LastSays(f.feed, p).Some? ==> (LastSays(f.feed, p).value <==> p in f.files)
    {
      ChangeSays(fs, change, p);
      LastSaysStep(fs.feed, EventOf(change), p);
      ChangedFeed(fs, change);
    }
  }

  lemma ChangedFeed(fs: Fs, change: FsChange)
    requires Allowed(fs, change)
    ensures Changed(fs, change).feed == fs.feed + [EventOf(change)]
  {
  }

  /** A path is either about to be told of from `n` on, or exactly as it was. */
  lemma ChangeTouches(fs: Fs, change: FsChange, n: nat, p: Path)
    requires Allowed(fs, change) && n <= |fs.feed|
    ensures var fs' := Changed(fs, change);
      && (Touched(fs, n, p) ==> Touched(fs', n, p))
      && (!Touched(fs', n, p) ==>
            (p in fs'.files <==> p in fs.files) && (p in fs.files ==> fs'.files[p] == fs.files[p]))
  {
    hide LastSays, Says;
    ChangedFeed(fs, change);
    ChangeSays(fs, change, p);
    var event := EventOf(change);
    assert (fs.feed + [event])[n..] == fs.feed[n..] + [event];
    LastSaysStep(fs.feed[n..], event, p);
  }

  /** Every directory above a file is there. */
  lemma {:induction false} DirsAbove(fs: Fs, d: Path, p: Path)
    requires Sound(fs) && (p in fs.files || p in fs.dirs) && d < p
    ensures d in fs.dirs
    decreases |p|
  {
    var up := Parent(p);
    if d != up {
      DirsAbove(fs, d, up);
    }
  }

  // ----- ops

  datatype Op = Upsert(path: Path) | Delete(path: Path)

  /** Exact order: the ops of one event. */
  function EventOps(event: Event): seq<Op> {
    match event
    case Written(p) => [Upsert(p)]
    case Removed(p) => [Delete(p)]
    case Renamed(p, detail) => if detail.Some? then [Delete(p), Upsert(detail.value)] else [Delete(p)]
    case Other(_) => []
  }

  function InOrderOps(batch: seq<Event>): seq<Op> {
    if batch == [] then [] else InOrderOps(batch[..|batch|-1]) + EventOps(batch[|batch|-1])
  }

  /** What the last op on `p` leaves. */
  function LastOp(ops: seq<Op>, p: Path): Option<bool> {
    if ops == [] then None
    else if ops[|ops|-1].path == p then Some(ops[|ops|-1].Upsert?)
    else LastOp(ops[..|ops|-1], p)
  }

  lemma LastOpStep(ops: seq<Op>, op: Op, p: Path)
    ensures LastOp(ops + [op], p) == if op.path == p then Some(op.Upsert?) else LastOp(ops, p)
  {
    assert (ops + [op])[..|ops|] == ops;
  }

  /** The ops of one event leave each path as the event says. */
  lemma EventOpsSay(ops: seq<Op>, event: Event, p: Path)
    ensures LastOp(ops + EventOps(event), p) == if Says(event, p).Some? then Says(event, p) else LastOp(ops, p)
  {
    hide LastOp;
    match event
    case Written(q) => LastOpStep(ops, Upsert(q), p);
    case Removed(q) => LastOpStep(ops, Delete(q), p);
    case Renamed(q, detail) =>
      LastOpStep(ops, Delete(q), p);
      if detail.Some? {
        LastOpStep(ops + [Delete(q)], Upsert(detail.value), p);
        assert ops + [Delete(q), Upsert(detail.value)] == ops + [Delete(q)] + [Upsert(detail.value)];
      }
    case Other(_) =>
      assert ops + [] == ops;
  }

  lemma InOrderStep(batch: seq<Event>)
    requires batch != []
    ensures InOrderOps(batch) == InOrderOps(batch[..|batch|-1]) + EventOps(batch[|batch|-1])
  {
  }

  lemma NothingInOrder(batch: seq<Event>, p: Path)
    requires batch == []
    ensures LastOp(InOrderOps(batch), p) == LastSays(batch, p) == None
  {
  }

  lemma {:induction false} InOrderSays(batch: seq<Event>, p: Path)
    ensures LastOp(InOrderOps(batch), p) == LastSays(batch, p)
    decreases |batch|
  {
    hide LastOp, LastSays, InOrderOps, EventOps, Says;
    if batch == [] {
      NothingInOrder(batch, p);
    } else {
      var front, event := batch[..|batch|-1], batch[|batch|-1];
      assert front + [event] == batch;
      InOrderSays(front, p);
      InOrderStep(batch);
      EventOpsSay(InOrderOps(front), event, p);
      LastSaysStep(front, event, p);
    }
  }

  // ----- coalescing

  /** An insertion-ordered dictionary from paths to their ops. */
  ghost predicate IsTerminal(order: seq<Path>, terminal: map<Path, Op>) {
    && (forall i, j | 0 <= i < j < |order| :: order[i] != order[j])
    && (forall p :: p in terminal <==> p in order)
    && (forall p | p in terminal :: terminal[p].path == p)
  }

  function Values(order: seq<Path>, terminal: map<Path, Op>): (ops: seq<Op>)
    requires forall p | p in order :: p in terminal
    ensures |ops| == |order| && forall i | 0 <= i < |order| :: ops[i] == terminal[order[i]]
  {
    if order == [] then [] else Values(order[..|order|-1], terminal) + [terminal[order[|order|-1]]]
  }

  /** Setting a key: a new one goes last, an old one keeps its place. */
  method Put(order: seq<Path>, terminal: map<Path, Op>, op: Op) returns (order': seq<Path>, terminal': map<Path, Op>)
    requires IsTerminal(order, terminal)
    ensures IsTerminal(order', terminal') && terminal' == terminal[op.path := op]
  {
    order' := if op.path in terminal then order else order + [op.path];
    terminal' := terminal[op.path := op];
    forall i, j | 0 <= i < j < |order'| ensures order'[i] != order'[j] {
      if j == |order| {
        assert order[i] in order;
      }
    }
    forall p ensures p in terminal' <==> p in order' {
      assert p in terminal <==> p in order;
    }
  }

  /** The dictionary holds, for every path, what the events so far say last. */
  ghost predicate Holds(terminal: map<Path, Op>, events: seq<Event>) {
    forall p :: LastSays(events, p) == if p in terminal then Some(terminal[p].Upsert?) else None
  }

  /** One op per path touched: the one its last event asks for. */
  method CoalesceBatch(batch: seq<Event>) returns (ops: seq<Op>)
    ensures forall p :: LastOp(ops, p) == LastSays(batch, p)
    ensures forall i, j | 0 <= i < j < |ops| :: ops[i].path != ops[j].path
  {
    hide LastSays, LastOp, IsTerminal;
    var order: seq<Path>, terminal: map<Path, Op> := [], map[];
    EmptyTerminal();
    for n := 0 to |batch|
      invariant IsTerminal(order, terminal) && Holds(terminal, batch[..n])
    {
      var event := batch[n];
      ghost var before := terminal;
      assert batch[..n+1] == batch[..n] + [event];
      match event {
        case Written(p) => order, terminal := Put(order, terminal, Upsert(p));
        case Removed(p) => order, terminal := Put(order, terminal, Delete(p));
        case Renamed(p, detail) =>
          order, terminal := Put(order, terminal, Delete(p));
          if detail.Some? {
            order, terminal := Put(order, terminal, Upsert(detail.value));
          }
        case Other(_) =>
      }
      HoldsStep(before, terminal, batch[..n], event);
    }
    assert batch[..|batch|] == batch;
    ops := ValuesOf(order, terminal);
    forall p ensures LastOp(ops, p) == LastSays(batch, p) {
      ValuesSay(order, terminal, ops, p);
    }
  }

  lemma HoldsStep(terminal: map<Path, Op>, terminal': map<Path, Op>, events: seq<Event>, event: Event)
    requires Holds(terminal, events)
    requires terminal' == match event
                          case Written(p) => terminal[p := Upsert(p)]
                          case Removed(p) => terminal[p := Delete(p)]
                          case Renamed(p, Some(q)) => terminal[p := Delete(p)][q := Upsert(q)]
                          case Renamed(p, None) => terminal[p := Delete(p)]
                          case Other(_) => terminal
    ensures Holds(terminal', events + [event])
  {
    hide LastSays;
    forall p
      ensures LastSays(events + [event], p) == if p in terminal' then Some(terminal'[p].Upsert?) else None
    {
      LastSaysStep(events, event, p);
    }
  }

  method ValuesOf(order: seq<Path>, terminal: map<Path, Op>) returns (ops: seq<Op>)
    requires IsTerminal(order, terminal)
    ensures |ops| == |order|
    ensures forall i | 0 <= i < |order| :: order[i] in terminal && ops[i] == terminal[order[i]]
    ensures forall i, j | 0 <= i < j < |ops| :: ops[i].path != ops[j].path
  {
    ops := Values(order, terminal);
    forall i, j | 0 <= i < j < |ops| ensures ops[i].path != ops[j].path {
      assert order[i] in terminal && order[j] in terminal;
    }
  }

  lemma EmptyTerminal()
    ensures IsTerminal([], map[]) && Holds(map[], [])
  {
  }

  lemma {:induction false} DistinctLastOp(ops: seq<Op>, p: Path, i: nat)
    requires i < |ops| && ops[i].path == p && forall j | 0 <= j < |ops| && j != i :: ops[j].path != p
    ensures LastOp(ops, p) == Some(ops[i].Upsert?)
    decreases |ops|
  {
    if i != |ops| - 1 {
      DistinctLastOp(ops[..|ops|-1], p, i);
    }
  }

  lemma {:induction false} NoLastOp(ops: seq<Op>, p: Path)
    requires forall j | 0 <= j < |ops| :: ops[j].path != p
    ensures LastOp(ops, p) == None
    decreases |ops|
  {
    if ops == [] {
    } else {
      NoLastOp(ops[..|ops|-1], p);
    }
  }

  lemma ValuesSay(order: seq<Path>, terminal: map<Path, Op>, ops: seq<Op>, p: Path)
    requires IsTerminal(order, terminal) && |ops| == |order|
    requires forall i | 0 <= i < |order| :: order[i] in terminal && ops[i] == terminal[order[i]]
    ensures LastOp(ops, p) == if p in terminal then Some(terminal[p].Upsert?) else None
  {
    if p in terminal {
      assert p in order;
      var i: nat :| i < |order| && order[i] == p;
      DistinctLastOp(ops, p, i);
    } else {
      forall j | 0 <= j < |ops| ensures ops[j].path != p {
        assert order[j] in terminal;
      }
      NoLastOp(ops, p);
    }
  }
}
