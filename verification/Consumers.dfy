/** The change consumer: cold start, tail, retry and restart against a filesystem that
    keeps changing, feeding a keyed sink that clears itself when a snapshot begins. */
module Consumers {
  import opened Tilings
  import opened Bytes
  import opened ChangeFeeds

  datatype Backfill = Snapshot | Replay | TailOnly

  /** What the handler has buffered. */
  datatype Row = Put(path: Path, data: Data) | Drop(path: Path)

  datatype Entry = FileEntry(path: Path) | SubDir(path: Path)

  /** What the tail is answerable for: every path, or those the feed mentions from an
      event on. */
  datatype Coverage = Whole | From(start: nat)

  datatype Phase =
    | Down(booted: bool)
    | Heading(cur: nat)                                             // paging to the head
    | Walking(head: nat, stack: seq<Path>, pending: seq<Entry>)     // the tree snapshot
    | Landing(head: nat)                                            // its flush
    | Draining(at: nat)                                             // between batches
    | Batch(at: nat, end: nat, todo: seq<Op>)                       // dispatch, then flush

  /** `cursor` and `sink` are durable; `buffer` and `phase` are the process's. */
  datatype State = State(
    fs: Fs,
    cursor: Option<nat>,
    sink: map<Path, Data>,
    buffer: seq<Row>,
    phase: Phase,
    coverage: Coverage)

  // ----- the sink, one path at a time

  function Applied(sink: map<Path, Data>, row: Row): map<Path, Data> {
    match row
    case Put(p, data) => sink[p := data]
    case Drop(p) => sink - {p}
  }

  /** What the sink will hold at `p` once the rows are applied. */
  function Flushed(now: Option<Data>, rows: seq<Row>, p: Path): Option<Data> {
    if rows == [] then now
    else
      var last := rows[|rows|-1];
      if last.path != p then Flushed(now, rows[..|rows|-1], p)
      else if last.Put? then Some(last.data) else None
  }

  /** An upsert reads the file as it is now; one that is gone is skipped. */
  function Handled(fs: Fs, op: Op): seq<Row> {
    match op
    case Upsert(p) => if p in fs.files then [Put(p, fs.files[p])] else []
    case Delete(p) => [Drop(p)]
  }

  /** What the ops make of `p` if the file stays as it is. */
  function Fate(now: Option<Data>, todo: seq<Op>, file: Option<Data>, p: Path): Option<Data> {
    if todo == [] then now
    else
      var last := todo[|todo|-1];
      var before := Fate(now, todo[..|todo|-1], file, p);
      if last.path != p then before
      else if last.Delete? then None
      else if file.Some? then file else before
  }

  lemma FlushedStep(now: Option<Data>, rows: seq<Row>, row: Row, p: Path)
    ensures Flushed(now, rows + [row], p)
         == if row.path != p then Flushed(now, rows, p) else if row.Put? then Some(row.data) else None
  {
    assert (rows + [row])[..|rows|] == rows;
  }

  lemma {:induction false} FlushFirst(sink: map<Path, Data>, rows: seq<Row>, p: Path)
    requires rows != []
    ensures Flushed(Find(Applied(sink, rows[0]), p), rows[1..], p) == Flushed(Find(sink, p), rows, p)
    decreases |rows|
  {
    if |rows| > 1 {
      var front := rows[..|rows|-1];
      assert front[0] == rows[0] && front[1..] == rows[1..][..|rows|-2];
      FlushFirst(sink, front, p);
    } else {
      assert rows[1..] == [] && rows[..0] == [];
    }
  }

  /** Handling an op is the first step of its fate. */
  lemma {:induction false} FateFirst(now: Option<Data>, todo: seq<Op>, file: Option<Data>, p: Path)
    requires todo != []
    ensures Fate(now, todo, file, p) == Fate(Fate(now, [todo[0]], file, p), todo[1..], file, p)
    decreases |todo|
  {
    if |todo| > 1 {
      var front := todo[..|todo|-1];
      assert front[0] == todo[0] && front[1..] == todo[1..][..|todo|-2];
      FateFirst(now, front, file, p);
    } else {
      assert todo[1..] == [] && todo == [todo[0]];
    }
  }

  lemma HandledFate(fs: Fs, now: Option<Data>, rows: seq<Row>, op: Op, p: Path)
    ensures Flushed(now, rows + Handled(fs, op), p) == Fate(Flushed(now, rows, p), [op], Find(fs.files, p), p)
  {
    hide Flushed;
    assert rows + [] == rows;
    assert [op][..0] == [];
    if Handled(fs, op) != [] {
      FlushedStep(now, rows, Handled(fs, op)[0], p);
    }
  }

  /** The last op decides. */
  lemma {:induction false} FateByLast(now: Option<Data>, todo: seq<Op>, file: Option<Data>, p: Path)
    ensures match LastOp(todo, p)
      case None => Fate(now, todo, file, p) == now
      case Some(true) => file.Some? ==> Fate(now, todo, file, p) == file
      case Some(false) => Fate(now, todo, file, p) == None
    decreases |todo|
  {
    if todo != [] && todo[|todo|-1].path != p {
      FateByLast(now, todo[..|todo|-1], file, p);
    }
  }

  // ----- steps

  datatype Step =
    | Change(change: FsChange)
    | Crash                      // the process is lost
    | Raise                      // the run is left, by an exception or by returning; the process stays
    | Start                      // a run in a new process
    | Again                      // another run in the same process
    | Page(next: nat)
    | HeadFound
    | List(entries: seq<Entry>)
    | Visit
    | WalkDone
    | FlushRow
    | SaveSnapshot
    | Fetch(end: nat, todo: seq<Op>)
    | Retry(todo: seq<Op>)
    | Dispatch
    | Save

  /** The ops a batch is dispatched as: in order, or coalesced. */
  ghost predicate Dispatches(batch: seq<Event>, todo: seq<Op>) {
    forall p :: LastOp(todo, p) == LastSays(batch, p)
  }

  /** A listing of `d`, in any order. */
  ghost predicate Lists(fs: Fs, d: Path, entries: seq<Entry>) {
    && (forall p :: FileEntry(p) in entries <==> p in fs.files && p != [] && Parent(p) == d)
    && (forall p :: SubDir(p) in entries <==> p in fs.dirs && p != [] && Parent(p) == d)
  }

  ghost predicate Init(s: State) {
    && Sound(s.fs) && FeedTrue(s.fs)
    && s.cursor == None && s.phase == Down(false) && s.buffer == []
  }

  ghost predicate Next(backfill: Backfill, s: State, s': State, step: Step) {
    match step
    case Change(change) => Allowed(s.fs, change) && s' == s.(fs := Changed(s.fs, change))
    case Crash => s' == s.(phase := Down(false), buffer := [])
    case Raise => !s.phase.Down? && s' == s.(phase := Down(true))
    case Start => s.phase == Down(false) && s' == Started(backfill, s)
    case Again =>
      && s.phase == Down(true)
      && s' == (if s.cursor.Some? then s.(phase := Draining(s.cursor.value))
                else s.(phase := Draining(0), coverage := From(0)))
    case Page(next) =>
      && s.phase.Heading? && s.phase.cur < next <= |s.fs.feed|
      && s' == s.(phase := Heading(next))
    case HeadFound =>
      && s.phase == Heading(|s.fs.feed|)
      && s' == (if backfill == TailOnly
                then s.(cursor := Some(s.phase.cur), coverage := From(s.phase.cur), phase := Draining(s.phase.cur))
                else s.(sink := map[], buffer := [], phase := Walking(s.phase.cur, [[]], [])))
    case List(entries) =>
      && s.phase.Walking? && s.phase.pending == [] && s.phase.stack != []
      && var d := s.phase.stack[|s.phase.stack|-1];
      && d in s.fs.dirs && Lists(s.fs, d, entries)
      && s' == s.(phase := Walking(s.phase.head, s.phase.stack[..|s.phase.stack|-1], entries))
    case Visit =>
      && s.phase.Walking? && s.phase.pending != []
      && var entry, rest := s.phase.pending[0], s.phase.pending[1..];
      && s' == (match entry
                case SubDir(d) => s.(phase := Walking(s.phase.head, s.phase.stack + [d], rest))
                case FileEntry(p) =>
                  s.(phase := Walking(s.phase.head, s.phase.stack, rest),
                     buffer := s.buffer + Handled(s.fs, Upsert(p))))
    case WalkDone =>
      && s.phase.Walking? && s.phase.pending == [] && s.phase.stack == []
      && s' == s.(phase := Landing(s.phase.head))
    case FlushRow =>
      && (s.phase.Landing? || (s.phase.Batch? && s.phase.todo == [])) && s.buffer != []
      && s' == s.(sink := Applied(s.sink, s.buffer[0]), buffer := s.buffer[1..])
    case SaveSnapshot =>
      && s.phase.Landing? && s.buffer == []
      && s' == s.(cursor := Some(s.phase.head), coverage := Whole, phase := Draining(s.phase.head))
    case Fetch(end, todo) =>
      && s.phase.Draining? && s.phase.at < end <= |s.fs.feed|
      && Dispatches(s.fs.feed[s.phase.at..end], todo)
      && s' == s.(buffer := [], phase := Batch(s.phase.at, end, todo))
    case Retry(todo) =>
      && s.phase.Batch? && s.phase.at <= s.phase.end <= |s.fs.feed|
      && Dispatches(s.fs.feed[s.phase.at..s.phase.end], todo)
      && s' == s.(buffer := [], phase := s.phase.(todo := todo))
    case Dispatch =>
      && s.phase.Batch? && s.phase.todo != []
      && s' == s.(buffer := s.buffer + Handled(s.fs, s.phase.todo[0]), phase := s.phase.(todo := s.phase.todo[1..]))
    case Save =>
      && s.phase.Batch? && s.phase.todo == [] && s.buffer == []
      && s' == s.(cursor := Some(s.phase.end), phase := Draining(s.phase.end))
  }

  /** Resume from the cursor, or cold-start. */
  function Started(backfill: Backfill, s: State): State {
    if s.cursor.Some? then s.(phase := Draining(s.cursor.value))
    else if backfill == Replay then s.(cursor := Some(0), coverage := From(0), phase := Draining(0))
    else s.(phase := Heading(0))
  }

  // ----- the invariant

  ghost predicate Covered(s: State, p: Path) {
    s.coverage.Whole? || Touched(s.fs, s.coverage.start, p)
  }

  /** Where the sink is wrong about a covered path, the feed still has something to say
      about it from the `n`th event on. */
  ghost predicate Caught(s: State, n: nat) {
    && n <= |s.fs.feed|
    && forall p | Covered(s, p) && !Touched(s.fs, n, p) :: Find(s.sink, p) == Find(s.fs.files, p)
  }

  /** A directory still to be listed, or a listing still to be gone through, leads to `p`. */
  ghost predicate Awaited(stack: seq<Path>, pending: seq<Entry>, p: Path) {
    || (exists d :: d in stack && d < p)
    || FileEntry(p) in pending
    || (exists d :: SubDir(d) in pending && d < p)
  }

  function Buffered(s: State, p: Path): Option<Data> {
    Flushed(Find(s.sink, p), s.buffer, p)
  }

  ghost predicate Walked(s: State, p: Path)
    requires s.phase.Walking?
  {
    && (Buffered(s, p).Some? ==> Buffered(s, p) == Find(s.fs.files, p))
    && (p in s.fs.files ==> Buffered(s, p).Some? || Awaited(s.phase.stack, s.phase.pending, p))
  }

  ghost predicate Bound(s: State, n: nat) {
    s.cursor.Some? ==> s.cursor.value == n
  }

  /** A batch's ops and rows are about paths its events touch, and will set them right. */
  ghost predicate InHand(s: State)
    requires s.phase.Batch?
  {
    var Batch(at, end, todo) := s.phase;
    && at <= end <= |s.fs.feed|
    && (forall row | row in s.buffer :: Touched(s.fs, at, row.path))
    && (forall op | op in todo :: Touched(s.fs, at, op.path))
    && (forall p | Covered(s, p) && !Touched(s.fs, end, p) ::
          Fate(Buffered(s, p), todo, Find(s.fs.files, p), p) == Find(s.fs.files, p))
  }

  ghost predicate PhaseInv(s: State) {
    match s.phase
    case Down(_) => true
    case Heading(cur) => s.cursor == None && cur <= |s.fs.feed|
    case Walking(head, _, _) =>
      s.cursor == None && head <= |s.fs.feed| && forall p | !Touched(s.fs, head, p) :: Walked(s, p)
    case Landing(head) =>
      && s.cursor == None && head <= |s.fs.feed|
      && forall p | !Touched(s.fs, head, p) :: Buffered(s, p) == Find(s.fs.files, p)
    case Draining(at) => Caught(s, at) && Bound(s, at)
    case Batch(at, _, _) => Caught(s, at) && Bound(s, at) && InHand(s)
  }

  ghost predicate Inv(s: State) {
    && Sound(s.fs) && FeedTrue(s.fs)
    && (s.cursor.Some? ==> Caught(s, s.cursor.value))
    && PhaseInv(s)
  }

  // ----- filesystem steps

  /** A change leaves every untouched path, and so every claim about it, alone. */
  lemma ChangeKeeps(s: State, s': State, change: FsChange, n: nat, p: Path)
    requires Allowed(s.fs, change) && s' == s.(fs := Changed(s.fs, change)) && n <= |s.fs.feed|
    requires !Touched(s'.fs, n, p)
    ensures n <= |s'.fs.feed| && !Touched(s.fs, n, p) && Find(s'.fs.files, p) == Find(s.fs.files, p)
  {
    hide Changed, Touched;
    ChangeTouches(s.fs, change, n, p);
    ChangedFeed(s.fs, change);
  }

  /** A path newly covered was touched just now. */
  lemma ChangeCovers(s: State, s': State, change: FsChange, n: nat, p: Path)
    requires Allowed(s.fs, change) && s' == s.(fs := Changed(s.fs, change)) && n <= |s.fs.feed|
    requires Covered(s', p) && !Touched(s'.fs, n, p)
    ensures Covered(s, p)
  {
    hide Changed, LastSays;
    if s.coverage.From? {
      var event := EventOf(change);
      ChangedFeed(s.fs, change);
      assert (s.fs.feed + [event])[n..] == s.fs.feed[n..] + [event];
      LastSaysStep(s.fs.feed[n..], event, p);
      var start := s.coverage.start;
      if start <= |s.fs.feed| {
        assert (s.fs.feed + [event])[start..] == s.fs.feed[start..] + [event];
        LastSaysStep(s.fs.feed[start..], event, p);
      } else {
        assert start == |s.fs.feed| + 1;
        assert (s.fs.feed + [event])[start..] == [];
        NothingSaid(p);
      }
    }
  }

  lemma ChangeKeepsCaught(s: State, s': State, change: FsChange, n: nat)
    requires Allowed(s.fs, change) && s' == s.(fs := Changed(s.fs, change)) && Caught(s, n)
    ensures Caught(s', n)
  {
    hide Covered, Touched, Find, Changed;
    ChangedFeed(s.fs, change);
    forall p | Covered(s', p) && !Touched(s'.fs, n, p) ensures Find(s'.sink, p) == Find(s'.fs.files, p) {
      ChangeKeeps(s, s', change, n, p);
      ChangeCovers(s, s', change, n, p);
    }
  }

  lemma ChangeKeepsInHand(s: State, s': State, change: FsChange)
    requires Allowed(s.fs, change) && s' == s.(fs := Changed(s.fs, change)) && s.phase.Batch? && InHand(s)
    requires s.phase.at <= |s.fs.feed|
    ensures InHand(s')
  {
    hide Covered, Touched, Find, Changed, Fate, Flushed;
    ChangedFeed(s.fs, change);
    forall p ensures Touched(s.fs, s.phase.at, p) ==> Touched(s'.fs, s.phase.at, p) {
      ChangeTouches(s.fs, change, s.phase.at, p);
    }
    forall p | Covered(s', p) && !Touched(s'.fs, s.phase.end, p)
      ensures Fate(Buffered(s', p), s.phase.todo, Find(s'.fs.files, p), p) == Find(s'.fs.files, p)
    {
      ChangeKeeps(s, s', change, s.phase.end, p);
      ChangeCovers(s, s', change, s.phase.end, p);
    }
  }

  lemma ChangeKeepsInv(s: State, s': State, change: FsChange)
    requires Inv(s) && Allowed(s.fs, change) && s' == s.(fs := Changed(s.fs, change))
    ensures Inv(s')
  {
    hide Touched, Find, Changed, Flushed, Sound, FeedTrue, Caught, InHand, Awaited;
    ChangeKeepsSound(s.fs, change);
    ChangeKeepsFeedTrue(s.fs, change);
    ChangedFeed(s.fs, change);
    if s.cursor.Some? {
      ChangeKeepsCaught(s, s', change, s.cursor.value);
    }
    match s.phase
    case Down(_) =>
    case Heading(_) =>
    case Walking(head, _, _) =>
      forall p | !Touched(s'.fs, head, p) ensures Walked(s', p) {
        ChangeKeeps(s, s', change, head, p);
        assert Walked(s, p);
        SameFiles(s, s', p);
      }
    case Landing(head) =>
      forall p | !Touched(s'.fs, head, p) ensures Buffered(s', p) == Find(s'.fs.files, p) {
        ChangeKeeps(s, s', change, head, p);
      }
    case Draining(at) => ChangeKeepsCaught(s, s', change, at);
    case Batch(at, _, _) =>
      ChangeKeepsCaught(s, s', change, at);
      CaughtWithin(s, at);
      ChangeKeepsInHand(s, s', change);
  }

  lemma CaughtWithin(s: State, n: nat)
    requires Caught(s, n)
    ensures n <= |s.fs.feed|
  {
  }

  lemma SameFiles(s: State, s': State, p: Path)
    requires Find(s'.fs.files, p) == Find(s.fs.files, p)
    ensures p in s'.fs.files <==> p in s.fs.files
  {
  }

  // ----- the walk

  /** Listing a directory keeps every file below it in sight. */
  lemma ListedStaysAwaited(fs: Fs, stack: seq<Path>, entries: seq<Entry>, p: Path)
    requires Sound(fs) && stack != [] && Lists(fs, stack[|stack|-1], entries)
    requires p in fs.files && Awaited(stack, [], p)
    ensures Awaited(stack[..|stack|-1], entries, p)
  {
    hide Sound;
    var top := stack[|stack|-1];
    var d :| d in stack && d < p;
    if d != top {
      assert d in stack[..|stack|-1];
    } else {
      var child := p[..|d|+1];
      assert Parent(child) == d;
      if child == p {
        assert FileEntry(p) in entries;
      } else {
        DirsAbove(fs, child, p);
        assert SubDir(child) in entries;
      }
    }
  }

  lemma VisitedStaysAwaited(stack: seq<Path>, pending: seq<Entry>, p: Path)
    requires pending != [] && Awaited(stack, pending, p)
    ensures match pending[0]
      case SubDir(d) => Awaited(stack + [d], pending[1..], p)
      case FileEntry(q) => q == p || Awaited(stack, pending[1..], p)
  {
    assert pending == [pending[0]] + pending[1..];
    match pending[0]
    case SubDir(e) =>
      assert e in stack + [e];
      if d :| d in stack && d < p {
        assert d in stack + [e];
      }
    case FileEntry(_) =>
  }

  lemma WalkKeepsInv(backfill: Backfill, s: State, s': State, step: Step)
    requires Inv(s) && Next(backfill, s, s', step) && (step.List? || step.Visit?)
    ensures Inv(s')
  {
    hide Touched, Flushed, Sound, FeedTrue, Awaited, Lists;
    forall p | !Touched(s'.fs, s'.phase.head, p) ensures Walked(s', p) {
      assert Walked(s, p);
      match step
      case List(entries) =>
        if p in s.fs.files && Awaited(s.phase.stack, [], p) {
          ListedStaysAwaited(s.fs, s.phase.stack, entries, p);
        }
      case Visit =>
        if Awaited(s.phase.stack, s.phase.pending, p) {
          VisitedStaysAwaited(s.phase.stack, s.phase.pending, p);
        }
        if s.phase.pending[0].FileEntry? {
          var q := s.phase.pending[0].path;
          HandledFate(s.fs, Find(s.sink, p), s.buffer, Upsert(q), p);
          assert [Upsert(q)][..0] == [];
        }
    }
  }

  // ----- batches

  /** A batch dispatched over a sink that is right up to it sets every path right. */
  lemma DispatchedFate(s: State, end: nat, todo: seq<Op>, at: nat, p: Path)
    requires FeedTrue(s.fs) && Caught(s, at) && at <= end <= |s.fs.feed|
    requires Dispatches(s.fs.feed[at..end], todo)
    requires Covered(s, p) && !Touched(s.fs, end, p)
    ensures Fate(Find(s.sink, p), todo, Find(s.fs.files, p), p) == Find(s.fs.files, p)
  {
    hide LastSays, LastOp, Fate, Covered;
    var feed := s.fs.feed;
    assert feed == feed[..at] + feed[at..] && feed[at..] == feed[at..end] + feed[end..];
    LastSaysAppend(feed[at..end], feed[end..], p);
    LastSaysAppend(feed[..at], feed[at..], p);
    FateByLast(Find(s.sink, p), todo, Find(s.fs.files, p), p);
    assert LastOp(todo, p) == LastSays(feed[at..end], p);
  }

  lemma {:induction false} OpIsLast(ops: seq<Op>, op: Op)
    requires op in ops
    ensures LastOp(ops, op.path).Some?
    decreases |ops|
  {
    if ops[|ops|-1].path != op.path {
      assert op in ops[..|ops|-1];
      OpIsLast(ops[..|ops|-1], op);
    }
  }

  lemma DispatchTouches(fs: Fs, at: nat, end: nat, todo: seq<Op>, op: Op)
    requires at <= end <= |fs.feed| && Dispatches(fs.feed[at..end], todo) && op in todo
    ensures Touched(fs, at, op.path)
  {
    hide LastSays, LastOp;
    OpIsLast(todo, op);
    assert fs.feed[at..] == fs.feed[at..end] + fs.feed[end..];
    LastSaysAppend(fs.feed[at..end], fs.feed[end..], op.path);
  }

  lemma BatchBegins(s: State, s': State, at: nat, end: nat, todo: seq<Op>)
    requires FeedTrue(s.fs) && Caught(s, at) && at <= end <= |s.fs.feed|
    requires Dispatches(s.fs.feed[at..end], todo)
    requires s' == s.(buffer := [], phase := Batch(at, end, todo))
    ensures InHand(s')
  {
    hide FeedTrue, Caught, Covered, Touched, Dispatches, Find, Fate;
    forall op | op in todo ensures Touched(s'.fs, at, op.path) {
      DispatchTouches(s.fs, at, end, todo, op);
    }
    forall p | Covered(s', p) && !Touched(s'.fs, end, p)
      ensures Fate(Buffered(s', p), todo, Find(s'.fs.files, p), p) == Find(s'.fs.files, p)
    {
      SameCover(s, s', p);
      DispatchedFate(s, end, todo, at, p);
    }
  }

  lemma SameCover(s: State, s': State, p: Path)
    requires s'.fs == s.fs && s'.coverage == s.coverage
    ensures Covered(s', p) <==> Covered(s, p)
  {
  }

  lemma CaughtStays(s: State, s': State, n: nat)
    requires Caught(s, n) && s'.fs == s.fs && s'.coverage == s.coverage && s'.sink == s.sink
    ensures Caught(s', n)
  {
    hide Touched, Find;
    forall p | Covered(s', p) && !Touched(s'.fs, n, p) ensures Find(s'.sink, p) == Find(s'.fs.files, p) {
      SameCover(s, s', p);
    }
  }

  lemma DispatchKeepsInHand(s: State, s': State)
    requires s.phase.Batch? && InHand(s) && s.phase.todo != []
    requires s' == s.(buffer := s.buffer + Handled(s.fs, s.phase.todo[0]), phase := s.phase.(todo := s.phase.todo[1..]))
    ensures InHand(s')
  {
    hide Covered, Touched, Find, Fate, Flushed;
    var op, rest := s.phase.todo[0], s.phase.todo[1..];
    assert op in s.phase.todo;
    forall row | row in s'.buffer ensures Touched(s'.fs, s.phase.at, row.path) {
      assert row in s.buffer || row in Handled(s.fs, op);
    }
    forall p | Covered(s', p) && !Touched(s'.fs, s.phase.end, p)
      ensures Fate(Buffered(s', p), rest, Find(s'.fs.files, p), p) == Find(s'.fs.files, p)
    {
      SameCover(s, s', p);
      HandledFate(s.fs, Find(s.sink, p), s.buffer, op, p);
      FateFirst(Buffered(s, p), s.phase.todo, Find(s.fs.files, p), p);
    }
  }

  /** Flushing a row changes nothing of what the sink will hold. */
  lemma FlushKeeps(s: State, s': State, p: Path)
    requires s.buffer != [] && s' == s.(sink := Applied(s.sink, s.buffer[0]), buffer := s.buffer[1..])
    ensures Buffered(s', p) == Buffered(s, p)
    ensures s.buffer[0].path != p ==> Find(s'.sink, p) == Find(s.sink, p)
  {
    FlushFirst(s.sink, s.buffer, p);
  }

  lemma FlushKeepsInv(backfill: Backfill, s: State, s': State)
    requires Inv(s) && Next(backfill, s, s', FlushRow)
    ensures Inv(s')
  {
    hide Touched, Find, Fate, Flushed, Applied, Covered, Sound, FeedTrue;
    forall p
      ensures Buffered(s', p) == Buffered(s, p)
      ensures s.buffer[0].path != p ==> Find(s'.sink, p) == Find(s.sink, p)
    {
      FlushKeeps(s, s', p);
    }
    forall p ensures Covered(s', p) <==> Covered(s, p) {
      SameCover(s, s', p);
    }
    if s.phase.Batch? {
      assert s.buffer[0] in s.buffer;
      assert Caught(s', s.phase.at);
      assert InHand(s');
    }
  }

  lemma SaveKeepsInv(backfill: Backfill, s: State, s': State, step: Step)
    requires Inv(s) && Next(backfill, s, s', step) && (step.Save? || step.SaveSnapshot?)
    ensures Inv(s')
  {
    hide Touched, Find, Sound, FeedTrue;
    var end := s'.cursor.value;
    forall p | Covered(s', p) && !Touched(s'.fs, end, p) ensures Find(s'.sink, p) == Find(s'.fs.files, p) {
      if step.Save? {
        SameCover(s, s', p);
      }
      assert Buffered(s, p) == Find(s.sink, p);
    }
  }

  /** What is covered from `n` on is still to be told from `n` on. */
  lemma CaughtFromStart(s: State, n: nat)
    requires s.coverage == From(n) && n <= |s.fs.feed|
    ensures Caught(s, n)
  {
  }

  lemma HeadKeepsInv(backfill: Backfill, s: State, s': State)
    requires Inv(s) && Next(backfill, s, s', HeadFound)
    ensures Inv(s')
  {
    hide Touched, Sound, FeedTrue;
    if backfill == TailOnly {
      CaughtFromStart(s', s.phase.cur);
    } else {
      forall p | !Touched(s'.fs, s'.phase.head, p) ensures Walked(s', p) {
        assert [] in s'.phase.stack;
        if p in s.fs.files {
          FilesBelowRoot(s.fs, p);
        }
      }
    }
  }

  lemma FilesBelowRoot(fs: Fs, p: Path)
    requires Sound(fs) && p in fs.files
    ensures [] < p
  {
  }

  lemma NextKeepsInv(backfill: Backfill, s: State, s': State, step: Step)
    requires Inv(s) && Next(backfill, s, s', step)
    ensures Inv(s')
  {
    hide Touched, Find, Fate, Flushed, Applied, Covered, Sound, FeedTrue, Caught, InHand;
    hide Dispatches, Lists, Walked, Allowed, Changed;
    match step
    case Change(change) => ChangeKeepsInv(s, s', change);
    case List(_) => WalkKeepsInv(backfill, s, s', step);
    case Visit => WalkKeepsInv(backfill, s, s', step);
    case FlushRow => FlushKeepsInv(backfill, s, s');
    case Save => SaveKeepsInv(backfill, s, s', step);
    case SaveSnapshot => SaveKeepsInv(backfill, s, s', step);
    case HeadFound => HeadKeepsInv(backfill, s, s');
    case WalkDone => WalkDoneKeepsInv(s, s');
    case Again =>
      if s.cursor.Some? {
        CaughtStays(s, s', s.cursor.value);
      } else {
        CaughtFromStart(s', 0);
      }
    case Start =>
      if s.cursor.Some? {
        CaughtStays(s, s', s.cursor.value);
      } else if backfill == Replay {
        CaughtFromStart(s', 0);
      }
    case Fetch(end, todo) =>
      BatchBegins(s, s', s.phase.at, end, todo);
      CaughtStays(s, s', s.phase.at);
    case Retry(todo) =>
      BatchBegins(s, s', s.phase.at, s.phase.end, todo);
      CaughtStays(s, s', s.phase.at);
    case Dispatch =>
      DispatchKeepsInHand(s, s');
      CaughtStays(s, s', s.phase.at);
    case Page(_) =>
    case Crash => if s.cursor.Some? { CaughtStays(s, s', s.cursor.value); }
    case Raise => if s.cursor.Some? { CaughtStays(s, s', s.cursor.value); }
  }

  lemma WalkDoneKeepsInv(s: State, s': State)
    requires Inv(s) && s.phase.Walking? && s.phase.pending == [] && s.phase.stack == []
    requires s' == s.(phase := Landing(s.phase.head))
    ensures Inv(s')
  {
    hide Touched, Flushed, Sound, FeedTrue;
    forall p | !Touched(s'.fs, s'.phase.head, p) ensures Buffered(s', p) == Find(s'.fs.files, p) {
      assert Walked(s, p);
    }
  }

  // ----- over runs

  ghost predicate IsRun(backfill: Backfill, run: seq<State>, steps: seq<Step>) {
    && |run| == |steps| + 1 && Init(run[0])
    && forall k | 0 <= k < |steps| :: Takes(backfill, run, steps, k)
  }

  ghost predicate Takes(backfill: Backfill, run: seq<State>, steps: seq<Step>, k: nat)
    requires k < |steps| && k + 1 < |run|
  {
    Next(backfill, run[k], run[k + 1], steps[k])
  }

  lemma {:induction false} RunKeepsInv(backfill: Backfill, run: seq<State>, steps: seq<Step>, n: nat)
    requires IsRun(backfill, run, steps) && n < |run|
    ensures Inv(run[n])
    decreases n
  {
    hide Inv, Next;
    if n == 0 {
      InitInv(run[0]);
    } else {
      RunKeepsInv(backfill, run, steps, n - 1);
      assert Takes(backfill, run, steps, n - 1);
      NextKeepsInv(backfill, run[n-1], run[n], steps[n-1]);
    }
  }

  lemma InitInv(s: State)
    requires Init(s)
    ensures Inv(s)
  {
  }

  /** Between batches with the feed read to its end. */
  predicate Idle(s: State) {
    s.phase == Draining(|s.fs.feed|)
  }

  /** Whatever writers, retries, failures and restarts did before, an idle consumer's sink
      agrees with the filesystem on every path the tail answers for. */
  lemma IdleAgrees(backfill: Backfill, run: seq<State>, steps: seq<Step>, n: nat, p: Path)
    requires IsRun(backfill, run, steps) && n < |run| && Idle(run[n]) && Covered(run[n], p)
    ensures Find(run[n].sink, p) == Find(run[n].fs.files, p)
  {
    hide Init, Next, Takes;
    RunKeepsInv(backfill, run, steps, n);
    NothingSaid(p);
    assert run[n].fs.feed[|run[n].fs.feed|..] == [];
  }

  /** A run that failed before its cold start was saved is not taken up again in the same
      process. */
  ghost predicate FreshStarts(run: seq<State>, steps: seq<Step>) {
    forall k | 0 <= k < |steps| && k < |run| :: steps[k].Again? ==> run[k].cursor.Some?
  }

  ghost predicate SnapshotCovers(s: State) {
    && (s.cursor.Some? ==> s.coverage.Whole?)
    && (s.phase.Draining? || s.phase.Batch? ==> s.cursor.Some?)
  }

  lemma {:induction false} SnapshotsCover(run: seq<State>, steps: seq<Step>, n: nat)
    requires IsRun(Snapshot, run, steps) && n < |run| && FreshStarts(run, steps)
    ensures SnapshotCovers(run[n])
    decreases n
  {
    hide Allowed, Changed, Lists, Dispatches;
    if n == 0 {
    } else {
      SnapshotsCover(run, steps, n - 1);
      assert Takes(Snapshot, run, steps, n - 1);
    }
  }

  /** Where a failed cold start is never taken up again but by a new process, whole
      snapshots make the idle sink the filesystem. */
  lemma FreshConverges(run: seq<State>, steps: seq<Step>, n: nat)
    requires IsRun(Snapshot, run, steps) && n < |run| && FreshStarts(run, steps) && Idle(run[n])
    ensures run[n].sink == run[n].fs.files
  {
    hide Init, Next, Takes;
    SnapshotsCover(run, steps, n);
    forall p ensures Find(run[n].sink, p) == Find(run[n].fs.files, p) {
      IdleAgrees(Snapshot, run, steps, n, p);
    }
    SameMap(run[n].sink, run[n].fs.files);
  }

  lemma SameMap(a: map<Path, Data>, b: map<Path, Data>)
    requires forall p :: Find(a, p) == Find(b, p)
    ensures a == b
  {
    forall p ensures (p in a <==> p in b) && (p in a ==> a[p] == b[p]) {
      assert Find(a, p) == Find(b, p);
    }
  }

  // ----- paths the feed never mentions

  /** The feed mentions every file, everything the sink holds and everything about to
      reach it. */
  ghost predicate Told(s: State) {
    && (forall p | p in s.fs.files :: Touched(s.fs, 0, p))
    && (forall p | p in s.sink :: Touched(s.fs, 0, p))
    && (forall row | row in s.buffer :: Touched(s.fs, 0, row.path))
    && (s.phase.Batch? ==> forall op | op in s.phase.todo :: Touched(s.fs, 0, op.path))
  }

  lemma TouchedEarlier(fs: Fs, n: nat, p: Path)
    requires Touched(fs, n, p)
    ensures Touched(fs, 0, p)
  {
    hide LastSays;
    assert fs.feed[0..] == fs.feed[..n] + fs.feed[n..];
    LastSaysAppend(fs.feed[..n], fs.feed[n..], p);
  }

  lemma NextKeepsTold(backfill: Backfill, s: State, s': State, step: Step)
    requires Inv(s) && Told(s) && Next(backfill, s, s', step)
    ensures Told(s')
  {
    hide Inv, Touched, Changed, Allowed, Lists;
    match step
    case Change(change) =>
      forall p ensures (Touched(s.fs, 0, p) ==> Touched(s'.fs, 0, p)) && (p in s'.fs.files ==> Touched(s'.fs, 0, p)) {
        ChangeTouches(s.fs, change, 0, p);
      }
    case Fetch(end, todo) => OpsAreTold(s, s.phase.at, end, todo);
    case Retry(todo) => OpsAreTold(s, s.phase.at, s.phase.end, todo);
    case Dispatch => assert s.phase.todo[0] in s.phase.todo;
    case _ =>
  }

  lemma OpsAreTold(s: State, at: nat, end: nat, todo: seq<Op>)
    requires at <= end <= |s.fs.feed| && Dispatches(s.fs.feed[at..end], todo)
    ensures forall op | op in todo :: Touched(s.fs, 0, op.path)
  {
    hide Touched, Dispatches;
    forall op | op in todo ensures Touched(s.fs, 0, op.path) {
      DispatchTouches(s.fs, at, end, todo, op);
      TouchedEarlier(s.fs, at, op.path);
    }
  }

  lemma {:induction false} AlwaysTold(backfill: Backfill, run: seq<State>, steps: seq<Step>, n: nat)
    requires IsRun(backfill, run, steps) && n < |run| && Told(run[0])
    ensures Told(run[n])
    decreases n
  {
    hide Inv, Init, Next, Told;
    if n == 0 {
    } else {
      AlwaysTold(backfill, run, steps, n - 1);
      assert Takes(backfill, run, steps, n - 1);
      RunKeepsInv(backfill, run, steps, n - 1);
      NextKeepsTold(backfill, run[n-1], run[n], steps[n-1]);
    }
  }

  // ----- draining on: a run whose writers stop goes on to an idle state

  lemma Extend(backfill: Backfill, run: seq<State>, steps: seq<Step>, s: State, step: Step)
    returns (run': seq<State>, steps': seq<Step>)
    requires IsRun(backfill, run, steps) && Next(backfill, run[|run|-1], s, step)
    ensures IsRun(backfill, run', steps') && run' == run + [s] && steps' == steps + [step]
  {
    hide Next, Init;
    run', steps' := run + [s], steps + [step];
    forall k | 0 <= k < |steps'| ensures Takes(backfill, run', steps', k) {
      if k < |steps| {
        assert Takes(backfill, run, steps, k);
      }
    }
  }

  /** `b` has the filesystem of `a`, and its sink agrees with `a`'s on every path the feed
      never mentions. */
  ghost predicate SilentlySame(a: State, b: State) {
    b.fs == a.fs && forall p | !Touched(a.fs, 0, p) :: Find(b.sink, p) == Find(a.sink, p)
  }

  lemma FlushedIsTold(s: State, s': State)
    requires Inv(s) && s.phase.Batch? && s.buffer != []
    requires s' == s.(sink := Applied(s.sink, s.buffer[0]), buffer := s.buffer[1..])
    ensures SilentlySame(s, s')
  {
    hide Touched, Caught, Sound, FeedTrue;
    assert s.buffer[0] in s.buffer;
    TouchedEarlier(s.fs, s.phase.at, s.buffer[0].path);
  }

  lemma {:induction false} FinishBatch(backfill: Backfill, run: seq<State>, steps: seq<Step>)
    returns (run': seq<State>, steps': seq<Step>)
    requires IsRun(backfill, run, steps) && run[|run|-1].phase.Batch?
    ensures IsRun(backfill, run', steps') && run'[0] == run[0]
    ensures run'[|run'|-1].phase == Draining(run[|run|-1].phase.end)
    ensures SilentlySame(run[|run|-1], run'[|run'|-1])
    decreases |run[|run|-1].phase.todo|, |run[|run|-1].buffer|
  {
    hide IsRun, Inv, Touched, Applied, Handled;
    RunIsLong(backfill, run, steps);
    var s := run[|run|-1];
    if s.phase.todo != [] {
      var s' := s.(buffer := s.buffer + Handled(s.fs, s.phase.todo[0]), phase := s.phase.(todo := s.phase.todo[1..]));
      run', steps' := Extend(backfill, run, steps, s', Dispatch);
      run', steps' := FinishBatch(backfill, run', steps');
    } else if s.buffer != [] {
      var s' := s.(sink := Applied(s.sink, s.buffer[0]), buffer := s.buffer[1..]);
      run', steps' := Extend(backfill, run, steps, s', FlushRow);
      RunKeepsInv(backfill, run, steps, |run| - 1);
      FlushedIsTold(s, s');
      run', steps' := FinishBatch(backfill, run', steps');
    } else {
      var s' := s.(cursor := Some(s.phase.end), phase := Draining(s.phase.end));
      run', steps' := Extend(backfill, run, steps, s', Save);
    }
  }

  lemma RunIsLong(backfill: Backfill, run: seq<State>, steps: seq<Step>)
    requires IsRun(backfill, run, steps)
    ensures |run| == |steps| + 1
  {
  }

  lemma DrainOn(backfill: Backfill, run: seq<State>, steps: seq<Step>) returns (run': seq<State>, steps': seq<Step>)
    requires IsRun(backfill, run, steps) && run[|run|-1].phase.Draining?
    ensures IsRun(backfill, run', steps') && run' != [] && run'[0] == run[0] && Idle(run'[|run'|-1])
    ensures SilentlySame(run[|run|-1], run'[|run'|-1])
  {
    hide IsRun, Inv, Touched, Dispatches, InOrderOps;
    RunIsLong(backfill, run, steps);
    RunKeepsInv(backfill, run, steps, |run| - 1);
    var s := run[|run|-1];
    var at, end := s.phase.at, |s.fs.feed|;
    DrainsWithin(s);
    if at == end {
      run', steps' := run, steps;
    } else {
      var todo := InOrderOps(s.fs.feed[at..end]);
      InOrderDispatches(s.fs.feed[at..end]);
      var s' := s.(buffer := [], phase := Batch(at, end, todo));
      run', steps' := Extend(backfill, run, steps, s', Fetch(end, todo));
      run', steps' := FinishBatch(backfill, run', steps');
      RunIsLong(backfill, run', steps');
    }
  }

  lemma DrainsWithin(s: State)
    requires Inv(s) && s.phase.Draining?
    ensures s.phase.at <= |s.fs.feed|
  {
  }

  lemma InOrderDispatches(batch: seq<Event>)
    ensures Dispatches(batch, InOrderOps(batch))
  {
    hide InOrderOps, LastOp, LastSays;
    forall p ensures LastOp(InOrderOps(batch), p) == LastSays(batch, p) {
      InOrderSays(batch, p);
    }
  }

  // ----- when every run converges

  ghost predicate EndsRight(run: seq<State>, n: nat)
    requires n < |run|
  {
    Idle(run[n]) ==> run[n].sink == run[n].fs.files
  }

  ghost predicate SnapshotOrAll(s: State) {
    s.cursor.Some? || s.phase.Draining? || s.phase.Batch? ==> s.coverage == Whole || s.coverage == From(0)
  }

  lemma {:induction false} SnapshotsOrAll(run: seq<State>, steps: seq<Step>, n: nat)
    requires IsRun(Snapshot, run, steps) && n < |run|
    ensures SnapshotOrAll(run[n])
    decreases n
  {
    hide Allowed, Changed, Lists, Dispatches, Handled, Applied;
    if n == 0 {
    } else {
      SnapshotsOrAll(run, steps, n - 1);
      assert Takes(Snapshot, run, steps, n - 1);
    }
  }

  /** Runs taken up again in any process converge as long as the feed mentions every file
      there was to begin with, and everything the sink held. */
  lemma ToldConverges(run: seq<State>, steps: seq<Step>, n: nat)
    requires IsRun(Snapshot, run, steps) && n < |run| && Told(run[0]) && Idle(run[n])
    ensures run[n].sink == run[n].fs.files
  {
    hide Init, Next, Takes, Touched;
    SnapshotsOrAll(run, steps, n);
    AlwaysTold(Snapshot, run, steps, n);
    forall p ensures Find(run[n].sink, p) == Find(run[n].fs.files, p) {
      if Touched(run[n].fs, 0, p) || run[n].coverage == Whole {
        IdleAgrees(Snapshot, run, steps, n, p);
      }
    }
    SameMap(run[n].sink, run[n].fs.files);
  }

  /** Convergence: with a snapshot cold start, through any interleaving, the idle sink is
      the filesystem, unless a failed cold start was taken up again in its own process and
      the feed left something out. */
  lemma Converges(run: seq<State>, steps: seq<Step>, n: nat)
    requires IsRun(Snapshot, run, steps) && n < |run| && Idle(run[n])
    requires FreshStarts(run, steps) || Told(run[0])
    ensures run[n].sink == run[n].fs.files
  {
    hide IsRun, FreshStarts, Told, Idle;
    if FreshStarts(run, steps) {
      FreshConverges(run, steps, n);
    } else {
      ToldConverges(run, steps, n);
    }
  }

  lemma StartsRun(backfill: Backfill, s: State)
    requires Init(s)
    ensures IsRun(backfill, [s], [])
  {
  }

  /** A cold start that pages to the head, clears the sink, fails in its walk and is taken
      up again in the same process. */
  lemma ClearedAndAgain(s0: State) returns (run: seq<State>, steps: seq<Step>)
    requires Init(s0)
    ensures IsRun(Snapshot, run, steps) && run[0] == s0
    ensures run[|run|-1].phase == Draining(0) && run[|run|-1].sink == map[] && run[|run|-1].fs == s0.fs
  {
    hide IsRun, Sound, FeedTrue, Allowed, Changed, Lists, Dispatches;
    var end := |s0.fs.feed|;
    var s1 := s0.(phase := Heading(0));
    StartsRun(Snapshot, s0);
    run, steps := [s0], [];
    run, steps := Extend(Snapshot, run, steps, s1, Start);
    var s2 := s0.(phase := Heading(end));
    if end > 0 {
      run, steps := Extend(Snapshot, run, steps, s2, Page(end));
    }
    var s3 := s2.(sink := map[], buffer := [], phase := Walking(end, [[]], []));
    run, steps := Extend(Snapshot, run, steps, s3, HeadFound);
    var s4 := s3.(phase := Down(true));
    run, steps := Extend(Snapshot, run, steps, s4, Raise);
    var s5 := s4.(phase := Draining(0), coverage := From(0));
    run, steps := Extend(Snapshot, run, steps, s5, Again);
  }

  /** One that fails before the sink is cleared. */
  lemma FailedAndAgain(s0: State) returns (run: seq<State>, steps: seq<Step>)
    requires Init(s0)
    ensures IsRun(Snapshot, run, steps) && run[0] == s0
    ensures run[|run|-1].phase == Draining(0) && run[|run|-1].sink == s0.sink && run[|run|-1].fs == s0.fs
  {
    hide IsRun, Sound, FeedTrue, Allowed, Changed, Lists, Dispatches;
    var s1 := s0.(phase := Heading(0));
    var s2 := s1.(phase := Down(true));
    var s3 := s2.(phase := Draining(0), coverage := From(0));
    StartsRun(Snapshot, s0);
    run, steps := [s0], [];
    run, steps := Extend(Snapshot, run, steps, s1, Start);
    run, steps := Extend(Snapshot, run, steps, s2, Raise);
    run, steps := Extend(Snapshot, run, steps, s3, Again);
  }

  /** A path the feed never mentions ends as it stood when the tail began. */
  lemma SilentStays(backfill: Backfill, run: seq<State>, steps: seq<Step>, p: Path)
    returns (run': seq<State>, steps': seq<Step>)
    requires IsRun(backfill, run, steps) && run[|run|-1].phase.Draining?
    requires !Touched(run[|run|-1].fs, 0, p) && Find(run[|run|-1].sink, p) != Find(run[|run|-1].fs.files, p)
    ensures IsRun(backfill, run', steps') && run' != [] && run'[0] == run[0] && !EndsRight(run', |run'| - 1)
  {
    hide IsRun, Touched;
    run', steps' := DrainOn(backfill, run, steps);
  }

  lemma MissesSomething(s0: State) returns (run: seq<State>, steps: seq<Step>)
    requires Init(s0) && !Told(s0)
    ensures IsRun(Snapshot, run, steps) && run != [] && run[0] == s0 && !EndsRight(run, |run| - 1)
  {
    hide IsRun, Touched, EndsRight, Init;
    InitIsBare(s0);
    if p :| p in s0.fs.files && !Touched(s0.fs, 0, p) {
      run, steps := ClearedAndAgain(s0);
      RunIsLong(Snapshot, run, steps);
      run, steps := SilentStays(Snapshot, run, steps, p);
    } else {
      var p :| p in s0.sink && !Touched(s0.fs, 0, p);
      run, steps := FailedAndAgain(s0);
      RunIsLong(Snapshot, run, steps);
      run, steps := SilentStays(Snapshot, run, steps, p);
    }
  }

  lemma InitIsBare(s: State)
    requires Init(s)
    ensures s.buffer == [] && !s.phase.Batch?
  {
  }

  /** From a state a consumer can begin in, every run with a snapshot cold start converges,
      whatever fails and is taken up again, if and only if the feed mentions every file and
      everything the sink holds. */
  lemma AgainConvergesIff(s0: State)
    requires Init(s0)
    ensures (forall run: seq<State>, steps: seq<Step>, n: nat
               | IsRun(Snapshot, run, steps) && n < |run| && run[0] == s0 :: EndsRight(run, n))
            <==> Told(s0)
  {
    hide IsRun, Init, Told;
    if Told(s0) {
      forall run: seq<State>, steps: seq<Step>, n: nat | IsRun(Snapshot, run, steps) && n < |run| && run[0] == s0
        ensures EndsRight(run, n)
      {
        if Idle(run[n]) {
          ToldConverges(run, steps, n);
        }
      }
    } else {
      var run, steps := MissesSomething(s0);
      assert IsRun(Snapshot, run, steps) && !EndsRight(run, |run| - 1);
    }
  }

  // ----- replaying the whole feed

  /** On every path the feed never mentions the sink is right to begin with. */
  ghost predicate RightWhereSilent(s: State) {
    forall p | !Touched(s.fs, 0, p) :: Find(s.sink, p) == Find(s.fs.files, p)
  }

  ghost predicate ReplayCovers(s: State) {
    && (s.cursor.Some? ==> s.coverage == From(0))
    && (s.phase.Draining? || s.phase.Batch? ==> s.coverage == From(0))
    && (s.phase.Down? || s.phase.Draining? || s.phase.Batch?)
  }

  lemma {:induction false} ReplaysCover(run: seq<State>, steps: seq<Step>, n: nat)
    requires IsRun(Replay, run, steps) && n < |run|
    ensures ReplayCovers(run[n])
    decreases n
  {
    hide Allowed, Changed, Lists, Dispatches, Handled, Applied;
    if n == 0 {
    } else {
      ReplaysCover(run, steps, n - 1);
      assert Takes(Replay, run, steps, n - 1);
    }
  }

  lemma NextKeepsSilent(s: State, s': State, step: Step)
    requires Inv(s) && ReplayCovers(s) && RightWhereSilent(s) && Next(Replay, s, s', step)
    ensures RightWhereSilent(s')
  {
    hide Inv, Touched, Changed, Allowed, Lists, Dispatches, Handled;
    match step
    case Change(change) =>
      forall p | !Touched(s'.fs, 0, p) ensures Find(s'.sink, p) == Find(s'.fs.files, p) {
        ChangeTouches(s.fs, change, 0, p);
        assert Find(s.sink, p) == Find(s.fs.files, p);
      }
    case FlushRow => FlushedIsTold(s, s');
    case _ =>
  }

  lemma {:induction false} AlwaysRightWhereSilent(run: seq<State>, steps: seq<Step>, n: nat)
    requires IsRun(Replay, run, steps) && n < |run| && RightWhereSilent(run[0])
    ensures RightWhereSilent(run[n])
    decreases n
  {
    hide Inv, Init, Next, RightWhereSilent, ReplayCovers;
    if n == 0 {
    } else {
      AlwaysRightWhereSilent(run, steps, n - 1);
      assert Takes(Replay, run, steps, n - 1);
      RunKeepsInv(Replay, run, steps, n - 1);
      ReplaysCover(run, steps, n - 1);
      NextKeepsSilent(run[n-1], run[n], steps[n-1]);
    }
  }

  /** Replay converges too, restarts of every kind included, when what the feed does not
      mention was right to begin with. */
  lemma ReplayConverges(run: seq<State>, steps: seq<Step>, n: nat)
    requires IsRun(Replay, run, steps) && n < |run| && RightWhereSilent(run[0]) && Idle(run[n])
    ensures run[n].sink == run[n].fs.files
  {
    hide Init, Next, Takes, Touched;
    ReplaysCover(run, steps, n);
    AlwaysRightWhereSilent(run, steps, n);
    forall p ensures Find(run[n].sink, p) == Find(run[n].fs.files, p) {
      if Touched(run[n].fs, 0, p) {
        IdleAgrees(Replay, run, steps, n, p);
      }
    }
    SameMap(run[n].sink, run[n].fs.files);
  }

  lemma ReplayStarts(s0: State) returns (run: seq<State>, steps: seq<Step>)
    requires Init(s0)
    ensures IsRun(Replay, run, steps) && run[0] == s0
    ensures run[|run|-1].phase == Draining(0) && run[|run|-1].sink == s0.sink && run[|run|-1].fs == s0.fs
  {
    hide IsRun, Sound, FeedTrue, Allowed, Changed, Lists, Dispatches;
    var s1 := s0.(cursor := Some(0), coverage := From(0), phase := Draining(0));
    StartsRun(Replay, s0);
    run, steps := Extend(Replay, [s0], [], s1, Start);
  }

  /** Every run that replays converges if and only if the sink begins right on every path
      the feed never mentions. */
  lemma ReplayConvergesIff(s0: State)
    requires Init(s0)
    ensures (forall run: seq<State>, steps: seq<Step>, n: nat
               | IsRun(Replay, run, steps) && n < |run| && run[0] == s0 :: EndsRight(run, n))
            <==> RightWhereSilent(s0)
  {
    hide IsRun, Init, Touched;
    if RightWhereSilent(s0) {
      forall run: seq<State>, steps: seq<Step>, n: nat | IsRun(Replay, run, steps) && n < |run| && run[0] == s0
        ensures EndsRight(run, n)
      {
        if Idle(run[n]) {
          ReplayConverges(run, steps, n);
        }
      }
    } else {
      var p :| !Touched(s0.fs, 0, p) && Find(s0.sink, p) != Find(s0.fs.files, p);
      var run, steps := ReplayStarts(s0);
      RunIsLong(Replay, run, steps);
      run, steps := SilentStays(Replay, run, steps, p);
      assert IsRun(Replay, run, steps) && !EndsRight(run, |run| - 1);
    }
  }

  lemma NothingTold(fs: Fs)
    requires fs.feed == []
    ensures FeedTrue(fs)
  {
  }

  /** Run again in the process whose cold start failed, the consumer tails from the start
      without walking the tree: a file the feed never mentions is missing for good. */
  lemma RunAgainSkipsTheWalk() returns (run: seq<State>, steps: seq<Step>)
    ensures IsRun(Snapshot, run, steps) && !FreshStarts(run, steps)
    ensures Idle(run[|run|-1]) && run[|run|-1].sink != run[|run|-1].fs.files
  {
    hide Fate, Flushed, Lists, Dispatches, Allowed, Changed, Touched, LastSays, LastOp;
    var fs := Fs(map[["a"] := []], {[]}, []);
    NothingTold(fs);
    var s0 := State(fs, None, map[], [], Down(false), Whole);
    var s1 := s0.(phase := Heading(0));
    var s2 := s1.(phase := Walking(0, [[]], []));
    var s3 := s2.(phase := Down(true));
    var s4 := s3.(phase := Draining(0), coverage := From(0));
    assert Parent(["a"]) == [];
    run, steps := [s0, s1, s2, s3, s4], [Start, HeadFound, Raise, Again];
    assert Takes(Snapshot, run, steps, 0) && Takes(Snapshot, run, steps, 1);
    assert Takes(Snapshot, run, steps, 2) && Takes(Snapshot, run, steps, 3);
    assert steps[3].Again? && run[3].cursor.None?;
    assert ["a"] in fs.files;
  }
}
