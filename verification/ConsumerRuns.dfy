/** The consumer's own loops, run over a source that stays as it is: every action they take
    is a step of the protocol, they end, and a run that returns has drained the feed. */
module ConsumerRuns {
  import opened Tilings
  import opened Bytes
  import opened ChangeFeeds
  import opened Consumers

  const MAX_BATCH_RETRIES: nat := 6

  class Consumer {
    const fs: Fs
    const backfill: Backfill
    const coalesce: bool
    const pageSize: nat
    var cursor: Option<nat>
    var booted: bool
    var sink: map<Path, Data>
    var buffer: seq<Row>
    var faults: nat     // how many more failures of the handler there will be
    var outages: nat    // and of reading the feed or listing a directory
    ghost var phase: Phase
    ghost var coverage: Coverage

    ghost function View(): State
      reads this
    {
      State(fs, cursor, sink, buffer, phase, coverage)
    }

    ghost predicate Valid()
      reads this
    {
      Inv(View()) && pageSize > 0
    }

    constructor (fs: Fs, backfill: Backfill, coalesce: bool, pageSize: nat, faults: nat,
                 outages: nat)
      requires Sound(fs) && FeedTrue(fs) && pageSize > 0
      ensures Valid() && View() == State(fs, None, map[], [], Down(false), Whole) && !booted
      ensures this.fs == fs && this.backfill == backfill && this.faults == faults && this.outages == outages
    {
      this.fs, this.backfill, this.coalesce, this.pageSize := fs, backfill, coalesce, pageSize;
      this.faults, this.outages := faults, outages;
      cursor, booted, sink, buffer, phase, coverage := None, false, map[], [], Down(false), Whole;
    }

    /** A call of the handler may fail while there are failures left. */
    method Falters() returns (f: bool)
      modifies this`faults
      ensures f ==> old(faults) > 0 && faults == old(faults) - 1
      ensures !f ==> faults == old(faults)
    {
      f := false;
      if faults > 0 {
        f := *;
      }
      if f {
        faults := faults - 1;
      }
    }

    /** So may a call of the source. */
    method Drops() returns (f: bool)
      modifies this`outages
      ensures f ==> old(outages) > 0 && outages == old(outages) - 1
      ensures !f ==> outages == old(outages)
    {
      f := false;
      if outages > 0 {
        f := *;
      }
      if f {
        outages := outages - 1;
      }
    }

    /** Events strictly after the first `since`, oldest first; none only at the head. */
    method Events(since: nat) returns (batch: seq<Event>)
      requires since <= |fs.feed| && pageSize > 0
      ensures since + |batch| <= |fs.feed| && batch == fs.feed[since..since + |batch|]
      ensures batch == [] <==> since == |fs.feed|
    {
      var end := if |fs.feed| - since < pageSize then |fs.feed| else since + pageSize;
      batch := fs.feed[since..end];
    }

    method ListDir(d: Path) returns (entries: seq<Entry>)
      ensures Lists(fs, d, entries)
      ensures forall i, j | 0 <= i < j < |entries| :: entries[i] != entries[j]
    {
      var left := (set p | p in fs.files && p != [] && Parent(p) == d :: FileEntry(p))
                  + (set p | p in fs.dirs && p != [] && Parent(p) == d :: SubDir(p));
      ghost var all := left;
      entries := [];
      while left != {}
        invariant forall e :: e in all <==> e in left || e in entries
        invariant forall e | e in left :: e !in entries
        invariant forall i, j | 0 <= i < j < |entries| :: entries[i] != entries[j]
        decreases |left|
      {
        var e :| e in left;
        left, entries := left - {e}, entries + [e];
      }
      forall p ensures FileEntry(p) in entries <==> p in fs.files && p != [] && Parent(p) == d {
        assert FileEntry(p) in entries <==> FileEntry(p) in all;
      }
      forall p ensures SubDir(p) in entries <==> p in fs.dirs && p != [] && Parent(p) == d {
        assert SubDir(p) in entries <==> SubDir(p) in all;
      }
    }

    /** The protocol step from `before` to where the consumer is now. */
    ghost method Took(before: State, step: Step)
      requires Inv(before) && Next(backfill, before, View(), step) && pageSize > 0
      ensures Valid()
    {
      NextKeepsInv(backfill, before, View(), step);
    }

    /** None when the feed cannot be read. */
    method FeedHead() returns (head: Option<nat>)
      requires Valid() && phase == Heading(0)
      modifies this`phase, this`outages
      ensures Valid() && phase.Heading?
      ensures head.Some? ==> phase == Heading(head.value) && head.value == |fs.feed|
      ensures outages == if head.Some? then old(outages) else old(outages) - 1
    {
      hide Inv, Allowed, Changed, Lists, Dispatches;
      var cur: nat := 0;
      HeadingWithin(View());
      while true
        invariant Valid() && phase == Heading(cur) && cur <= |fs.feed| && outages == old(outages)
        decreases |fs.feed| - cur
      {
        var dropped := Drops();
        if dropped {
          return None;
        }
        var batch := Events(cur);
        if batch == [] {
          return Some(cur);
        }
        ghost var before := View();
        cur := cur + |batch|;
        phase := Heading(cur);
        Took(before, Page(cur));
      }
    }

    /** Read the file now and buffer it; a file that is gone is skipped. */
    method OnUpsert(p: Path)
      modifies this`buffer
      ensures buffer == old(buffer) + Handled(fs, Upsert(p))
    {
      if p in fs.files {
        buffer := buffer + [Put(p, fs.files[p])];
      }
    }

    method OnDelete(p: Path)
      modifies this`buffer
      ensures buffer == old(buffer) + Handled(fs, Delete(p))
    {
      buffer := buffer + [Drop(p)];
    }

    /** Go through a listing: directories are stacked, files handed to the handler. */
    method VisitAll(entries: seq<Entry>, rest: seq<Path>, ghost head: nat) returns (ok: bool, stack: seq<Path>)
      requires Valid() && phase == Walking(head, rest, entries)
      modifies this`buffer, this`phase, this`faults
      ensures Valid() && phase.Walking?
      ensures faults == if ok then old(faults) else old(faults) - 1
      ensures ok ==> phase == Walking(head, stack, []) && stack == rest + PathsOf(entries, true)
      ensures ok ==> buffer == old(buffer) + HandedOn(fs, PathsOf(entries, false))
    {
      hide Inv, Allowed, Changed, Lists, Dispatches, Handled, HandedOn, PathsOf;
      stack := rest;
      NoPaths(fs);
      for n := 0 to |entries|
        invariant Valid() && phase == Walking(head, stack, entries[n..]) && faults == old(faults)
        invariant stack == rest + PathsOf(entries[..n], true)
        invariant buffer == old(buffer) + HandedOn(fs, PathsOf(entries[..n], false))
      {
        ghost var before := View();
        assert entries[n..][0] == entries[n] && entries[n..][1..] == entries[n+1..];
        assert entries[..n+1] == entries[..n] + [entries[n]];
        PathsStep(entries[..n], entries[n]);
        match entries[n] {
          case SubDir(child) =>
            assert PathsOf(entries[..n+1], false) == PathsOf(entries[..n], false);
            stack := stack + [child];
          case FileEntry(p) =>
            var failed := Falters();
            if failed {
              return false, stack;
            }
            HandedStep(fs, PathsOf(entries[..n], false), p);
            OnUpsert(p);
            assert buffer == old(buffer) + HandedOn(fs, PathsOf(entries[..n], false)) + Handled(fs, Upsert(p));
        }
        phase := Walking(head, stack, entries[n+1..]);
        Took(before, Visit);
      }
      assert entries[..|entries|] == entries && entries[|entries|..] == [];
      ok := true;
    }

    /** Depth-first over directories, each listed once, each file handed to the handler
        once. */
    method WalkFiles(ghost head: nat) returns (ok: bool, ghost listed: seq<Path>, ghost met: seq<Path>)
      requires Valid() && phase == Walking(head, [[]], [])
      modifies this`buffer, this`phase, this`faults, this`outages
      ensures Valid() && phase.Walking?
      ensures FailedOnce(old(faults), faults, old(outages), outages, !ok)
      ensures ok ==> phase == Walking(head, [], [])
      ensures ok ==> EachOnce(listed, fs.dirs) && EachOnce(met, fs.files.Keys)
      ensures ok ==> buffer == old(buffer) + HandedOn(fs, met)
    {
      hide Inv, Next, Lists, Unlisted, Reached, Sound, PathsOf, HandedOn, EachOnce;
      var stack: seq<Path> := [[]];
      ghost var left := fs.dirs;
      listed, met := [], [];
      SoundFs(View());
      RootUnlisted(fs);
      NoneYet(fs);
      while stack != []
        invariant Valid() && phase == Walking(head, stack, [])
        invariant faults == old(faults) && outages == old(outages)
        invariant left <= fs.dirs && Unlisted(fs, stack, left) && Reached(stack, left)
        invariant EachOnce(listed, fs.dirs - left) && EachOnce(met, FilesIn(fs, fs.dirs - left))
        invariant buffer == old(buffer) + HandedOn(fs, met)
        decreases |left|
      {
        var d, rest := stack[|stack|-1], stack[..|stack|-1];
        assert stack == rest + [d];
        TopUnlisted(fs, rest, d, left);
        var dropped := Drops();
        if dropped {
          return false, listed, met;
        }
        var entries := ListTop(rest, d, head);
        OneMoreDir(fs, rest, d, entries, left);
        OneMoreListed(fs, listed, met, d, entries, left);
        HandedAppend(fs, met, PathsOf(entries, false));
        listed, met := listed + [d], met + PathsOf(entries, false);
        left := left - {d};
        ok, stack := VisitAll(entries, rest, head);
        if !ok {
          return;
        }
      }
      AllListed(fs, left);
      ok := true;
    }

    /** List the directory on top of the stack. */
    method ListTop(rest: seq<Path>, d: Path, ghost head: nat) returns (entries: seq<Entry>)
      requires Valid() && phase == Walking(head, rest + [d], []) && d in fs.dirs
      modifies this`phase
      ensures Valid() && phase == Walking(head, rest, entries) && Lists(fs, d, entries)
      ensures forall i, j | 0 <= i < j < |entries| :: entries[i] != entries[j]
    {
      hide Inv, Allowed, Changed, Lists, Dispatches;
      ghost var before := View();
      assert (rest + [d])[..|rest|] == rest;
      entries := ListDir(d);
      phase := Walking(head, rest, entries);
      Took(before, List(entries));
    }

    method Flush() returns (ok: bool)
      requires Valid() && (phase.Landing? || (phase.Batch? && phase.todo == []))
      modifies this`sink, this`buffer, this`faults
      ensures Valid() && (ok ==> buffer == [])
      ensures faults == if ok then old(faults) else old(faults) - 1
    {
      hide Inv, Allowed, Changed, Lists, Dispatches;
      while buffer != []
        invariant Valid() && faults == old(faults)
        decreases |buffer|
      {
        var failed := Falters();
        if failed {
          return false;
        }
        ghost var before := View();
        match buffer[0] {
          case Put(p, data) => sink := sink[p := data];
          case Drop(p) => sink := sink - {p};
        }
        buffer := buffer[1..];
        Took(before, FlushRow);
      }
      ok := true;
    }

    /** The head is captured before the walk, the cursor saved after the flush. A cold start
        that fails at anything saves no cursor. */
    method BootstrapCold() returns (at: Option<nat>)
      requires Valid() && phase == Down(false) && cursor == None
      modifies this`cursor, this`sink, this`buffer, this`phase, this`coverage, this`faults, this`outages
      ensures Valid()
      ensures FailedOnce(old(faults), faults, old(outages), outages, at.None?)
      ensures cursor == at
      ensures at.Some? ==> phase == Draining(at.value) && at.value == if backfill == Replay then 0 else |fs.feed|
      ensures at.Some? && backfill == Snapshot ==> coverage == Whole
      ensures at.Some? && backfill != Snapshot ==> coverage == From(at.value) && sink == old(sink)
      ensures at.None? ==> phase == Down(true) && backfill != Replay
    {
      hide Inv, Allowed, Changed, Lists, Dispatches;
      ghost var before := View();
      if backfill == Replay {
        cursor, coverage, phase := Some(0), From(0), Draining(0);
        Took(before, Start);
        return Some(0);
      }
      phase := Heading(0);
      Took(before, Start);
      var head := FeedHead();
      before := View();
      if head.None? {
        phase := Down(true);
        Took(before, Raise);
        return None;
      }
      if backfill == TailOnly {
        cursor, coverage, phase := head, From(head.value), Draining(head.value);
        Took(before, HeadFound);
        return head;
      }
      var ok := TakeSnapshot(head.value);
      at := if ok then head else None;
    }

    /** Clear the sink, walk, flush, and only then save the head as the cursor. */
    method TakeSnapshot(head: nat) returns (ok: bool)
      requires Valid() && backfill == Snapshot && phase == Heading(head) && head == |fs.feed|
      modifies this`cursor, this`sink, this`buffer, this`phase, this`coverage, this`faults, this`outages
      ensures Valid()
      ensures FailedOnce(old(faults), faults, old(outages), outages, !ok)
      ensures ok ==> phase == Draining(head) && cursor == Some(head) && coverage == Whole
      ensures !ok ==> phase == Down(true) && cursor == old(cursor) && coverage == old(coverage)
    {
      hide Inv, Next, HandedOn, EachOnce, Touched;
      ghost var before := View();
      SnapshotBegins(before, head);
      sink, buffer, phase := map[], [], Walking(head, [[]], []);
      Took(before, HeadFound);
      ghost var listed, met;
      ok, listed, met := WalkFiles(head);
      if ok {
        before := View();
        WalkEnds(before, head);
        phase := Landing(head);
        Took(before, WalkDone);
        ok := Flush();
      }
      before := View();
      if !ok {
        phase := Down(true);
        GivesUp(before);
        Took(before, Raise);
        return;
      }
      SnapshotSaves(before, head);
      cursor, coverage, phase := Some(head), Whole, Draining(head);
      Took(before, SaveSnapshot);
    }

    method OpsOf(batch: seq<Event>) returns (todo: seq<Op>)
      ensures Dispatches(batch, todo)
    {
      if coalesce {
        todo := CoalesceBatch(batch);
      } else {
        todo := [];
        for n := 0 to |batch|
          invariant todo == InOrderOps(batch[..n])
        {
          assert batch[..n+1][..n] == batch[..n];
          todo := todo + EventOps(batch[n]);
        }
        assert batch[..|batch|] == batch;
        forall p ensures LastOp(todo, p) == LastSays(batch, p) {
          InOrderSays(batch, p);
        }
      }
    }

    /** Hand every op to the handler; a failing one ends the attempt. */
    method DispatchAll(todo: seq<Op>, ghost at: nat, ghost end: nat) returns (ok: bool)
      requires Valid() && phase == Batch(at, end, todo)
      modifies this`buffer, this`phase, this`faults
      ensures Valid() && phase.Batch? && phase.at == at && phase.end == end
      ensures ok ==> phase.todo == []
      ensures faults == if ok then old(faults) else old(faults) - 1
    {
      hide Inv, Allowed, Changed, Lists, Dispatches, Handled;
      for n := 0 to |todo|
        invariant Valid() && phase == Batch(at, end, todo[n..]) && faults == old(faults)
      {
        var failed := Falters();
        if failed {
          return false;
        }
        ghost var before := View();
        match todo[n] {
          case Upsert(p) => OnUpsert(p);
          case Delete(p) => OnDelete(p);
        }
        assert todo[n..][0] == todo[n] && todo[n..][1..] == todo[n+1..];
        phase := Batch(at, end, todo[n+1..]);
        Took(before, Dispatch);
      }
      assert todo[|todo|..] == [];
      ok := true;
    }

    /** Dispatch and flush, from scratch after a failure, a bounded number of times. */
    method HandleBatchWithRetry(batch: seq<Event>, at: nat) returns (ok: bool)
      requires Valid() && phase == Draining(at) && batch != []
      requires at + |batch| <= |fs.feed| && batch == fs.feed[at..at + |batch|]
      modifies this`sink, this`buffer, this`phase, this`faults
      ensures Valid()
      ensures faults <= old(faults)
      ensures !ok ==> old(faults) > 6
      ensures ok ==> phase == Batch(at, at + |batch|, []) && buffer == []
      ensures !ok ==> phase == Down(true)
    {
      hide Inv, Allowed, Changed, Lists, Dispatches, Handled;
      ghost var end := at + |batch|;
      var attempt: nat := 0;
      while true
        invariant Valid() && attempt <= MAX_BATCH_RETRIES && faults + attempt <= old(faults)
        invariant if attempt == 0 then phase == Draining(at) else phase.Batch? && phase.at == at && phase.end == end
        decreases MAX_BATCH_RETRIES - attempt
      {
        ghost var before := View();
        buffer := [];
        var todo := OpsOf(batch);
        phase := Batch(at, end, todo);
        Took(before, if attempt == 0 then Fetch(end, todo) else Retry(todo));
        var dispatched := DispatchAll(todo, at, end);
        if dispatched {
          ok := Flush();
          if ok {
            return;
          }
        }
        if attempt >= MAX_BATCH_RETRIES {
          before := View();
          phase := Down(true);
          Took(before, Raise);
          return false;
        }
        attempt := attempt + 1;
      }
    }

    /** Left early only when the feed cannot be read or a batch fails too often. */
    method Drain(start: nat) returns (ok: bool)
      requires Valid() && phase == Draining(start)
      modifies this`cursor, this`sink, this`buffer, this`phase, this`faults, this`outages
      ensures Valid()
      ensures !ok ==> outages < old(outages) || old(faults) > 6
      ensures ok ==> Idle(View())
      ensures ok ==> cursor == if start < |fs.feed| then Some(|fs.feed|) else old(cursor)
      ensures !ok ==> phase == Down(true)
    {
      hide Inv, Allowed, Changed, Lists, Dispatches;
      var at := start;
      DrainingWithin(View());
      while true
        invariant Valid() && phase == Draining(at) && at <= |fs.feed|
        invariant faults <= old(faults) && outages == old(outages)
        invariant start <= at && cursor == if start < at then Some(at) else old(cursor)
        decreases |fs.feed| - at
      {
        var dropped := Drops();
        if dropped {
          ghost var before := View();
          phase := Down(true);
          Took(before, Raise);
          return false;
        }
        var batch := Events(at);
        if batch == [] {
          return true;
        }
        var handled := HandleBatchWithRetry(batch, at);
        if !handled {
          return false;
        }
        ghost var before := View();
        at := at + |batch|;
        cursor, phase := Some(at), Draining(at);
        Took(before, Save);
      }
    }

    /** Bootstrap if needed, then drain. A run is left only when the feed cannot be read, a
        cold start fails or one batch fails more often than it is retried. A first run with a snapshot cold start
        leaves the sink equal to the filesystem, any other right on every path the tail
        answers for. */
    method RunOnce() returns (ok: bool)
      requires Valid() && (phase == Down(booted) || (booted && phase.Draining?))
      modifies this
      ensures Valid()
      ensures ok ==> Idle(View()) && forall p | Covered(View(), p) :: Find(sink, p) == Find(fs.files, p)
      ensures ok && backfill == Snapshot && old(cursor) == None && !old(booted) ==> sink == fs.files
      ensures ok ==> cursor == Some(|fs.feed|) || (cursor == None && fs.feed == [])
      ensures booted && (!ok ==> phase == Down(true))
      ensures !ok ==>
        outages < old(outages) || old(faults) > if old(cursor).Some? || old(booted) then 6 else 0
    {
      hide Inv, Allowed, Changed, Lists, Dispatches, Covered;
      ghost var before := View();
      ghost var first := !booted && cursor == None;
      if phase.Draining? {
        phase := Down(true);
        Took(before, Raise);
        before := View();
      }
      var start: nat := 0;
      if cursor.Some? {
        start := cursor.value;
        phase := Draining(start);
        Took(before, if booted then Again else Start);
      } else if booted {
        phase, coverage := Draining(0), From(0);
        Took(before, Again);
      } else {
        booted := true;
        var cold := BootstrapCold();
        if cold.None? {
          return false;
        }
        start := cold.value;
      }
      booted := true;
      DrainingWithin(View());
      assert cursor == Some(start) || (cursor == None && start == 0);
      ok := Drain(start);
      if ok {
        assert start == 0 == |fs.feed| ==> fs.feed == [];
        forall p | Covered(View(), p) ensures Find(sink, p) == Find(fs.files, p) {
          IdleSink(View(), p);
        }
        if first && backfill == Snapshot {
          WholeSink(View());
        }
      }
    }
  }

  /** What is left of both kinds of failures: all of it, or one less of one kind. */
  ghost predicate FailedOnce(faults: nat, faults': nat, outages: nat, outages': nat, failed: bool) {
    if failed then (faults' + 1 == faults && outages' == outages) || (faults' == faults && outages' + 1 == outages)
    else faults' == faults && outages' == outages
  }

  // ----- the actions as steps

  lemma HeadingWithin(s: State)
    requires Inv(s) && s.phase.Heading?
    ensures s.phase.cur <= |s.fs.feed|
  {
  }

  lemma DrainingWithin(s: State)
    requires Inv(s) && s.phase.Draining?
    ensures s.phase.at <= |s.fs.feed|
  {
  }

  lemma SoundFs(s: State)
    requires Inv(s)
    ensures Sound(s.fs) && [] in s.fs.dirs
  {
  }

  lemma IdleSink(s: State, p: Path)
    requires Inv(s) && Idle(s) && Covered(s, p)
    ensures Find(s.sink, p) == Find(s.fs.files, p)
  {
    NothingSaid(p);
    assert s.fs.feed[|s.fs.feed|..] == [];
  }

  lemma WholeSink(s: State)
    requires Inv(s) && Idle(s) && s.coverage == Whole
    ensures s.sink == s.fs.files
  {
    hide Inv;
    forall p ensures Find(s.sink, p) == Find(s.fs.files, p) {
      IdleSink(s, p);
    }
    SameMap(s.sink, s.fs.files);
  }

  // ----- the walk ends

  /** The directories of a listing, or its files. */
  function PathsOf(entries: seq<Entry>, dirs: bool): seq<Path> {
    if entries == [] then []
    else
      var last := entries[|entries|-1];
      PathsOf(entries[..|entries|-1], dirs) + if last.SubDir? == dirs then [last.path] else []
  }

  lemma PathsStep(entries: seq<Entry>, entry: Entry)
    ensures var all := entries + [entry];
      && PathsOf(all, true) == PathsOf(entries, true) + (if entry.SubDir? then [entry.path] else [])
      && PathsOf(all, false) == PathsOf(entries, false) + (if entry.SubDir? then [] else [entry.path])
  {
    assert (entries + [entry])[..|entries|] == entries;
  }

  /** What the handler buffers for files met in this order. */
  ghost function HandedOn(fs: Fs, met: seq<Path>): seq<Row> {
    if met == [] then [] else HandedOn(fs, met[..|met|-1]) + Handled(fs, Upsert(met[|met|-1]))
  }

  lemma HandedStep(fs: Fs, met: seq<Path>, p: Path)
    ensures HandedOn(fs, met + [p]) == HandedOn(fs, met) + Handled(fs, Upsert(p))
  {
    assert (met + [p])[..|met|] == met;
  }

  lemma {:induction false} HandedAppend(fs: Fs, a: seq<Path>, b: seq<Path>)
    ensures HandedOn(fs, a + b) == HandedOn(fs, a) + HandedOn(fs, b)
    decreases |b|
  {
    hide Handled;
    if b == [] {
      assert a + b == a;
    } else {
      var front, last := b[..|b|-1], b[|b|-1];
      assert front + [last] == b && a + b == (a + front) + [last];
      HandedAppend(fs, a, front);
      HandedStep(fs, a + front, last);
      HandedStep(fs, front, last);
    }
  }

  /** Exactly these, none twice. */
  ghost predicate EachOnce(s: seq<Path>, all: set<Path>) {
    && (forall p :: p in s <==> p in all)
    && (forall i, j | 0 <= i < j < |s| :: s[i] != s[j])
  }

  lemma OnceAppend(a: seq<Path>, b: seq<Path>, some: set<Path>, more: set<Path>)
    requires EachOnce(a, some) && EachOnce(b, more) && some !! more
    ensures EachOnce(a + b, some + more)
  {
    var s := a + b;
    forall i, j | 0 <= i < j < |s| ensures s[i] != s[j] {
      if i < |a| <= j {
        assert s[i] in a && s[j] == b[j - |a|] && s[j] in b;
      }
    }
  }

  ghost function FilesIn(fs: Fs, dirs: set<Path>): set<Path> {
    set p | p in fs.files && p != [] && Parent(p) in dirs
  }

  lemma NoneYet(fs: Fs)
    ensures EachOnce([], fs.dirs - fs.dirs) && EachOnce([], FilesIn(fs, fs.dirs - fs.dirs))
    ensures HandedOn(fs, []) == []
  {
  }

  lemma OneMoreListed(fs: Fs, listed: seq<Path>, met: seq<Path>, d: Path, entries: seq<Entry>, left: set<Path>)
    requires d in left && left <= fs.dirs && Lists(fs, d, entries)
    requires forall i, j | 0 <= i < j < |entries| :: entries[i] != entries[j]
    requires EachOnce(listed, fs.dirs - left) && EachOnce(met, FilesIn(fs, fs.dirs - left))
    ensures EachOnce(listed + [d], fs.dirs - (left - {d}))
    ensures EachOnce(met + PathsOf(entries, false), FilesIn(fs, fs.dirs - (left - {d})))
  {
    hide PathsOf, Lists, FilesIn, EachOnce;
    OneOnce(d);
    OnceAppend(listed, [d], fs.dirs - left, {d});
    assert fs.dirs - left + {d} == fs.dirs - (left - {d});
    FilesOnce(fs, d, entries);
    FilesSplit(fs, fs.dirs - left, d);
    OnceAppend(met, PathsOf(entries, false), FilesIn(fs, fs.dirs - left), FilesIn(fs, {d}));
  }

  lemma OneOnce(d: Path)
    ensures EachOnce([d], {d})
  {
  }

  /** A listing names each file of its directory once. */
  lemma FilesOnce(fs: Fs, d: Path, entries: seq<Entry>)
    requires Lists(fs, d, entries)
    requires forall i, j | 0 <= i < j < |entries| :: entries[i] != entries[j]
    ensures EachOnce(PathsOf(entries, false), FilesIn(fs, {d}))
  {
    hide PathsOf;
    forall p ensures p in PathsOf(entries, false) <==> p in FilesIn(fs, {d}) {
      InPaths(entries, false, p);
    }
    PathsDistinct(entries, false);
  }

  lemma FilesSplit(fs: Fs, some: set<Path>, d: Path)
    requires d !in some
    ensures FilesIn(fs, some + {d}) == FilesIn(fs, some) + FilesIn(fs, {d}) && FilesIn(fs, some) !! FilesIn(fs, {d})
  {
  }

  /** With nothing stacked nothing is left. */
  lemma AllListed(fs: Fs, left: set<Path>)
    requires Sound(fs) && Reached([], left) && left <= fs.dirs
    ensures fs.dirs - left == fs.dirs && FilesIn(fs, fs.dirs - left) == fs.files.Keys
  {
    forall d | d in fs.dirs ensures d !in left {
      NotLeft(fs, left, d);
    }
  }

  lemma {:induction false} NotLeft(fs: Fs, left: set<Path>, d: Path)
    requires Sound(fs) && Reached([], left) && d in fs.dirs
    ensures d !in left
    decreases |d|
  {
    if d == [] {
    } else {
      NotLeft(fs, left, Parent(d));
    }
    assert !Loose(left, d);
  }

  /** The directories on the stack are distinct and not yet listed, those above them are,
      and nothing below an unlisted directory is. */
  ghost predicate Unlisted(fs: Fs, stack: seq<Path>, left: set<Path>) {
    && (forall d | d in stack :: d in left)
    && (forall i, j | 0 <= i < j < |stack| :: stack[i] != stack[j])
    && (forall d | d in stack && d != [] :: Parent(d) !in left)
    && (forall d | d in fs.dirs && d != [] && Parent(d) in left :: d in left)
  }

  ghost predicate Loose(left: set<Path>, d: Path) {
    d in left && (d == [] || Parent(d) !in left)
  }

  /** What is left without the directory above it is stacked. */
  ghost predicate Reached(stack: seq<Path>, left: set<Path>) {
    forall d | Loose(left, d) :: d in stack
  }

  lemma RootUnlisted(fs: Fs)
    requires Sound(fs)
    ensures Unlisted(fs, [[]], fs.dirs) && Reached([[]], fs.dirs)
  {
  }

  lemma TopUnlisted(fs: Fs, rest: seq<Path>, d: Path, left: set<Path>)
    requires Unlisted(fs, rest + [d], left)
    ensures d in left
  {
    assert (rest + [d])[|rest|] == d;
  }

  lemma FewerLeft(left: set<Path>, d: Path)
    requires d in left
    ensures |left - {d}| < |left|
  {
  }

  lemma NoPaths(fs: Fs)
    ensures PathsOf([], true) == PathsOf([], false) == [] && HandedOn(fs, []) == []
  {
  }

  lemma {:induction false} InPaths(entries: seq<Entry>, dirs: bool, d: Path)
    ensures d in PathsOf(entries, dirs) <==> (if dirs then SubDir(d) else FileEntry(d)) in entries
    decreases |entries|
  {
    if entries == [] {
    } else {
      assert entries == entries[..|entries|-1] + [entries[|entries|-1]];
      InPaths(entries[..|entries|-1], dirs, d);
    }
  }

  lemma {:induction false} PathsDistinct(entries: seq<Entry>, dirs: bool)
    requires forall i, j | 0 <= i < j < |entries| :: entries[i] != entries[j]
    ensures var paths := PathsOf(entries, dirs); forall i, j | 0 <= i < j < |paths| :: paths[i] != paths[j]
    decreases |entries|
  {
    if entries == [] {
    } else {
      var front, last := entries[..|entries|-1], entries[|entries|-1];
      PathsDistinct(front, dirs);
      assert last !in front;
      InPaths(front, dirs, last.path);
      var paths, earlier := PathsOf(entries, dirs), PathsOf(front, dirs);
      forall i, j | 0 <= i < j < |paths| ensures paths[i] != paths[j] {
        assert paths[i] == earlier[i];
        assert earlier[i] in earlier;
      }
    }
  }

  lemma OneMoreDir(fs: Fs, rest: seq<Path>, d: Path, entries: seq<Entry>, left: set<Path>)
    requires Unlisted(fs, rest + [d], left) && Reached(rest + [d], left) && Lists(fs, d, entries)
    requires d in left && left <= fs.dirs
    requires forall i, j | 0 <= i < j < |entries| :: entries[i] != entries[j]
    ensures var stack := rest + PathsOf(entries, true);
      Unlisted(fs, stack, left - {d}) && Reached(stack, left - {d})
    ensures |left - {d}| < |left|
  {
    hide Unlisted, Reached, Lists, PathsOf;
    KidsOf(fs, d, entries);
    PushedUnlisted(fs, rest, d, PathsOf(entries, true), left);
    PushedReached(fs, rest, d, PathsOf(entries, true), left);
    FewerLeft(left, d);
  }

  /** The directories a listing names are the children of `d`, each once. */
  ghost predicate Kids(fs: Fs, d: Path, kids: seq<Path>) {
    && (forall c :: c in kids <==> c in fs.dirs && c != [] && Parent(c) == d)
    && (forall i, j | 0 <= i < j < |kids| :: kids[i] != kids[j])
  }

  lemma KidsOf(fs: Fs, d: Path, entries: seq<Entry>)
    requires Lists(fs, d, entries)
    requires forall i, j | 0 <= i < j < |entries| :: entries[i] != entries[j]
    ensures Kids(fs, d, PathsOf(entries, true))
  {
    hide PathsOf;
    forall c ensures c in PathsOf(entries, true) <==> c in fs.dirs && c != [] && Parent(c) == d {
      InPaths(entries, true, c);
    }
    PathsDistinct(entries, true);
  }

  /** What stays stacked: still unlisted, not `d`, and not right below it. */
  lemma RestUnlisted(fs: Fs, rest: seq<Path>, d: Path, left: set<Path>, r: Path)
    requires Unlisted(fs, rest + [d], left) && r in rest
    ensures r in left && r != d && d in left && (r != [] ==> Parent(r) !in left)
  {
    var before := rest + [d];
    var i: nat :| i < |rest| && rest[i] == r;
    assert before[|rest|] == d && d in before;
    assert before[i] == r && r in before;
  }

  lemma PushedDistinct(fs: Fs, rest: seq<Path>, d: Path, kids: seq<Path>, left: set<Path>)
    requires Unlisted(fs, rest + [d], left) && Kids(fs, d, kids)
    ensures forall i, j | 0 <= i < j < |rest + kids| :: (rest + kids)[i] != (rest + kids)[j]
  {
    hide Unlisted;
    var after := rest + kids;
    RestDistinct(fs, rest, d, left);
    forall i, j | 0 <= i < j < |after| ensures after[i] != after[j] {
      if i < |rest| <= j {
        RestUnlisted(fs, rest, d, left, after[i]);
        assert kids[j - |rest|] in kids;
      }
    }
  }

  lemma RestDistinct(fs: Fs, rest: seq<Path>, d: Path, left: set<Path>)
    requires Unlisted(fs, rest + [d], left)
    ensures forall i, j | 0 <= i < j < |rest| :: rest[i] != rest[j]
  {
    forall i, j | 0 <= i < j < |rest| ensures rest[i] != rest[j] {
      assert (rest + [d])[i] == rest[i] && (rest + [d])[j] == rest[j];
    }
  }

  lemma PushedUnlisted(fs: Fs, rest: seq<Path>, d: Path, kids: seq<Path>, left: set<Path>)
    requires Unlisted(fs, rest + [d], left) && Kids(fs, d, kids)
    ensures Unlisted(fs, rest + kids, left - {d})
  {
    PushedDistinct(fs, rest, d, kids, left);
    TopUnlisted(fs, rest, d, left);
    forall c | c in rest + kids ensures c in left - {d} && (c != [] ==> Parent(c) !in left - {d}) {
      if c in rest {
        RestUnlisted(fs, rest, d, left, c);
      }
    }
  }

  lemma PushedReached(fs: Fs, rest: seq<Path>, d: Path, kids: seq<Path>, left: set<Path>)
    requires Reached(rest + [d], left) && Kids(fs, d, kids) && left <= fs.dirs
    ensures Reached(rest + kids, left - {d})
  {
    forall c | Loose(left - {d}, c) ensures c in rest + kids {
      assert Loose(left, c) || (c != [] && Parent(c) == d);
    }
  }

  // ----- the snapshot's steps

  lemma SnapshotBegins(s: State, head: nat)
    requires s.phase == Heading(head) && head == |s.fs.feed|
    ensures Next(Snapshot, s, s.(sink := map[], buffer := [], phase := Walking(head, [[]], [])), HeadFound)
  {
  }

  lemma WalkEnds(s: State, head: nat)
    requires s.phase == Walking(head, [], [])
    ensures Next(Snapshot, s, s.(phase := Landing(head)), WalkDone)
  {
  }

  lemma GivesUp(s: State)
    requires !s.phase.Down?
    ensures Next(Snapshot, s, s.(phase := Down(true)), Raise)
  {
  }

  lemma SnapshotSaves(s: State, head: nat)
    requires s.phase == Landing(head) && s.buffer == []
    ensures Next(Snapshot, s, s.(cursor := Some(head), coverage := Whole, phase := Draining(head)), SaveSnapshot)
  {
  }
}
