/** Concurrent attributed writes to one path. Calls read, derive authorship from what
    they read, and commit in one transaction; every interleaving of their steps is a
    run. */
module WriteLog {
  import opened Tilings
  import opened Authorship
  import opened Bytes
  import opened Lines
  import opened BlameMaps
  import opened DiffBlame
  import opened RevertBlame

  /** Content is addressed by its hash. The empty body has no address. */
  function HashOf(data: seq<byte>): Option<Hash> {
    if data == [] then None else Some(Hash(data))
  }

  function BodyAt(content: Option<Hash>): seq<byte> {
    match content
    case Some(address) => address.body
    case None => []
  }

  /** What decides text from binary, and what a line's content is once trimmed. */
  datatype Env = Env(isText: seq<byte> -> bool, norm: Line -> seq<byte>)

  datatype Kind =
    | Diffed                    // authorship derived by diffing, compare-and-set
    | Explicit(spans: seq<Run<Author>>)  // authorship given, unconditional
    | Streamed                  // one author for all of it, unconditional
    | Reverting(target: Author) // authorship of the kept lines, unconditional

  datatype Phase =
    | Stored                                        // body stored, nothing read yet
    | Found(exists_: bool)                          // the name looked up
    | Pinned(exists_: bool, pre: Option<Hash>)   // the inode's content read
    | Derived(exists_: bool, pre: Option<Hash>, data: seq<byte>, map_: BlameMap)
    | Committed
    | Conflict
    | Refused
    | Skipped                                       // a revert that had nothing to drop

  datatype Call = Call(kind: Kind, who: Author, data: seq<byte>, tries: nat, phase: Phase)

  /** One op-log row: the call that wrote it, the content before and after. */
  datatype Op = Op(call: nat, pre: Option<Hash>, post: Option<Hash>)

  /** The path's file (if it exists, its content), the blame of every content version,
      the log, and the calls in progress. */
  datatype State = State(
    file: Option<Option<Hash>>,
    blame: map<Hash, BlameMap>,
    log: seq<Op>,
    calls: seq<Call>)

  /** How often a create that lost its race is started over. */
  const CREATE_RETRIES := 16

  function Content(s: State): Option<Hash> {
    if s.file.Some? then s.file.value else None
  }

  function RecordedBlame(s: State, content: Option<Hash>): BlameMap {
    if content.Some? && content.value in s.blame then s.blame[content.value] else []
  }

  // ----- derivation

  ghost predicate DiffDerives(env: Env, before: seq<byte>, oldMap: BlameMap, data: seq<byte>, who: Author,
                              map_: BlameMap, script: seq<LineChange>) {
    && PassesOldLines(script, 0, SplitLines(before))
    && NewText(script) == data
    && Expand(map_) == DiffAuthors(script, env.norm, SplitLines(before), Expand(oldMap), who, |script|)
  }

  /** `map_` is authorship a write may derive: by some valid line diff for text, one
      author for all of it otherwise. */
  ghost predicate Derives(env: Env, before: seq<byte>, oldMap: BlameMap, data: seq<byte>, who: Author, map_: BlameMap) {
    if env.isText(before) && env.isText(data)
    then exists script :: DiffDerives(env, before, oldMap, data, who, map_, script)
    else map_ == Coalesce([Run(who, |data|)])
  }

  /** What a revert derives from a content version and its recorded blame. */
  ghost predicate RevertDerives(env: Env, before: seq<byte>, oldMap: BlameMap, target: Author, data: seq<byte>,
                                map_: BlameMap) {
    && Joined(SplitLines(before)) == before
    && |Expand(oldMap)| == |before|
    && data == Joined(KeptLines(SplitLines(before), Expand(oldMap), target))
    && Expand(map_) == KeptAuthors(SplitLines(before), Expand(oldMap), target)
  }

  /** A revert drops something: there is content, it is text, blame is on record for it and
      covers it, and some line is the target's alone. */
  ghost predicate Revertable(env: Env, s: State, exists_: bool, pre: Option<Hash>, target: Author) {
    && exists_ && pre.Some? && pre.value in s.blame
    && env.isText(pre.value.body)
    && Joined(SplitLines(pre.value.body)) == pre.value.body
    && |Expand(s.blame[pre.value])| == |pre.value.body|
    && AnySolely(SplitLines(pre.value.body), Expand(s.blame[pre.value]), target)
  }

  /** The blame a call derives from: what is on record for the content it pinned. */
  function OldMap(s: State, exists_: bool, pre: Option<Hash>): BlameMap {
    if exists_ then RecordedBlame(s, pre) else []
  }

  // ----- steps

  datatype Step = Begin(kind: Kind, who: Author, data: seq<byte>) | Move(call: nat)

  ghost predicate Next(env: Env, s: State, s': State, step: Step) {
    match step
    case Begin(kind, who, data) =>
      s' == s.(calls := s.calls + [Call(kind, who, data, 0, Entry(kind, data))])
    case Move(i) => i < |s.calls| && Moves(env, s, s', i)
  }

  /** Spans that do not cover the data are refused before anything is read. */
  ghost function Entry(kind: Kind, data: seq<byte>): Phase {
    if kind.Explicit? && Total(kind.spans) != |data| then Refused else Stored
  }

  ghost predicate Moves(env: Env, s: State, s': State, i: nat)
    requires i < |s.calls|
  {
    var call := s.calls[i];
    match call.phase
    case Stored => s' == At(s, i, Found(s.file.Some?))
    case Found(exists_) => s' == At(s, i, Pinned(exists_, if exists_ then Content(s) else None))
    case Pinned(exists_, pre) =>
      if call.kind.Reverting? && !Revertable(env, s, exists_, pre, call.kind.target) then
        s' == At(s, i, Skipped)
      else
        exists data, map_ ::
          && DerivesFor(env, call, BodyAt(pre), OldMap(s, exists_, pre), data, map_)
          && s' == At(s, i, Derived(exists_, pre, data, map_))
    case Derived(exists_, pre, data, map_) =>
      if !exists_ && s.file.Some? then
        // the create lost its race: roll back and start over, a bounded number of times
        s' == s.(calls := s.calls[i := call.(tries := call.tries + 1,
                                             phase := if call.tries + 1 < CREATE_RETRIES then Stored else Conflict)])
      else if call.kind.Diffed? && Content(s) != pre then
        // compare-and-set failed: the whole transaction rolls back
        s' == At(s, i, Conflict)
      else
        s' == Commit(s, i, pre, data, map_)
    case _ => s' == s
  }

  ghost predicate DerivesFor(env: Env, call: Call, before: seq<byte>, oldMap: BlameMap, data: seq<byte>,
                             map_: BlameMap) {
    match call.kind
    case Diffed => data == call.data && Derives(env, before, oldMap, data, call.who, map_)
    case Explicit(spans) => data == call.data && map_ == Coalesce(spans) && Total(spans) == |data|
    case Streamed => data == call.data && map_ == Coalesce([Run(call.who, |data|)])
    case Reverting(target) => RevertDerives(env, before, oldMap, target, data, map_)
  }

  function At(s: State, i: nat, phase: Phase): State
    requires i < |s.calls|
  {
    s.(calls := s.calls[i := s.calls[i].(phase := phase)])
  }

  /** The pre-hash a row records: what its call read, nothing for a revert. */
  function RecordedPre(call: Call, pre: Option<Hash>): Option<Hash> {
    if call.kind.Reverting? then None else pre
  }

  /** Blame, content and the row land together. */
  function Commit(s: State, i: nat, pre: Option<Hash>, data: seq<byte>, map_: BlameMap): State
    requires i < |s.calls|
  {
    var post := HashOf(data);
    State(Some(post),
          if post.Some? then s.blame[post.value := map_] else s.blame,
          s.log + [Op(i, RecordedPre(s.calls[i], pre), post)],
          s.calls[i := s.calls[i].(phase := Committed)])
  }

  ghost predicate IsRun(env: Env, run: seq<State>, steps: seq<Step>) {
    && |run| == |steps| + 1
    && run[0].log == [] && run[0].calls == []
    && forall n | 0 <= n < |steps| :: Next(env, run[n], run[n+1], steps[n])
  }

  // ----- the log is a hash chain

  /** Each row starts where the one before ended; the first at `origin`. */
  ghost predicate Chain(log: seq<Op>, origin: Option<Hash>) {
    forall n | 0 <= n < |log| :: log[n].pre == LastPost(log[..n], origin)
  }

  function LastPost(log: seq<Op>, origin: Option<Hash>): Option<Hash> {
    if log == [] then origin else log[|log|-1].post
  }

  ghost predicate AllDiffed(s: State) {
    forall i | 0 <= i < |s.calls| :: s.calls[i].kind.Diffed?
  }

  /** A call that has not seen the file read nothing; every finished call has exactly
      one row, every other call none. */
  ghost predicate RowsMatchCalls(s: State) {
    && (forall n | 0 <= n < |s.log| :: s.log[n].call < |s.calls| && s.calls[s.log[n].call].phase.Committed?)
    && (forall n, m | 0 <= n < m < |s.log| :: s.log[n].call != s.log[m].call)
    && (forall i | 0 <= i < |s.calls| && s.calls[i].phase.Committed? :: RowOf(s, i))
  }

  ghost predicate RowOf(s: State, i: nat) {
    exists n :: 0 <= n < |s.log| && s.log[n].call == i
  }

  ghost predicate Chained(s: State, origin: Option<Hash>) {
    && Chain(s.log, origin)
    && Content(s) == LastPost(s.log, origin)
  }

  lemma ChainGrows(log: seq<Op>, op: Op, origin: Option<Hash>)
    requires Chain(log, origin) && op.pre == LastPost(log, origin)
    ensures Chain(log + [op], origin) && LastPost(log + [op], origin) == op.post
  {
    forall n | 0 <= n < |log + [op]|
      ensures (log + [op])[n].pre == LastPost((log + [op])[..n], origin)
    {
      if n < |log| {
        assert (log + [op])[..n] == log[..n];
        assert log[n].pre == LastPost(log[..n], origin);
      } else {
        assert (log + [op])[..n] == log;
      }
    }
  }

  /** What a step does to the file and its log: nothing, or one commit. */
  ghost predicate Commits(s: State, s': State, i: nat) {
    && i < |s.calls| && s.calls[i].phase.Derived?
    && (s.calls[i].kind.Diffed? ==> Content(s) == s.calls[i].phase.pre)
    && s' == Commit(s, i, s.calls[i].phase.pre, s.calls[i].phase.data, s.calls[i].phase.map_)
  }

  ghost predicate LeavesFile(s: State, s': State) {
    && s'.file == s.file && s'.blame == s.blame && s'.log == s.log
    && |s.calls| <= |s'.calls|
    && forall i | 0 <= i < |s'.calls| :: s'.calls[i].phase.Committed? <==> i < |s.calls| && s.calls[i].phase.Committed?
  }

  lemma StepCommitsOrLeaves(env: Env, s: State, s': State, step: Step)
    requires Next(env, s, s', step)
    ensures LeavesFile(s, s') || (step.Move? && Commits(s, s', step.call))
  {
    hide DerivesFor, Total;
  }

  lemma StepKeepsChain(env: Env, s: State, s': State, step: Step, origin: Option<Hash>)
    requires Next(env, s, s', step)
    requires AllDiffed(s) && Chained(s, origin)
    ensures Chained(s', origin)
  {
    hide Next, Chain;
    StepCommitsOrLeaves(env, s, s', step);
    if !LeavesFile(s, s') {
      ChainGrows(s.log, s'.log[|s.log|], origin);
    }
  }

  lemma StepKeepsRows(env: Env, s: State, s': State, step: Step)
    requires Next(env, s, s', step) && RowsMatchCalls(s)
    ensures RowsMatchCalls(s')
  {
    hide Next;
    StepCommitsOrLeaves(env, s, s', step);
    forall i: nat | i < |s'.calls| && s'.calls[i].phase.Committed?
      ensures RowOf(s', i)
    {
      if i < |s.calls| && s.calls[i].phase.Committed? {
        assert RowOf(s, i);
        var n :| 0 <= n < |s.log| && s.log[n].call == i;
        assert s'.log[n].call == i;
      } else {
        assert s'.log[|s'.log|-1].call == i;
      }
    }
  }

  lemma RunLength(env: Env, run: seq<State>, steps: seq<Step>)
    requires IsRun(env, run, steps)
    ensures |run| == |steps| + 1
  {
  }

  lemma StepOfRun(env: Env, run: seq<State>, steps: seq<Step>, n: nat)
    requires IsRun(env, run, steps) && n < |run| - 1
    ensures |run| == |steps| + 1 && Next(env, run[n], run[n+1], steps[n])
  {
  }

  /** Over every interleaving of diffed writes: the log is a hash chain from the content
      the path started with, it ends at the content the path has now, each successful
      call wrote exactly one row, and no other call wrote any. */
  lemma {:induction false} LogIsHashChain(env: Env, run: seq<State>, steps: seq<Step>, n: nat)
    requires IsRun(env, run, steps) && n < |run|
    requires AllDiffed(run[n])
    ensures Chained(run[n], Content(run[0]))
    ensures RowsMatchCalls(run[n])
    decreases n
  {
    hide IsRun, Next, AllDiffed, Chained, RowsMatchCalls;
    if n == 0 {
      EmptyLog(env, run, steps);
    } else {
      StepOfRun(env, run, steps, n - 1);
      EarlierCallsToo(env, run[n-1], run[n], steps[n-1]);
      LogIsHashChain(env, run, steps, n - 1);
      StepKeepsChain(env, run[n-1], run[n], steps[n-1], Content(run[0]));
      StepKeepsRows(env, run[n-1], run[n], steps[n-1]);
    }
  }

  lemma EmptyLog(env: Env, run: seq<State>, steps: seq<Step>)
    requires IsRun(env, run, steps)
    ensures run != [] && Chained(run[0], Content(run[0])) && RowsMatchCalls(run[0])
  {
    hide Next;
  }

  lemma EarlierCallsToo(env: Env, s: State, s': State, step: Step)
    requires Next(env, s, s', step) && AllDiffed(s')
    ensures AllDiffed(s)
  {
    forall i | 0 <= i < |s.calls|
      ensures s.calls[i].kind.Diffed?
    {
      assert s'.calls[i].kind == s.calls[i].kind;
    }
  }

  // ----- calls that do not commit

  lemma {:induction false} RowsAlwaysMatch(env: Env, run: seq<State>, steps: seq<Step>, n: nat)
    requires IsRun(env, run, steps) && n < |run|
    ensures RowsMatchCalls(run[n])
    decreases n
  {
    hide Next, Chained;
    if n == 0 {
      EmptyLog(env, run, steps);
    } else {
      hide RowsMatchCalls;
      RowsAlwaysMatch(env, run, steps, n - 1);
      StepOfRun(env, run, steps, n - 1);
      StepKeepsRows(env, run[n-1], run[n], steps[n-1]);
    }
  }

  ghost predicate CommittedIn(s: State, i: nat) {
    i < |s.calls| && s.calls[i].phase.Committed?
  }

  lemma {:induction false} CommittedStays(env: Env, run: seq<State>, steps: seq<Step>, k: nat, n: nat, i: nat)
    requires IsRun(env, run, steps) && k <= n < |run| && CommittedIn(run[k], i)
    ensures CommittedIn(run[n], i)
    decreases n
  {
    hide IsRun, Next;
    if k < n {
      CommittedStays(env, run, steps, k, n - 1, i);
      StepOfRun(env, run, steps, n - 1);
      StepCommitsOrLeaves(env, run[n-1], run[n], steps[n-1]);
    }
  }

  /** Over any run of calls of every kind: a call that is not committed, one that met a
      conflict among them, changed neither content, blame nor log in any of its steps,
      and no row is its own. */
  lemma ConflictLeavesNoTrace(env: Env, run: seq<State>, steps: seq<Step>, n: nat, i: nat)
    requires IsRun(env, run, steps) && n < |run|
    requires i < |run[n].calls| && !run[n].calls[i].phase.Committed?
    ensures forall k: nat | k < n && steps[k] == Move(i) :: LeavesFile(run[k], run[k+1])
    ensures forall row | row in run[n].log :: row.call != i
  {
    hide Next, LeavesFile;
    RowsAlwaysMatch(env, run, steps, n);
    forall k: nat | k < n && steps[k] == Move(i) ensures LeavesFile(run[k], run[k+1]) {
      StepOfRun(env, run, steps, k);
      StepCommitsOrLeaves(env, run[k], run[k+1], steps[k]);
      if CommittedIn(run[k+1], i) {
        CommittedStays(env, run, steps, k + 1, n, i);
      }
    }
  }

  /** How often a call may have lost the race to create the file. */
  ghost predicate TriesBounded(s: State) {
    forall i | 0 <= i < |s.calls| :: TriesFit(s.calls[i])
  }

  ghost predicate TriesFit(call: Call) {
    if call.phase.Conflict? then call.tries <= 16 && (call.kind.Diffed? || call.tries == 16) else call.tries < 16
  }

  lemma StepKeepsTries(env: Env, s: State, s': State, step: Step)
    requires Next(env, s, s', step) && TriesBounded(s)
    ensures TriesBounded(s')
  {
    hide DerivesFor, Revertable, Total;
    forall i | 0 <= i < |s'.calls| ensures TriesFit(s'.calls[i]) {
      assert i < |s.calls| ==> TriesFit(s.calls[i]);
    }
  }

  /** A call that replaces content without comparing it is given up only after losing the
      race to create the file sixteen times, and no call is started over more often. */
  lemma {:induction false} GivesUpAfterSixteen(env: Env, run: seq<State>, steps: seq<Step>, n: nat)
    requires IsRun(env, run, steps) && n < |run|
    ensures TriesBounded(run[n])
    decreases n
  {
    if n == 0 {
    } else {
      hide Next, TriesBounded;
      GivesUpAfterSixteen(env, run, steps, n - 1);
      StepOfRun(env, run, steps, n - 1);
      StepKeepsTries(env, run[n-1], run[n], steps[n-1]);
    }
  }

  // ----- what a row tells of the content it replaced

  /** Step `m` reads the content call `i` will derive from. */
  ghost predicate Pins(run: seq<State>, steps: seq<Step>, m: nat, i: nat) {
    m < |steps| && m + 1 < |run| && steps[m] == Move(i) && i < |run[m].calls| && run[m].calls[i].phase.Found?
  }

  ghost predicate HoldsPin(s: State, i: nat) {
    i < |s.calls| && (s.calls[i].phase.Pinned? || s.calls[i].phase.Derived?)
  }

  /** Call `i` pinned at `m` and has held that pin up to `n`. */
  ghost predicate LastPin(run: seq<State>, steps: seq<Step>, m: nat, n: nat, i: nat) {
    && Pins(run, steps, m, i) && m < n < |run|
    && forall k | m < k <= n :: HoldsPin(run[k], i)
  }

  lemma StepKeepsPin(env: Env, s: State, s': State, step: Step, i: nat)
    requires Next(env, s, s', step) && HoldsPin(s, i) && HoldsPin(s', i)
    ensures s'.calls[i].phase.pre == s.calls[i].phase.pre && s'.calls[i].phase.exists_ == s.calls[i].phase.exists_
    ensures s'.calls[i].(phase := Stored) == s.calls[i].(phase := Stored)
    ensures s.calls[i].phase.Derived? ==> s'.calls[i] == s.calls[i]
  {
    hide DerivesFor, Revertable;
  }

  lemma PinReads(env: Env, s: State, s': State, i: nat)
    requires i < |s.calls| && s.calls[i].phase.Found? && Next(env, s, s', Move(i))
    ensures HoldsPin(s', i) && s'.calls[i].(phase := Stored) == s.calls[i].(phase := Stored)
    ensures var exists_ := s.calls[i].phase.exists_;
      s'.calls[i].phase == Pinned(exists_, if exists_ then Content(s) else None)
    ensures Content(s') == Content(s) && s'.file == s.file
  {
  }

  lemma PinBefore(env: Env, s: State, s': State, step: Step, i: nat)
    requires Next(env, s, s', step) && HoldsPin(s', i) && !HoldsPin(s, i)
    ensures step == Move(i) && i < |s.calls| && s.calls[i].phase.Found?
  {
    hide DerivesFor, Revertable, Total;
  }

  /** Whoever holds a pin took it at some step. */
  lemma {:induction false} HasPin(env: Env, run: seq<State>, steps: seq<Step>, n: nat, i: nat) returns (m: nat)
    requires IsRun(env, run, steps) && n < |run| && HoldsPin(run[n], i)
    ensures LastPin(run, steps, m, n, i)
    decreases n
  {
    hide Next, HoldsPin;
    NothingPinned(run[0], i);
    StepOfRun(env, run, steps, n - 1);
    if HoldsPin(run[n-1], i) {
      m := HasPin(env, run, steps, n - 1, i);
    } else {
      m := n - 1;
      PinBefore(env, run[n-1], run[n], steps[n-1], i);
    }
  }

  lemma NothingPinned(s: State, i: nat)
    ensures s.calls == [] ==> !HoldsPin(s, i)
  {
  }

  /** The pin held is what was read when it was taken. */
  lemma {:induction false} PinKept(env: Env, run: seq<State>, steps: seq<Step>, m: nat, n: nat, i: nat)
    requires IsRun(env, run, steps) && LastPin(run, steps, m, n, i)
    ensures i < |run[m].calls| && HoldsPin(run[n], i) && run[m].calls[i].phase.Found?
    ensures run[n].calls[i].(phase := Stored) == run[m].calls[i].(phase := Stored)
    ensures var exists_ := run[m].calls[i].phase.exists_;
      run[n].calls[i].phase.exists_ == exists_ && run[n].calls[i].phase.pre == if exists_ then Content(run[m]) else None
    ensures run[m+1].file == run[m].file
    decreases n
  {
    hide Next, Content;
    StepOfRun(env, run, steps, m);
    PinReads(env, run[m], run[m+1], i);
    if m + 1 < n {
      assert LastPin(run, steps, m, n - 1, i);
      PinKept(env, run, steps, m, n - 1, i);
      StepOfRun(env, run, steps, n - 1);
      StepKeepsPin(env, run[n-1], run[n], steps[n-1], i);
    }
  }

  lemma {:induction false} FileStays(env: Env, run: seq<State>, steps: seq<Step>, m: nat, n: nat)
    requires IsRun(env, run, steps) && m <= n < |run| && run[m].file.Some?
    ensures run[n].file.Some?
    decreases n
  {
    hide IsRun, Next;
    if m < n {
      FileStays(env, run, steps, m, n - 1);
      StepOfRun(env, run, steps, n - 1);
      StepCommitsOrLeaves(env, run[n-1], run[n], steps[n-1]);
    }
  }

  ghost predicate CommitsAt(run: seq<State>, k: nat) {
    k + 1 < |run| && run[k+1].log != run[k].log
  }

  /** Content changes by commits only. */
  lemma {:induction false} ContentStays(env: Env, run: seq<State>, steps: seq<Step>, m: nat, n: nat)
    requires IsRun(env, run, steps) && m <= n < |run|
    requires forall k: nat | m <= k < n :: !CommitsAt(run, k)
    ensures run[n].file == run[m].file
    decreases n
  {
    hide IsRun, Next;
    if m < n {
      ContentStays(env, run, steps, m, n - 1);
      StepOfRun(env, run, steps, n - 1);
      StepCommitsOrLeaves(env, run[n-1], run[n], steps[n-1]);
      assert !CommitsAt(run, n - 1);
    }
  }

  /** A commit that created the file met none, and there was none when it pinned. */
  lemma PinAtCommit(env: Env, run: seq<State>, steps: seq<Step>, m: nat, n: nat, i: nat)
    requires IsRun(env, run, steps) && n < |steps| && steps[n] == Move(i) && LastPin(run, steps, m, n, i)
    requires run[n].calls[i].phase.Derived? && CommittedIn(run[n+1], i)
    ensures run[n].calls[i].phase.pre == Content(run[m+1])
    ensures Commits(run[n], run[n+1], i)
  {
    hide IsRun, Next;
    RunLength(env, run, steps);
    StepOfRun(env, run, steps, n);
    StepCommitsOrLeaves(env, run[n], run[n+1], steps[n]);
    PinKept(env, run, steps, m, n, i);
    CreatesWhereNothingIs(env, run[n], run[n+1], i);
    if run[m].file.Some? {
      FileStays(env, run, steps, m, n);
    }
  }

  lemma CreatesWhereNothingIs(env: Env, s: State, s': State, i: nat)
    requires i < |s.calls| && s.calls[i].phase.Derived? && Next(env, s, s', Move(i)) && CommittedIn(s', i)
    ensures !s.calls[i].phase.exists_ ==> s.file.None?
  {
  }

  /** Every call that commits, at step `n`, pinned at some step `m` and writes one row. Of a
      diffed write it always tells the content replaced. Of an explicit or streamed write it
      does if and only if the content at the commit is again what it was when pinned, and so
      whenever nobody commits in between; of a revert if and only if there was none. */
  lemma RowTellsReplacedIff(env: Env, run: seq<State>, steps: seq<Step>, n: nat, i: nat) returns (m: nat)
    requires IsRun(env, run, steps) && n < |steps| && steps[n] == Move(i) && i < |run[n].calls|
    requires !run[n].calls[i].phase.Committed? && CommittedIn(run[n+1], i)
    ensures LastPin(run, steps, m, n, i)
    ensures |run[n+1].log| == |run[n].log| + 1
    ensures var row, kind := run[n+1].log[|run[n].log|], run[n].calls[i].kind;
      && row.call == i && row.post == Content(run[n+1])
      && (kind.Diffed? ==> row.pre == Content(run[n]))
      && (!kind.Reverting? ==> (row.pre == Content(run[n]) <==> Content(run[m+1]) == Content(run[n])))
      && (!kind.Reverting? && (forall k: nat | m < k < n :: !CommitsAt(run, k)) ==> row.pre == Content(run[n]))
      && (kind.Reverting? ==> (row.pre == Content(run[n]) <==> Content(run[n]) == None))
  {
    hide IsRun, Next, LastPin;
    RunLength(env, run, steps);
    StepOfRun(env, run, steps, n);
    StepCommitsOrLeaves(env, run[n], run[n+1], steps[n]);
    m := HasPin(env, run, steps, n, i);
    PinAtCommit(env, run, steps, m, n, i);
    if forall k: nat | m < k < n :: !CommitsAt(run, k) {
      PinPrecedes(run, steps, m, n, i);
      ContentStays(env, run, steps, m + 1, n);
    }
  }

  lemma PinPrecedes(run: seq<State>, steps: seq<Step>, m: nat, n: nat, i: nat)
    requires LastPin(run, steps, m, n, i)
    ensures m < n < |run|
  {
  }

  /** The row step `k` writes, if it writes one, tells the content it replaced. */
  ghost predicate RowRight(run: seq<State>, k: nat)
    requires k + 1 < |run|
  {
    CommitsAt(run, k) ==> |run[k].log| < |run[k+1].log| && run[k+1].log[|run[k].log|].pre == Content(run[k])
  }

  /** For calls of every kind: the log is a hash chain if and only if each row tells the
      content it replaced. */
  lemma {:induction false} LogChainsIff(env: Env, run: seq<State>, steps: seq<Step>, n: nat)
    requires IsRun(env, run, steps) && n < |run|
    ensures Content(run[n]) == LastPost(run[n].log, Content(run[0]))
    ensures Chain(run[n].log, Content(run[0])) <==> forall k: nat | k < n :: RowRight(run, k)
    decreases n
  {
    hide IsRun, Next, Chain, RowRight;
    if n == 0 {
      NoRows(env, run, steps);
    } else {
      var s, s', origin := run[n-1], run[n], Content(run[0]);
      LogChainsIff(env, run, steps, n - 1);
      StepOfRun(env, run, steps, n - 1);
      StepCommitsOrLeaves(env, s, s', steps[n-1]);
      RowRightStep(run, n - 1);
      if s'.log != s.log {
        ChainStep(s.log, s'.log[|s.log|], origin);
      }
    }
  }

  lemma NoRows(env: Env, run: seq<State>, steps: seq<Step>)
    requires IsRun(env, run, steps)
    ensures run != [] && Chain(run[0].log, Content(run[0])) && LastPost(run[0].log, Content(run[0])) == Content(run[0])
  {
    hide Next;
  }

  lemma RowRightStep(run: seq<State>, k: nat)
    requires k + 1 < |run|
    requires run[k+1].log == run[k].log || (exists op :: run[k+1].log == run[k].log + [op])
    ensures run[k+1].log == run[k].log ==> RowRight(run, k)
    ensures run[k+1].log != run[k].log ==>
      |run[k].log| < |run[k+1].log| && (RowRight(run, k) <==> run[k+1].log[|run[k].log|].pre == Content(run[k]))
  {
  }

  lemma ChainStep(log: seq<Op>, op: Op, origin: Option<Hash>)
    ensures Chain(log + [op], origin) <==> Chain(log, origin) && op.pre == LastPost(log, origin)
    ensures LastPost(log + [op], origin) == op.post
  {
    hide LastPost;
    var more := log + [op];
    LastPostStep(log, op, origin);
    assert more[..|log|] == log;
    if Chain(more, origin) {
      forall n | 0 <= n < |log| ensures log[n].pre == LastPost(log[..n], origin) {
        assert more[..n] == log[..n] && more[n] == log[n];
      }
      assert more[|log|].pre == LastPost(more[..|log|], origin);
    } else if Chain(log, origin) && op.pre == LastPost(log, origin) {
      ChainGrows(log, op, origin);
    }
  }

  lemma LastPostStep(log: seq<Op>, op: Op, origin: Option<Hash>)
    ensures LastPost(log + [op], origin) == op.post
  {
  }

  // ----- a row that is wrong

  lemma Extend(env: Env, run: seq<State>, steps: seq<Step>, s: State, step: Step)
    returns (run': seq<State>, steps': seq<Step>)
    requires IsRun(env, run, steps) && Next(env, run[|run|-1], s, step)
    ensures IsRun(env, run', steps') && run' == run + [s] && steps' == steps + [step]
  {
    hide Next;
    run', steps' := run + [s], steps + [step];
    forall n | 0 <= n < |steps'| ensures Next(env, run'[n], run'[n+1], steps'[n]) {
      if n < |steps| {
        assert Next(env, run[n], run[n+1], steps[n]);
      }
    }
  }

  const ANNA := Author(1, 0)
  const BEN := Author(2, 0)

  /** Two bodies that are not UTF-8. */
  const ONE: seq<byte> := [0xFF]
  const OTHER: seq<byte> := [0xFE]

  /** Two calls, streamed and diffed, that have both pinned the content of an empty file. */
  function BothPinned(): State {
    State(Some(None), map[], [],
          [Call(Streamed, ANNA, ONE, 0, Pinned(true, None)), Call(Diffed, BEN, OTHER, 0, Pinned(true, None))])
  }

  /** A call that has stored its body looks the file up and reads that it is empty. */
  lemma PinsEmpty(env: Env, run: seq<State>, steps: seq<Step>, s: State, i: nat)
    returns (run': seq<State>, steps': seq<Step>)
    requires IsRun(env, run, steps) && run[|run|-1] == s
    requires s.file == Some(None) && i < |s.calls| && s.calls[i].phase.Stored?
    ensures IsRun(env, run', steps') && |run'| == |run| + 2 && |steps'| == |steps| + 2
    ensures run'[0] == run[0] && run'[|run'|-1] == At(s, i, Pinned(true, None))
  {
    assert run != [];
    hide IsRun, DerivesFor, Revertable;
    run', steps' := Extend(env, run, steps, At(s, i, Found(true)), Move(i));
    run', steps' := Extend(env, run', steps', At(s, i, Pinned(true, None)), Move(i));
  }

  lemma BothPin(env: Env) returns (run: seq<State>, steps: seq<Step>)
    ensures IsRun(env, run, steps) && |run| == 7 && |steps| == 6 && run[6] == BothPinned() && Content(run[0]) == None
  {
    hide IsRun, Total, Moves;
    var a, b := Call(Streamed, ANNA, ONE, 0, Stored), Call(Diffed, BEN, OTHER, 0, Stored);
    var s0 := State(Some(None), map[], [], []);
    var s2 := s0.(calls := [a, b]);
    StartsRun(env, s0);
    run, steps := [s0], [];
    assert [] + [a] == [a] && [a] + [b] == [a, b];
    run, steps := Extend(env, run, steps, s0.(calls := [a]), Begin(Streamed, ANNA, ONE));
    run, steps := Extend(env, run, steps, s2, Begin(Diffed, BEN, OTHER));
    run, steps := PinsEmpty(env, run, steps, s2, 0);
    run, steps := PinsEmpty(env, run, steps, At(s2, 0, Pinned(true, None)), 1);
  }

  /** A streamed and a diffed write of an empty file: both pin, the diffed one commits, and
      the row the streamed one then writes still names no content. */
  lemma StreamedRowCanBeWrong(env: Env) returns (run: seq<State>, steps: seq<Step>)
    requires !env.isText(OTHER)
    ensures IsRun(env, run, steps) && |run| == 11 && |steps| == 10 && steps[9] == Move(0)
    ensures |run[9].calls| == 2 && run[9].calls[0].kind.Streamed? && |run[10].log| == 2
    ensures run[10].log[1].call == 0 && run[10].log[1].pre == None
    ensures Content(run[9]) == Some(Hash(OTHER))
    ensures Content(run[0]) == None && !Chain(run[10].log, None)
  {
    hide IsRun, Total, Coalesce, RecordedBlame, Chain, Revertable, RevertDerives;
    run, steps := BothPin(env);
    var theirs, own := Coalesce([Run(BEN, 1)]), Coalesce([Run(ANNA, 1)]);
    var s6 := BothPinned();
    var s7 := At(s6, 1, Derived(true, None, OTHER, theirs));
    var s8 := Commit(s7, 1, None, OTHER, theirs);
    var s9 := At(s8, 0, Derived(true, None, ONE, own));
    var s10 := Commit(s9, 0, None, ONE, own);
    assert DerivesFor(env, s6.calls[1], [], OldMap(s6, true, None), OTHER, theirs);
    run, steps := Extend(env, run, steps, s7, Move(1));
    run, steps := Extend(env, run, steps, s8, Move(1));
    assert DerivesFor(env, s8.calls[0], [], OldMap(s8, true, None), ONE, own);
    run, steps := Extend(env, run, steps, s9, Move(0));
    run, steps := Extend(env, run, steps, s10, Move(0));
    ChainStep(s9.log, s10.log[1], None);
  }

  lemma StartsRun(env: Env, s: State)
    requires s.log == [] && s.calls == []
    ensures IsRun(env, [s], [])
  {
  }

  // ----- what a diffed write derives from

  lemma DerivesWhenPinned(env: Env, s: State, s': State, i: nat)
    requires HoldsPin(s, i) && s.calls[i].phase.Pinned? && Next(env, s, s', Move(i))
    requires HoldsPin(s', i) && s'.calls[i].phase.Derived?
    ensures var call, phase := s.calls[i], s'.calls[i].phase;
      && phase.pre == call.phase.pre && s'.calls[i].(phase := Stored) == call.(phase := Stored)
      && DerivesFor(env, call, BodyAt(phase.pre), OldMap(s, call.phase.exists_, phase.pre), phase.data, phase.map_)
  {
    hide DerivesFor, Revertable;
  }

  lemma PhaseDoesNotMatter(env: Env, call: Call, other: Call, before: seq<byte>, oldMap: BlameMap, data: seq<byte>,
                           map_: BlameMap)
    requires DerivesFor(env, call, before, oldMap, data, map_)
    requires other.kind == call.kind && other.who == call.who && other.data == call.data
    ensures DerivesFor(env, other, before, oldMap, data, map_)
  {
    hide Derives, RevertDerives, Total, Coalesce;
  }

  ghost predicate HoldsDerived(s: State, i: nat) {
    i < |s.calls| && s.calls[i].phase.Derived?
  }

  /** What a call has derived it derived at some step, from the content it pinned and the
      blame then on record for it, and has held since. */
  lemma {:induction false} DerivedAt(env: Env, run: seq<State>, steps: seq<Step>, n: nat, i: nat) returns (m: nat)
    requires IsRun(env, run, steps) && n < |run| && i < |run[n].calls| && run[n].calls[i].phase.Derived?
    ensures m < n && steps[m] == Move(i) && i < |run[m].calls| && run[m].calls[i].phase.Pinned?
    ensures var phase := run[n].calls[i].phase;
      && run[m].calls[i].phase == Pinned(phase.exists_, phase.pre)
      && DerivesFor(env, run[n].calls[i], BodyAt(phase.pre), OldMap(run[m], phase.exists_, phase.pre),
                    phase.data, phase.map_)
    ensures forall k | m < k <= n :: HoldsDerived(run[k], i)
    decreases n
  {
    hide Next, DerivesFor, OldMap;
    NothingPinned(run[0], i);
    StepOfRun(env, run, steps, n - 1);
    DerivedBefore(env, run[n-1], run[n], steps[n-1], i);
    if run[n-1].calls[i].phase.Derived? {
      StepKeepsPin(env, run[n-1], run[n], steps[n-1], i);
      m := DerivedAt(env, run, steps, n - 1, i);
    } else {
      m := n - 1;
      DerivesWhenPinned(env, run[m], run[n], i);
      StepKeepsPin(env, run[m], run[n], steps[m], i);
      var phase := run[n].calls[i].phase;
      PhaseDoesNotMatter(env, run[m].calls[i], run[n].calls[i], BodyAt(phase.pre),
                         OldMap(run[m], phase.exists_, phase.pre), phase.data, phase.map_);
    }
  }

  lemma DerivedBefore(env: Env, s: State, s': State, step: Step, i: nat)
    requires Next(env, s, s', step) && i < |s'.calls| && s'.calls[i].phase.Derived?
    ensures i < |s.calls| && (s.calls[i].phase.Derived? || (s.calls[i].phase.Pinned? && step == Move(i)))
  {
    hide DerivesFor, Revertable, Total;
  }

  /** A diffed write only ever lands on the very content its authorship was derived
      from, by a diff against the blame on record for that content when it was derived,
      in every interleaving. */
  lemma LandsOnWhatItDiffed(env: Env, run: seq<State>, steps: seq<Step>, n: nat, i: nat) returns (m: nat)
    requires IsRun(env, run, steps) && n < |steps| && steps[n] == Move(i)
    requires i < |run[n].calls| && run[n].calls[i].kind.Diffed?
    requires !run[n].calls[i].phase.Committed? && CommittedIn(run[n+1], i)
    ensures m < n && steps[m] == Move(i) && i < |run[m].calls| && run[m].calls[i].phase.Pinned?
    ensures run[m].calls[i].phase.pre == Content(run[n])
    ensures var s, s', call, exists_ := run[n], run[n+1], run[n].calls[i], run[m].calls[i].phase.exists_;
      && Content(s') == HashOf(call.data)
      && (call.data != [] ==>
            && Hash(call.data) in s'.blame
            && Derives(env, BodyAt(Content(s)), OldMap(run[m], exists_, Content(s)), call.data, call.who,
                       s'.blame[Hash(call.data)]))
  {
    hide Next, Derives, OldMap;
    StepOfRun(env, run, steps, n);
    StepCommitsOrLeaves(env, run[n], run[n+1], steps[n]);
    m := DerivedAt(env, run, steps, n, i);
  }

  // ----- what a commit leaves on record

  ghost predicate OneAuthor(authors: seq<Author>, who: Author, n: nat) {
    |authors| == n && forall k | 0 <= k < n :: authors[k] == who
  }

  /** Some line diff from `before` to `data` credits every line as it should. */
  ghost predicate CreditedByDiff(env: Env, before: seq<byte>, prior: seq<Author>, who: Author, data: seq<byte>,
                                 authors: seq<Author>) {
    exists script :: Credits(env, before, prior, who, data, authors, script)
  }

  ghost predicate Credits(env: Env, before: seq<byte>, prior: seq<Author>, who: Author, data: seq<byte>,
                          authors: seq<Author>, script: seq<LineChange>) {
    && PassesOldLines(script, 0, SplitLines(before)) && NewText(script) == data && |authors| == |data|
    && forall p | 0 <= p < |script| && !script[p].Delete? ::
         CreditsLine(script, env.norm, SplitLines(before), prior, who, p, authors)
  }

  /** The authors each kind of call asks for: those it gives; its caller throughout; those a
      line diff against what it read credits, or its caller for what is not text; those of
      the lines a revert keeps. */
  ghost predicate AsAsked(env: Env, call: Call, before: seq<byte>, prior: seq<Author>, data: seq<byte>,
                          authors: seq<Author>) {
    match call.kind
    case Explicit(spans) => data == call.data && authors == Expand(spans)
    case Streamed => data == call.data && OneAuthor(authors, call.who, |data|)
    case Diffed =>
      && data == call.data
      && if env.isText(before) && env.isText(data) then CreditedByDiff(env, before, prior, call.who, data, authors)
         else OneAuthor(authors, call.who, |data|)
    case Reverting(target) =>
      && Joined(SplitLines(before)) == before && |prior| == |before|
      && data == Joined(KeptLines(SplitLines(before), prior, target))
      && authors == KeptAuthors(SplitLines(before), prior, target)
  }

  lemma DerivedAsAsked(env: Env, call: Call, before: seq<byte>, oldMap: BlameMap, data: seq<byte>, map_: BlameMap)
    requires DerivesFor(env, call, before, oldMap, data, map_)
    ensures AsAsked(env, call, before, Expand(oldMap), data, Expand(map_))
  {
    hide Expand, Total, Coalesce, SplitLines, Joined, KeptLines, KeptAuthors, DiffAuthors, NewText, PassesOldLines;
    hide CreditsLine;
    match call.kind
    case Diffed =>
      if env.isText(before) && env.isText(data) {
        var script: seq<LineChange> :| DiffDerives(env, before, oldMap, data, call.who, map_, script);
        assert script[..|script|] == script;
        forall p | 0 <= p < |script| && !script[p].Delete?
          ensures CreditsLine(script, env.norm, SplitLines(before), Expand(oldMap), call.who, p, Expand(map_))
        {
          LineCredits(script, env.norm, SplitLines(before), Expand(oldMap), call.who, p);
        }
        assert Credits(env, before, Expand(oldMap), call.who, data, Expand(map_), script);
      } else {
        OneAuthorFits(call.who, data);
      }
    case Explicit(spans) => ExpandCoalesce(spans);
    case Streamed => OneAuthorFits(call.who, data);
    case Reverting(target) =>
  }

  /** Every call that commits, at step `n`, had pinned content at some step `m` and derived at
      a later one `d`, and leaves the body it was asked for with the authors it asked for:
      for a diffed write and a revert, from the content pinned and the blame on record for
      it at `d`. */
  lemma RecordedAsAsked(env: Env, run: seq<State>, steps: seq<Step>, n: nat, i: nat) returns (m: nat, d: nat)
    requires IsRun(env, run, steps) && n < |steps| && steps[n] == Move(i) && i < |run[n].calls|
    requires !run[n].calls[i].phase.Committed? && CommittedIn(run[n+1], i)
    ensures LastPin(run, steps, m, n, i) && m < d < n && steps[d] == Move(i)
    ensures var content, data := Content(run[n+1]), BodyAt(Content(run[n+1]));
      var pinned := Content(run[m+1]);
      var prior := Expand(if pinned.Some? && pinned.value in run[d].blame then run[d].blame[pinned.value] else []);
      && (data != [] ==> content.Some? && content.value in run[n+1].blame)
      && AsAsked(env, run[n].calls[i], BodyAt(pinned), prior, data,
                 if data == [] then [] else Expand(run[n+1].blame[content.value]))
  {
    RunLength(env, run, steps);
    StepOfRun(env, run, steps, n);
    StepCommitsOrLeaves(env, run[n], run[n+1], steps[n]);
    m := HasPin(env, run, steps, n, i);
    PinAtCommit(env, run, steps, m, n, i);
    PinKept(env, run, steps, m, n, i);
    d := DerivedAt(env, run, steps, n, i);
    DerivesLater(run, steps, m, n, d, i);
    hide IsRun, Next, AsAsked, DerivesFor, LastPin, Expand;
    var phase := run[n].calls[i].phase;
    PinnedMap(run[d], phase.exists_, phase.pre);
    DerivedAsAsked(env, run[n].calls[i], BodyAt(phase.pre), OldMap(run[d], phase.exists_, phase.pre),
                   phase.data, phase.map_);
    DerivedFits(env, run[n].calls[i], BodyAt(phase.pre), OldMap(run[d], phase.exists_, phase.pre),
                phase.data, phase.map_);
    NoAuthors(phase.map_);
  }

  lemma DerivesLater(run: seq<State>, steps: seq<Step>, m: nat, n: nat, d: nat, i: nat)
    requires LastPin(run, steps, m, n, i) && d < n && i < |run[d].calls| && run[d].calls[i].phase.Pinned?
    requires forall k | d < k <= n :: HoldsDerived(run[k], i)
    ensures m < d
  {
    var heldThen := HoldsDerived(run[m], i);
  }

  /** A call that saw no file read no content, and there is no blame for none. */
  lemma PinnedMap(s: State, exists_: bool, pre: Option<Hash>)
    requires !exists_ ==> pre == None
    ensures OldMap(s, exists_, pre) == if pre.Some? && pre.value in s.blame then s.blame[pre.value] else []
  {
  }

  lemma NoAuthors(map_: BlameMap)
    ensures Total(map_) == 0 ==> Expand(map_) == []
  {
    ExpandLength(map_);
  }

  // ----- blame fits its content, whoever wrote it and however

  ghost predicate BlameFits(s: State) {
    && (forall a | a in s.blame :: Total(s.blame[a]) == |a.body|)
    && (forall i | 0 <= i < |s.calls| && s.calls[i].phase.Derived? ::
          Total(s.calls[i].phase.map_) == |s.calls[i].phase.data|)
  }

  lemma DerivedFits(env: Env, call: Call, before: seq<byte>, oldMap: BlameMap, data: seq<byte>, map_: BlameMap)
    requires DerivesFor(env, call, before, oldMap, data, map_)
    ensures Total(map_) == |data|
  {
    hide Expand, Total, Coalesce, SplitLines, KeptLines, KeptAuthors, DiffAuthors, NewText, PassesOldLines;
    ExpandLength(map_);
    match call.kind
    case Diffed =>
      if env.isText(before) && env.isText(data) {
        var script :| DiffDerives(env, before, oldMap, data, call.who, map_, script);
        assert script[..|script|] == script;
      } else {
        OneAuthorFits(call.who, data);
      }
    case Explicit(spans) =>
      ExpandCoalesce(spans);
      ExpandLength(spans);
    case Streamed =>
      OneAuthorFits(call.who, data);
    case Reverting(target) =>
      KeptCovers(SplitLines(before), Expand(oldMap), target);
  }

  lemma OneAuthorFits(who: Author, data: seq<byte>)
    ensures Expand(Coalesce([Run(who, |data|)])) == Repeat(who, |data|)
    ensures Total(Coalesce([Run(who, |data|)])) == |data|
  {
    hide Expand, Coalesce;
    ExpandCoalesce([Run(who, |data|)]);
    ExpandOne(Run(who, |data|));
    ExpandLength(Coalesce([Run(who, |data|)]));
  }

  lemma StepKeepsBlameFits(env: Env, s: State, s': State, step: Step)
    requires Next(env, s, s', step) && BlameFits(s)
    ensures BlameFits(s')
  {
    hide Total, DerivesFor;
    if step.Move? && s.calls[step.call].phase.Pinned? && !s'.calls[step.call].phase.Skipped? {
      var call := s.calls[step.call];
      var exists_, pre := call.phase.exists_, call.phase.pre;
      var data, map_ :|
        && DerivesFor(env, call, BodyAt(pre), OldMap(s, exists_, pre), data, map_)
        && s' == At(s, step.call, Derived(exists_, pre, data, map_));
      DerivedFits(env, call, BodyAt(pre), OldMap(s, exists_, pre), data, map_);
    }
  }

  /** In every reachable state every recorded map totals its content's length. */
  lemma {:induction false} BlameAlwaysFits(env: Env, run: seq<State>, steps: seq<Step>, n: nat)
    requires IsRun(env, run, steps) && n < |run|
    requires BlameFits(run[0])
    ensures BlameFits(run[n])
  {
    if n == 0 {
    } else {
      hide Next, BlameFits;
      BlameAlwaysFits(env, run, steps, n - 1);
      StepOfRun(env, run, steps, n - 1);
      StepKeepsBlameFits(env, run[n-1], run[n], steps[n-1]);
    }
  }

  // ----- blame names nobody who did not write

  /** Who may be named: the authors on record at the start, the callers, and those an
      explicit caller named. */
  ghost predicate MayBeNamed(author: Author, origin: set<Author>, calls: seq<Call>) {
    || author in origin
    || exists i :: 0 <= i < |calls|
         && (calls[i].who == author || (calls[i].kind.Explicit? && author in Expand(calls[i].kind.spans)))
  }

  ghost predicate OnlyNames(map_: BlameMap, origin: set<Author>, calls: seq<Call>) {
    forall author | author in Expand(map_) :: MayBeNamed(author, origin, calls)
  }

  ghost predicate NamesOnlyWriters(s: State, origin: set<Author>) {
    && (forall a | a in s.blame :: OnlyNames(s.blame[a], origin, s.calls))
    && (forall i | 0 <= i < |s.calls| && s.calls[i].phase.Derived? :: OnlyNames(s.calls[i].phase.map_, origin, s.calls))
  }

  ghost predicate From_(authors: seq<Author>, prior: seq<Author>, who: Author) {
    forall a | a in authors :: a in prior || a == who
  }

  lemma LineAuthorsFrom(donor: Donor, value: Line, oldLines: seq<Line>, prior: seq<Author>, who: Author)
    requires donor.Kept? ==> donor.index < |oldLines| && oldLines[donor.index] == value
    requires donor.Reclaimed? ==> donor.index < |oldLines|
    ensures From_(LineAuthors(donor, value, oldLines, prior, who), prior, who)
  {
    hide Offset;
  }

  lemma {:induction false} DiffAuthorsFrom(script: seq<LineChange>, norm: Line -> seq<byte>, oldLines: seq<Line>,
                                           prior: seq<Author>, who: Author, n: nat)
    requires n <= |script| && PassesOldLines(script, 0, oldLines)
    ensures From_(DiffAuthors(script, norm, oldLines, prior, who, n), prior, who)
  {
    hide DonorAt, PassesOldLines, NewText, LineAuthors;
    if n == 0 {
    } else {
      DonorsFit(script, norm, oldLines, n - 1);
      DiffStep(script, norm, oldLines, prior, who, n - 1);
      DiffAuthorsFrom(script, norm, oldLines, prior, who, n - 1);
      if !script[n-1].Delete? {
        LineAuthorsFrom(DonorAt(script, norm, n - 1), script[n-1].value, oldLines, prior, who);
      }
    }
  }

  lemma {:induction false} KeptAuthorsFrom(lines: seq<Line>, authors: seq<Author>, target: Author)
    requires |authors| == |Joined(lines)|
    ensures forall a | a in KeptAuthors(lines, authors, target) :: a in authors
    decreases |lines|
  {
    if lines != [] {
      hide Solely, KeptAuthors, KeptLines;
      KeptStep(lines, authors, target);
      KeptAuthorsFrom(lines[1..], authors[|lines[0]|..], target);
    } else {
      KeptNothing(lines, authors, target);
    }
  }

  lemma DerivedNames(env: Env, call: Call, before: seq<byte>, oldMap: BlameMap, data: seq<byte>, map_: BlameMap)
    requires DerivesFor(env, call, before, oldMap, data, map_)
    ensures forall a | a in Expand(map_) ::
      a in Expand(oldMap) || a == call.who || (call.kind.Explicit? && a in Expand(call.kind.spans))
  {
    hide Expand, Total, Coalesce, SplitLines, KeptLines, KeptAuthors, DiffAuthors, NewText, PassesOldLines;
    match call.kind
    case Diffed =>
      if env.isText(before) && env.isText(data) {
        var script :| DiffDerives(env, before, oldMap, data, call.who, map_, script);
        DiffAuthorsFrom(script, env.norm, SplitLines(before), Expand(oldMap), call.who, |script|);
      } else {
        OneAuthorFits(call.who, data);
      }
    case Explicit(spans) => ExpandCoalesce(spans);
    case Streamed => OneAuthorFits(call.who, data);
    case Reverting(target) => KeptAuthorsFrom(SplitLines(before), Expand(oldMap), target);
  }

  /** Naming only grows with the calls. */
  lemma NamingIsMonotone(map_: BlameMap, origin: set<Author>, calls: seq<Call>, more: seq<Call>)
    requires OnlyNames(map_, origin, calls)
    requires |calls| <= |more|
    requires forall i | 0 <= i < |calls| :: more[i].who == calls[i].who && more[i].kind == calls[i].kind
    ensures OnlyNames(map_, origin, more)
  {
    forall author | author in Expand(map_)
      ensures MayBeNamed(author, origin, more)
    {
      assert MayBeNamed(author, origin, calls);
      if author !in origin {
        var i :| 0 <= i < |calls|
          && (calls[i].who == author || (calls[i].kind.Explicit? && author in Expand(calls[i].kind.spans)));
        assert more[i].who == calls[i].who && more[i].kind == calls[i].kind;
      }
    }
  }

  lemma StepKeepsNames(env: Env, s: State, s': State, step: Step, origin: set<Author>)
    requires Next(env, s, s', step) && NamesOnlyWriters(s, origin)
    ensures NamesOnlyWriters(s', origin)
  {
    hide Expand, DerivesFor, OnlyNames, Total;
    assert |s.calls| <= |s'.calls|
      && forall i | 0 <= i < |s.calls| :: s'.calls[i].who == s.calls[i].who && s'.calls[i].kind == s.calls[i].kind;
    forall a | a in s.blame
      ensures OnlyNames(s.blame[a], origin, s'.calls)
    {
      NamingIsMonotone(s.blame[a], origin, s.calls, s'.calls);
    }
    forall i | 0 <= i < |s.calls| && s.calls[i].phase.Derived?
      ensures OnlyNames(s.calls[i].phase.map_, origin, s'.calls)
    {
      NamingIsMonotone(s.calls[i].phase.map_, origin, s.calls, s'.calls);
    }
    if step.Move? && s.calls[step.call].phase.Pinned? && !s'.calls[step.call].phase.Skipped? {
      var call := s.calls[step.call];
      var exists_, pre := call.phase.exists_, call.phase.pre;
      var oldMap := OldMap(s, exists_, pre);
      var data, map_ :| DerivesFor(env, call, BodyAt(pre), oldMap, data, map_)
        && s' == At(s, step.call, Derived(exists_, pre, data, map_));
      NewMapNames(env, s, s'.calls, step.call, BodyAt(pre), oldMap, data, map_, origin);
    }
  }

  lemma NewMapNames(env: Env, s: State, calls: seq<Call>, i: nat, before: seq<byte>, oldMap: BlameMap,
                    data: seq<byte>, map_: BlameMap, origin: set<Author>)
    requires i < |s.calls| && NamesOnlyWriters(s, origin)
    requires |s.calls| <= |calls|
      && forall j | 0 <= j < |s.calls| :: calls[j].who == s.calls[j].who && calls[j].kind == s.calls[j].kind
    requires DerivesFor(env, s.calls[i], before, oldMap, data, map_)
    requires oldMap == [] || exists a :: a in s.blame && s.blame[a] == oldMap
    ensures OnlyNames(map_, origin, calls)
  {
    hide DerivesFor, Expand;
    DerivedNames(env, s.calls[i], before, oldMap, data, map_);
    ExpandEmpty<Author>();
    if oldMap != [] {
      var a :| a in s.blame && s.blame[a] == oldMap;
      NamingIsMonotone(s.blame[a], origin, s.calls, calls);
    }
    forall author | author in Expand(map_)
      ensures MayBeNamed(author, origin, calls)
    {
      if author in Expand(oldMap) {
        assert MayBeNamed(author, origin, calls);
      } else {
        assert calls[i].who == s.calls[i].who && calls[i].kind == s.calls[i].kind;
      }
    }
  }

  /** In every reachable state, every author on record was on record at the start, made
      one of the calls, or was named by an explicit one. */
  lemma {:induction false} BlameNamesOnlyWriters(env: Env, run: seq<State>, steps: seq<Step>, origin: set<Author>,
                                                 n: nat)
    requires IsRun(env, run, steps) && n < |run|
    requires NamesOnlyWriters(run[0], origin)
    ensures NamesOnlyWriters(run[n], origin)
  {
    if n == 0 {
    } else {
      hide Next, NamesOnlyWriters;
      BlameNamesOnlyWriters(env, run, steps, origin, n - 1);
      StepOfRun(env, run, steps, n - 1);
      StepKeepsNames(env, run[n-1], run[n], steps[n-1], origin);
    }
  }
}
