/** What a check may answer when a change overlaps it: with one change, as the store before
    or after it would have it; with two, perhaps as no store ever would. */
module AclOverlaps {
  import opened Tilings
  import opened AclPaths
  import opened Bytes
  import opened AclCaches

  // ----- one change

  /** What a change can touch: an actor's grants, its policy, or one of the switches. Two
      stores one change apart agree on all but one of these. */
  ghost predicate OneApart(a: Store, b: Store) {
    var grants, policies := a.grants == b.grants, a.policies == b.policies;
    var deny, reading := a.defaultDeny == b.defaultDeny, a.enforceReads == b.enforceReads;
    || (policies && deny && reading)
    || (grants && deny && reading)
    || (grants && policies && reading)
    || (grants && policies && deny)
  }

  lemma WrittenIsOneApart(store: Store, change: Change)
    ensures OneApart(store, Written(store, change))
  {
  }

  /** Everything cached is in one of two stores, each part on its own. */
  ghost predicate CacheNear(isSpace: char -> bool, c: Contents, a: Store, b: Store) {
    && (c.defaultDeny == a.defaultDeny || c.defaultDeny == b.defaultDeny)
    && (c.enforceReads == a.enforceReads || c.enforceReads == b.enforceReads)
    && forall actor | actor in c.actors :: AclNear(isSpace, c.actors[actor], actor, a, b)
  }

  ghost predicate AclNear(isSpace: char -> bool, acl: ActorAcl, actor: int, a: Store, b: Store) {
    && (acl.byRoot == ByRoot(isSpace, GrantsOf(a, actor)) || acl.byRoot == ByRoot(isSpace, GrantsOf(b, actor)))
    && (acl.policy == PolicyOf(a, actor) || acl.policy == PolicyOf(b, actor))
  }

  ghost predicate RowsNear(query: Query, rows: Rows, a: Store, b: Store) {
    RowsWithin(query, rows, a, b)
    && (rows.deny.Some? ==> rows.deny.value == a.defaultDeny || rows.deny.value == b.defaultDeny)
    && (rows.reads_.Some? ==> rows.reads_.value == a.enforceReads || rows.reads_.value == b.enforceReads)
  }

  ghost predicate RowsWithin(query: Query, rows: Rows, a: Store, b: Store) {
    query.May? ==>
      && (rows.grants.Some? ==>
            rows.grants.value == GrantsOf(a, query.actor) || rows.grants.value == GrantsOf(b, query.actor))
      && (rows.policy.Some? ==>
            rows.policy.value == PolicyOf(a, query.actor) || rows.policy.value == PolicyOf(b, query.actor))
  }

  ghost predicate AnswerNear(isSpace: char -> bool, answer: Answer, query: Query, a: Store, b: Store) {
    answer == Uncached(isSpace, a, query) || answer == Uncached(isSpace, b, query)
  }

  /** Parts taken from either of two stores one change apart make up one of the two. */
  lemma NearHit(isSpace: char -> bool, c: Contents, g: nat, query: Query, a: Store, b: Store)
    requires OneApart(a, b) && CacheNear(isSpace, c, a, b) && Hit(c, g, query)
    ensures AnswerNear(isSpace, FromCache(c, query), query, a, b)
  {
    hide ByRoot, Matched;
    if query.May? {
      assert AclNear(isSpace, c.actors[query.actor], query.actor, a, b);
    }
  }

  lemma NearRows(isSpace: char -> bool, query: Query, rows: Rows, a: Store, b: Store)
    requires OneApart(a, b) && RowsNear(query, rows, a, b) && Complete(query, rows)
    ensures AnswerNear(isSpace, FromRows(isSpace, query, rows), query, a, b)
  {
    hide ByRoot, Matched;
  }

  lemma NearRead(query: Query, rows: Rows, a: Store, b: Store)
    requires RowsNear(query, rows, a, b)
    ensures RowsNear(query, ReadNext(b, query, rows), a, b)
  {
  }

  lemma NearLoad(isSpace: char -> bool, c: Contents, g: nat, query: Query, rows: Rows, a: Store, b: Store)
    requires (c.generation == Some(g) ==> CacheNear(isSpace, c, a, b)) && RowsNear(query, rows, a, b)
    requires Complete(query, rows)
    ensures CacheNear(isSpace, Loaded(isSpace, c, g, query, rows), a, b)
  {
    hide ByRoot;
  }

  // ----- from the last moment before the change on

  /** Change `c` is the one that may be under way or just done. */
  predicate Window(s: State, c: nat) {
    s.changes == c || (s.changes == c + 1 && !s.inFlight)
  }

  /** How far call `i` has come, if it was begun no earlier than change `c` became the next. */
  ghost predicate CheckNear(isSpace: char -> bool, check: CheckRun, c: nat, a: Store, b: Store) {
    match check.phase
    case Waiting => true
    case Tagged(g) => g >= c
    case Loading(g, _) => g >= c
    case Answered(answer) => AnswerNear(isSpace, answer, check.query, a, b)
  }

  ghost predicate LoadNear(check: CheckRun, c: nat, a: Store, b: Store) {
    check.phase.Loading? && check.phase.generation == c ==> RowsNear(check.query, check.phase.rows, a, b)
  }

  ghost predicate CachedNear(isSpace: char -> bool, cache: Contents, c: nat, a: Store, b: Store) {
    cache.generation == Some(c) ==> CacheNear(isSpace, cache, a, b)
  }

  /** `a` is the store before change `c`. Whatever was loaded under its generation is from
      it or from the store now, and so is what check `i` answers. */
  ghost predicate Near(isSpace: char -> bool, s: State, c: nat, a: Store, i: nat) {
    && Window(s, c) && OneApart(a, s.store)
    && (s.changes == c && !s.inFlight ==> s.store == a)
    && (forall cache | cache in s.caches :: CachedNear(isSpace, cache, c, a, s.store))
    && (forall check | check in s.checks :: LoadNear(check, c, a, s.store))
    && (i < |s.checks| ==> CheckNear(isSpace, s.checks[i], c, a, s.store))
  }

  /** With nothing under way all of it is the store's. */
  lemma NearAtRest(isSpace: char -> bool, s: State, c: nat, i: nat)
    requires Inv(isSpace, s) && s.changes == c && !s.inFlight && i >= |s.checks|
    ensures Near(isSpace, s, c, s.store, i)
  {
    hide Uncached, ByRoot;
    forall cache | cache in s.caches ensures CachedNear(isSpace, cache, c, s.store, s.store) {
      assert CacheExact(isSpace, s, cache);
    }
    forall check | check in s.checks ensures LoadNear(check, c, s.store, s.store) {
      assert CheckExact(isSpace, s, check);
    }
  }

  /** The store is written: what was from `a` still is from `a` or from the new store. */
  lemma NearWritten(isSpace: char -> bool, s: State, s': State, c: nat, a: Store, i: nat, change: Change)
    requires Near(isSpace, s, c, a, i) && s.store == a && !s.inFlight && s.changes == c
    requires Next(isSpace, s, s', WriteRow(change))
    ensures Near(isSpace, s', c, a, i)
  {
    hide Uncached, ByRoot, Written, OneApart;
    WrittenIsOneApart(a, change);
    forall cache | cache in s'.caches ensures CachedNear(isSpace, cache, c, a, s'.store) {
      assert CachedNear(isSpace, cache, c, a, a);
    }
    forall check | check in s'.checks ensures LoadNear(check, c, a, s'.store) {
      assert LoadNear(check, c, a, a);
    }
  }

  /** The bump changes no row. */
  lemma NearBumped(isSpace: char -> bool, s: State, s': State, c: nat, a: Store, i: nat)
    requires Near(isSpace, s, c, a, i) && Next(isSpace, s, s', Bump) && Window(s', c)
    ensures Near(isSpace, s', c, a, i)
  {
    hide ByRoot, Matched;
    assert OneApart(a, s'.store);
    forall cache | cache in s'.caches ensures CachedNear(isSpace, cache, c, a, s'.store) {
      assert CachedNear(isSpace, cache, c, a, s.store);
    }
    forall check | check in s'.checks ensures LoadNear(check, c, a, s'.store) {
      assert LoadNear(check, c, a, s.store);
    }
    forall query ensures Uncached(isSpace, s'.store, query) == Uncached(isSpace, s.store, query) {
    }
  }

  lemma NearMoved(isSpace: char -> bool, s: State, s': State, c: nat, a: Store, i: nat, k: nat)
    requires Near(isSpace, s, c, a, i) && Inv(isSpace, s) && Next(isSpace, s, s', Move(k))
    ensures Near(isSpace, s', c, a, i)
  {
    hide Uncached, ByRoot, OneApart, CacheNear, RowsNear, FromCache, FromRows, ReadNext, Loaded, Hit, AnswerNear;
    var check := s.checks[k];
    var cache := s.caches[check.worker];
    assert CachedNear(isSpace, cache, c, a, s.store) && LoadNear(check, c, a, s.store);
    NearMove(isSpace, s, s', c, a, k);
    forall other | other in s'.caches ensures CachedNear(isSpace, other, c, a, s'.store) {
      assert other in s.caches || other == s'.caches[check.worker];
    }
    forall other | other in s'.checks ensures LoadNear(other, c, a, s'.store) {
      assert other in s.checks || other == s'.checks[k];
    }
  }

  /** The check that moves, and the cache it may load. */
  lemma NearMove(isSpace: char -> bool, s: State, s': State, c: nat, a: Store, k: nat)
    requires Inv(isSpace, s) && Next(isSpace, s, s', Move(k)) && Window(s, c) && OneApart(a, s.store)
    requires CachedNear(isSpace, s.caches[s.checks[k].worker], c, a, s.store) && LoadNear(s.checks[k], c, a, s.store)
    ensures CachedNear(isSpace, s'.caches[s.checks[k].worker], c, a, s.store)
    ensures LoadNear(s'.checks[k], c, a, s.store)
    ensures CheckNear(isSpace, s.checks[k], c, a, s.store) ==> CheckNear(isSpace, s'.checks[k], c, a, s.store)
  {
    hide Uncached, ByRoot, OneApart, CacheNear, RowsNear, FromCache, FromRows, ReadNext, Loaded, AnswerNear;
    hide CacheExact, MatchesStore, RowsMatch;
    var check := s.checks[k];
    var cache := s.caches[check.worker];
    assert CheckExact(isSpace, s, check) && CacheExact(isSpace, s, cache);
    match check.phase
    case Waiting =>
    case Tagged(g) =>
      NothingReadYet(check.query, a, s.store);
      if g >= c && Hit(cache, g, check.query) {
        NearHitNow(isSpace, s, cache, c, a, g, check.query);
      }
    case Loading(g, rows) =>
      NearLoading(isSpace, s, cache, c, a, check);
    case Answered(_) =>
  }

  lemma NothingReadYet(query: Query, a: Store, b: Store)
    ensures RowsNear(query, Rows(None, None, None, None), a, b)
  {
  }

  /** A hit is under the generation before the change or under the one after it. */
  lemma NearHitNow(isSpace: char -> bool, s: State, cache: Contents, c: nat, a: Store, g: nat, query: Query)
    requires Inv(isSpace, s) && Window(s, c) && OneApart(a, s.store) && c <= g <= s.changes
    requires CacheExact(isSpace, s, cache) && CachedNear(isSpace, cache, c, a, s.store) && Hit(cache, g, query)
    ensures AnswerNear(isSpace, FromCache(cache, query), query, a, s.store)
  {
    hide Uncached, FromCache, CacheExact, CacheNear, OneApart;
    if g == c {
      NearHit(isSpace, cache, g, query, a, s.store);
    } else {
      HitExact(isSpace, s, cache, g, query);
    }
  }

  lemma NearLoading(isSpace: char -> bool, s: State, cache: Contents, c: nat, a: Store, check: CheckRun)
    requires Inv(isSpace, s) && Window(s, c) && OneApart(a, s.store) && check.phase.Loading?
    requires CheckExact(isSpace, s, check) && LoadNear(check, c, a, s.store)
    requires CachedNear(isSpace, cache, c, a, s.store)
    ensures var g, rows := check.phase.generation, check.phase.rows;
      if Complete(check.query, rows)
      then CachedNear(isSpace, Loaded(isSpace, cache, g, check.query, rows), c, a, s.store)
           && (g >= c ==> AnswerNear(isSpace, FromRows(isSpace, check.query, rows), check.query, a, s.store))
      else g == c ==> RowsNear(check.query, ReadNext(s.store, check.query, rows), a, s.store)
  {
    hide Uncached, FromRows, Loaded, CacheNear, OneApart, RowsNear, RowsMatch, ReadNext;
    var g, rows, query := check.phase.generation, check.phase.rows, check.query;
    if Complete(query, rows) {
      LoadedTag(isSpace, cache, g, query, rows);
      if g == c {
        NearRows(isSpace, query, rows, a, s.store);
        NearLoad(isSpace, cache, g, query, rows, a, s.store);
      } else if g > c {
        RowsExact(isSpace, query, rows, s.store);
      }
    } else if g == c {
      NearRead(query, rows, a, s.store);
    }
  }

  lemma LoadedTag(isSpace: char -> bool, c: Contents, g: nat, query: Query, rows: Rows)
    requires Complete(query, rows)
    ensures Loaded(isSpace, c, g, query, rows).generation == Some(g)
  {
  }

  lemma NextKeepsNear(isSpace: char -> bool, s: State, s': State, step: Step, c: nat, a: Store, i: nat)
    requires Near(isSpace, s, c, a, i) && Inv(isSpace, s) && Next(isSpace, s, s', step) && Window(s', c)
    ensures Near(isSpace, s', c, a, i)
  {
    match step
    case WriteRow(change) => NearWritten(isSpace, s, s', c, a, i, change);
    case Bump => NearBumped(isSpace, s, s', c, a, i);
    case Move(k) => NearMoved(isSpace, s, s', c, a, i, k);
    case Begin(_, _) =>
      hide Uncached, CachedNear, LoadNear, OneApart;
      NearBegun(s, s', c, a);
  }

  lemma NearBegun(s: State, s': State, c: nat, a: Store)
    requires forall check | check in s.checks :: LoadNear(check, c, a, s.store)
    requires |s'.checks| == |s.checks| + 1 && s'.checks[..|s.checks|] == s.checks
    requires s'.checks[|s.checks|].phase.Waiting? && s'.store == s.store
    ensures forall check | check in s'.checks :: LoadNear(check, c, a, s'.store)
  {
    forall check | check in s'.checks ensures LoadNear(check, c, a, s'.store) {
      assert check in s'.checks[..|s.checks|] || check == s'.checks[|s.checks|];
    }
  }

  lemma StepBack(isSpace: char -> bool, s: State, s': State, step: Step, c: nat)
    requires Next(isSpace, s, s', step) && Window(s', c) && !(s'.changes == c && !s'.inFlight)
    ensures Window(s, c)
  {
  }

  /** Every state in the window follows one at rest before change `c`. */
  lemma {:induction false} RestBefore(isSpace: char -> bool, run: seq<State>, steps: seq<Step>, n: nat, c: nat, i: nat)
    returns (m: nat)
    requires IsRun(isSpace, run, steps) && n < |run| && run[n].changes < U64
    requires Window(run[n], c) && i >= |run[n].checks|
    ensures m <= n && run[m].changes == c && !run[m].inFlight
    ensures Near(isSpace, run[n], c, run[m].store, i)
    decreases n
  {
    RunKeepsInv(isSpace, run, steps, n);
    hide Init, Next, Inv, Near;
    if run[n].changes == c && !run[n].inFlight {
      m := n;
      NearAtRest(isSpace, run[n], c, i);
    } else {
      NotAtStart(isSpace, run, steps);
      assert Takes(isSpace, run, steps, n - 1);
      StepBack(isSpace, run[n-1], run[n], steps[n-1], c);
      ChecksGrow(isSpace, run[n-1], run[n], steps[n-1]);
      m := RestBefore(isSpace, run, steps, n - 1, c, i);
      RunKeepsInv(isSpace, run, steps, n - 1);
      NextKeepsNear(isSpace, run[n-1], run[n], steps[n-1], c, run[m].store, i);
    }
  }

  lemma NotAtStart(isSpace: char -> bool, run: seq<State>, steps: seq<Step>)
    requires IsRun(isSpace, run, steps)
    ensures run[0].changes == 0 && !run[0].inFlight
  {
    hide Next;
  }

  lemma ChecksGrow(isSpace: char -> bool, s: State, s': State, step: Step)
    requires Next(isSpace, s, s', step)
    ensures |s.checks| <= |s'.checks| && s.changes <= s'.changes
  {
  }

  /** From when check `i` begins on. */
  lemma {:induction false} BegunNear(isSpace: char -> bool, run: seq<State>, steps: seq<Step>, b: nat, n: nat, i: nat)
    returns (m: nat)
    requires IsRun(isSpace, run, steps) && b <= n < |run| && run[n].changes < U64
    requires i == |run[b].checks| && Window(run[n], run[b].changes)
    ensures m <= n && run[m].changes == run[b].changes && !run[m].inFlight
    ensures Near(isSpace, run[n], run[b].changes, run[m].store, i)
    decreases n
  {
    hide Init, Next, Inv, Near;
    var c := run[b].changes;
    if n == b {
      m := RestBefore(isSpace, run, steps, n, c, i);
    } else {
      assert Takes(isSpace, run, steps, n - 1);
      RunKeepsInv(isSpace, run, steps, n);
      if run[n].changes == c && !run[n].inFlight {
        NeverLess(isSpace, run, steps, b, n - 1);
        StillAtRest(isSpace, run[n-1], run[n], steps[n-1], c);
      } else {
        StepBack(isSpace, run[n-1], run[n], steps[n-1], c);
      }
      ChecksGrow(isSpace, run[n-1], run[n], steps[n-1]);
      m := BegunNear(isSpace, run, steps, b, n - 1, i);
      RunKeepsInv(isSpace, run, steps, n - 1);
      NextKeepsNear(isSpace, run[n-1], run[n], steps[n-1], c, run[m].store, i);
    }
  }

  lemma StillAtRest(isSpace: char -> bool, s: State, s': State, step: Step, c: nat)
    requires Next(isSpace, s, s', step) && s'.changes == c <= s.changes
    ensures Window(s, c)
  {
  }

  lemma {:induction false} NeverLess(isSpace: char -> bool, run: seq<State>, steps: seq<Step>, b: nat, n: nat)
    requires IsRun(isSpace, run, steps) && b <= n < |run|
    ensures run[b].changes <= run[n].changes
    decreases n
  {
    hide Init, Next;
    if b < n {
      NeverLess(isSpace, run, steps, b, n - 1);
      assert Takes(isSpace, run, steps, n - 1);
      ChecksGrow(isSpace, run[n-1], run[n], steps[n-1]);
    }
  }

  /** A check that overlaps one change, begun before it or while it is under way and
      answered before the next begins, answers as the store before the change would have
      it or as the store after. */
  lemma OneChangeIsBeforeOrAfter(isSpace: char -> bool, run: seq<State>, steps: seq<Step>, b: nat, n: nat, i: nat)
    returns (m: nat)
    requires IsRun(isSpace, run, steps) && b < n < |run| && run[n].changes < U64
    requires steps[b].Begin? && i == |run[b].checks| && Window(run[n], run[b].changes)
    requires i < |run[n].checks| && run[n].checks[i].phase.Answered?
    ensures m <= n && run[m].changes == run[b].changes && !run[m].inFlight
    ensures var check := run[n].checks[i];
      || check.phase.answer == Uncached(isSpace, run[m].store, check.query)
      || check.phase.answer == Uncached(isSpace, run[n].store, check.query)
  {
    hide IsRun, Uncached;
    m := BegunNear(isSpace, run, steps, b, n, i);
  }

  // ----- two changes

  /** The whole tree denied to actor 0. */
  const DENIED: seq<Grant> := [Grant("", NONE)]

  /** No state so far would have given the answer. */
  ghost predicate Never(isSpace: char -> bool, run: seq<State>, answer: Answer) {
    forall s | s in run :: Uncached(isSpace, s.store, May(0, "/")) != answer
  }

  lemma NeverYet(isSpace: char -> bool, run: seq<State>, s: State, answer: Answer)
    requires Never(isSpace, run, answer) && Uncached(isSpace, s.store, May(0, "/")) != answer
    ensures Never(isSpace, run + [s], answer)
  {
  }

  lemma DeniedAll(isSpace: char -> bool, store: Store)
    requires GrantsOf(store, 0) == DENIED
    ensures Uncached(isSpace, store, May(0, "/")) == Allowed(NONE)
  {
    hide ByRoot, Matched, ClimbsOut;
    UncachedScans(isSpace, store, 0, "/");
    NoDots("");
    assert ScopeRoot(isSpace, "") == Some("");
    assert DENIED[..0] == [];
    assert Scan(isSpace, DENIED[..0], "/") == None;
  }

  /** A step after which a check of actor 0 would be answered NONE, or from the direct policy. */
  lemma ExtendNever(isSpace: char -> bool, run: seq<State>, steps: seq<Step>, s: State, step: Step)
    returns (run': seq<State>, steps': seq<Step>)
    requires IsRun(isSpace, run, steps) && Next(isSpace, run[|run|-1], s, step)
    requires Never(isSpace, run, Allowed(FromPolicy(Propose)))
    requires GrantsOf(s.store, 0) == DENIED
    ensures IsRun(isSpace, run', steps') && run' == run + [s] && run'[|run'|-1] == s
    ensures Never(isSpace, run', Allowed(FromPolicy(Propose)))
  {
    hide IsRun, Next, Uncached, Never, GrantsOf;
    run', steps' := Extend(isSpace, run, steps, s, step);
    DeniedAll(isSpace, s.store);
    NeverYet(isSpace, run, s, Allowed(FromPolicy(Propose)));
  }

  /** The grants are read, then the tree is denied to the actor and its policy changed, and
      the rest is read: two changes overlap the check, and it answers what neither store
      before, between nor after them would have. */
  lemma TwoChangesMayMix(isSpace: char -> bool) returns (run: seq<State>, steps: seq<Step>)
    ensures IsRun(isSpace, run, steps) && run != []
    ensures var s := run[|run|-1];
      && s.changes == 2 && !s.inFlight && |s.checks| == 1 && s.checks[0].quiet == Some(0)
      && s.checks[0].query == May(0, "/") && s.checks[0].phase.Answered?
      && Never(isSpace, run, s.checks[0].phase.answer)
  {
    hide IsRun, ByRoot, Matched, Uncached, Never, DENIED;
    var read, written1, bumped1, written2, bumped2 := Overtaken();
    run, steps := GrantsRead(isSpace);
    run, steps := ExtendNever(isSpace, run, steps, written1, WriteRow(SetGrants(0, DENIED)));
    run, steps := ExtendNever(isSpace, run, steps, bumped1, Bump);
    run, steps := ExtendNever(isSpace, run, steps, written2, WriteRow(SetPolicy(0, Propose)));
    run, steps := ExtendNever(isSpace, run, steps, bumped2, Bump);
    var r2 := Rows(Some([]), Some(Propose), None, None);
    var r3 := r2.(deny := Some(false));
    var r4 := r3.(reads_ := Some(false));
    run, steps := ExtendNever(isSpace, run, steps, At(bumped2, 0, Loading(0, r2)), Move(0));
    run, steps := ExtendNever(isSpace, run, steps, At(bumped2, 0, Loading(0, r3)), Move(0));
    run, steps := ExtendNever(isSpace, run, steps, At(bumped2, 0, Loading(0, r4)), Move(0));
    var last := At(bumped2, 0, Answered(FromRows(isSpace, May(0, "/"), r4)))
      .(caches := [Loaded(isSpace, bumped2.caches[0], 0, May(0, "/"), r4)]);
    ProposeAnswer(isSpace);
    run, steps := ExtendNever(isSpace, run, steps, last, Move(0));
  }

  lemma Overtaken() returns (read: State, written1: State, bumped1: State, written2: State, bumped2: State)
    ensures read == At(Missed(), 0, Loading(0, Rows(Some([]), None, None, None)))
    ensures written1 == read.(store := Written(read.store, SetGrants(0, DENIED)), inFlight := true)
    ensures bumped1 == written1.(store := written1.store.(generation := 1), inFlight := false, changes := 1)
    ensures written2 == bumped1.(store := Written(bumped1.store, SetPolicy(0, Propose)), inFlight := true)
    ensures bumped2 == written2.(store := written2.store.(generation := 2), inFlight := false, changes := 2)
  {
    read := At(Missed(), 0, Loading(0, Rows(Some([]), None, None, None)));
    written1 := read.(store := Written(read.store, SetGrants(0, DENIED)), inFlight := true);
    bumped1 := written1.(store := written1.store.(generation := 1), inFlight := false, changes := 1);
    written2 := bumped1.(store := Written(bumped1.store, SetPolicy(0, Propose)), inFlight := true);
    bumped2 := written2.(store := written2.store.(generation := 2), inFlight := false, changes := 2);
  }

  lemma GrantsRead(isSpace: char -> bool) returns (run: seq<State>, steps: seq<Step>)
    ensures IsRun(isSpace, run, steps) && run != []
    ensures run[|run|-1] == At(Missed(), 0, Loading(0, Rows(Some([]), None, None, None)))
    ensures Never(isSpace, run, Allowed(FromPolicy(Propose)))
  {
    hide IsRun, ByRoot, Matched, Uncached;
    run, steps := Misses(isSpace);
    WithoutGrants(isSpace, EMPTY);
    run, steps := Extend(isSpace, run, steps, At(Missed(), 0, Loading(0, Rows(Some([]), None, None, None))), Move(0));
  }

  lemma ProposeAnswer(isSpace: char -> bool)
    ensures Decide(ActorAcl(ByRoot(isSpace, []), Propose), false, "/") == FromPolicy(Propose)
  {
    hide ByRoot, Matched;
    WithoutGrants(isSpace, EMPTY.(policies := map[0 := Propose]));
  }
}
