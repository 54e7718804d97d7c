/** The generation-keyed cache of authorization answers, one per worker, while other
    workers load into theirs and an operator changes grants, policies and switches. */
module AclCaches {
  import opened Tilings
  import opened AclPaths
  import opened Bytes

  datatype Policy = Direct | Propose

  function FromPolicy(policy: Policy): Perms {
    match policy
    case Direct => READ | WRITE | PROPOSE
    case Propose => READ | PROPOSE
  }

  /** What is loaded for an actor. */
  datatype ActorAcl = ActorAcl(byRoot: map<string, Perms>, policy: Policy)

  datatype Contents = Contents(
    generation: Option<nat>,
    defaultDeny: bool,
    enforceReads: bool,
    actors: map<int, ActorAcl>)

  /** The answer an actor's loaded rights give: the covering grant's, else deny by
      default, else the policy's. */
  ghost function Decide(acl: ActorAcl, defaultDeny: bool, path: string): Perms {
    match Matched(acl.byRoot, path)
    case Some(perms) => perms
    case None => if defaultDeny then NONE else FromPolicy(acl.policy)
  }

  // ----- the cache

  function Retagged(c: Contents, generation: nat): Contents {
    if c.generation == Some(generation) then c
    else c.(generation := Some(generation), actors := map[])
  }

  function WithSettings(c: Contents, generation: nat, defaultDeny: bool, enforceReads: bool): Contents {
    Retagged(c, generation).(defaultDeny := defaultDeny, enforceReads := enforceReads)
  }

  function WithActor(c: Contents, generation: nat, defaultDeny: bool, enforceReads: bool, actor: int,
                     acl: ActorAcl): Contents {
    var d := WithSettings(c, generation, defaultDeny, enforceReads);
    d.(actors := d.actors[actor := acl])
  }

  predicate Holds(c: Contents, generation: nat, actor: int) {
    c.generation == Some(generation) && actor in c.actors
  }

  class AclCache {
    var generation: Option<nat>
    var defaultDeny: bool
    var enforceReads: bool
    var actors: map<int, ActorAcl>

    function View(): Contents
      reads this
    {
      Contents(generation, defaultDeny, enforceReads, actors)
    }

    constructor ()
      ensures View() == Contents(None, false, false, map[])
    {
      generation, defaultDeny, enforceReads, actors := None, false, false, map[];
    }

    /** A hit answers from what was loaded at `generation`; anything else is a miss. */
    method Check(current: nat, actor: int, path: string) returns (r: Option<Perms>)
      ensures r == if Holds(View(), current, actor) then Some(Decide(actors[actor], defaultDeny, path)) else None
    {
      if generation != Some(current) || actor !in actors {
        return None;
      }
      var acl := actors[actor];
      var matched := PermsAt(acl.byRoot, path);
      r := Some(match matched
                case Some(perms) => perms
                case None => if defaultDeny then NONE else FromPolicy(acl.policy));
    }

    method Settings(current: nat) returns (r: Option<(bool, bool)>)
      ensures r == if generation == Some(current) then Some((defaultDeny, enforceReads)) else None
    {
      r := if generation == Some(current) then Some((defaultDeny, enforceReads)) else None;
    }

    method Put(current: nat, deny: bool, reads_: bool, actor: int, acl: ActorAcl)
      modifies this
      ensures View() == WithActor(old(View()), current, deny, reads_, actor, acl)
    {
      if generation != Some(current) {
        actors := map[];
        generation := Some(current);
      }
      defaultDeny := deny;
      enforceReads := reads_;
      actors := actors[actor := acl];
    }

    method PutSettings(current: nat, deny: bool, reads_: bool)
      modifies this
      ensures View() == WithSettings(old(View()), current, deny, reads_)
    {
      if generation != Some(current) {
        actors := map[];
        generation := Some(current);
      }
      defaultDeny := deny;
      enforceReads := reads_;
    }
  }

  // ----- the store

  datatype Store = Store(
    grants: map<int, seq<Grant>>,
    policies: map<int, Policy>,
    defaultDeny: bool,
    enforceReads: bool,
    generation: nat)

  datatype Change =
    | SetGrants(actor: int, grants: seq<Grant>)   // a grant or a revoke
    | SetPolicy(actor: int, policy: Policy)
    | SetDefaultDeny(deny: bool)
    | SetEnforceReads(on: bool)

  /** The row a change writes, the generation left alone. */
  function Written(store: Store, change: Change): Store {
    match change
    case SetGrants(actor, grants) => store.(grants := store.grants[actor := grants])
    case SetPolicy(actor, policy) => store.(policies := store.policies[actor := policy])
    case SetDefaultDeny(deny) => store.(defaultDeny := deny)
    case SetEnforceReads(on) => store.(enforceReads := on)
  }

  /** What each change makes of the rows: the one it names as asked, every other as it was. */
  lemma ChangeTakes(store: Store, change: Change, actor: int)
    ensures var after := Written(store, change);
      && GrantsOf(after, actor)
         == (if change.SetGrants? && change.actor == actor then change.grants else GrantsOf(store, actor))
      && PolicyOf(after, actor)
         == (if change.SetPolicy? && change.actor == actor then change.policy else PolicyOf(store, actor))
      && after.defaultDeny == (if change.SetDefaultDeny? then change.deny else store.defaultDeny)
      && after.enforceReads == (if change.SetEnforceReads? then change.on else store.enforceReads)
      && after.generation == store.generation
  {
  }

  function GrantsOf(store: Store, actor: int): seq<Grant> {
    if actor in store.grants then store.grants[actor] else []
  }

  function PolicyOf(store: Store, actor: int): Policy {
    if actor in store.policies then store.policies[actor] else Direct
  }

  /** The answer with no cache at all. */
  ghost function Uncached(isSpace: char -> bool, store: Store, query: Query): Answer {
    match query
    case May(actor, path) =>
      var acl := ActorAcl(ByRoot(isSpace, GrantsOf(store, actor)), PolicyOf(store, actor));
      Allowed(Decide(acl, store.defaultDeny, path))
    case Switches => Switched(store.defaultDeny, store.enforceReads)
  }

  /** The rights an actor has at a path, bit by bit: those of the grant the scan finds; else
      none where the store denies by default; else to read and to propose, and to write as
      well unless its stored policy is to propose. */
  ghost predicate RightfulPerms(isSpace: char -> bool, store: Store, actor: int, path: string, r: Perms) {
    match Scan(isSpace, if actor in store.grants then store.grants[actor] else [], path)
    case Some(best) => r == best.perms
    case None =>
      if store.defaultDeny then r == 0
      else
        && r & 1 != 0 && r & 4 != 0
        && (r & 2 != 0 <==> !(actor in store.policies && store.policies[actor].Propose?))
  }

  lemma UncachedIsRightful(isSpace: char -> bool, store: Store, actor: int, path: string)
    ensures Uncached(isSpace, store, May(actor, path)).Allowed?
    ensures RightfulPerms(isSpace, store, actor, path, Uncached(isSpace, store, May(actor, path)).perms)
  {
    hide Scan, Uncached;
    UncachedScans(isSpace, store, actor, path);
    PolicyBits();
  }

  lemma PolicyBits()
    ensures FromPolicy(Direct) & 1 != 0 && FromPolicy(Direct) & 2 != 0 && FromPolicy(Direct) & 4 != 0
    ensures FromPolicy(Propose) & 1 != 0 && FromPolicy(Propose) & 2 == 0 && FromPolicy(Propose) & 4 != 0
  {
  }

  /** One worker with a store to itself: every answer is the uncached one. */
  class AclService {
    const isSpace: char -> bool
    const cache: AclCache
    var store: Store

    /** What is cached under the store's generation is what it holds, and no tag is from
        a generation to come. */
    ghost predicate Valid()
      reads this, cache
    {
      && store.generation < U64
      && (cache.generation.Some? ==> cache.generation.value <= store.generation)
      && (cache.generation == Some(store.generation) ==> MatchesStore(isSpace, cache.View(), store))
    }

    constructor (isSpace: char -> bool, store: Store)
      requires store.generation < U64
      ensures Valid() && fresh(cache) && this.store == store && this.isSpace == isSpace
    {
      this.isSpace, this.store := isSpace, store;
      cache := new AclCache();
    }

    method EffectivePerms(actor: int, path: string) returns (r: Perms)
      requires Valid()
      modifies cache
      ensures Valid() && store == old(store)
      ensures Allowed(r) == Uncached(isSpace, store, May(actor, path))
      ensures RightfulPerms(isSpace, store, actor, path, r)
    {
      hide ByRoot, Matched, RightfulPerms;
      UncachedIsRightful(isSpace, store, actor, path);
      var hit := cache.Check(store.generation, actor, path);
      if hit.Some? {
        return hit.value;
      }
      var acl := ActorAcl(ByRoot(isSpace, GrantsOf(store, actor)), PolicyOf(store, actor));
      var matched := PermsAt(acl.byRoot, path);
      cache.Put(store.generation, store.defaultDeny, store.enforceReads, actor, acl);
      r := match matched
           case Some(perms) => perms
           case None => if store.defaultDeny then NONE else FromPolicy(acl.policy);
    }

    method AclSettings() returns (defaultDeny: bool, enforceReads: bool)
      requires Valid()
      modifies cache
      ensures Valid() && store == old(store)
      ensures defaultDeny == store.defaultDeny && enforceReads == store.enforceReads
    {
      hide ByRoot;
      var hit := cache.Settings(store.generation);
      if hit.Some? {
        return hit.value.0, hit.value.1;
      }
      cache.PutSettings(store.generation, store.defaultDeny, store.enforceReads);
      return store.defaultDeny, store.enforceReads;
    }

    /** A grant, a revoke, a policy or a switch: the row, then the bump. */
    method Change(change: Change)
      requires Valid() && store.generation + 1 < U64
      modifies this`store
      ensures Valid() && store == Written(old(store), change).(generation := old(store).generation + 1)
    {
      hide ByRoot;
      store := Written(store, change);
      store := store.(generation := (store.generation + 1) % U64);
    }
  }

  // ----- the protocol

  datatype Query = May(actor: int, path: string) | Switches

  datatype Answer = Allowed(perms: Perms) | Switched(defaultDeny: bool, enforceReads: bool)

  /** The rows a miss has read so far. */
  datatype Rows = Rows(grants: Option<seq<Grant>>, policy: Option<Policy>, deny: Option<bool>, reads_: Option<bool>)

  datatype Phase =
    | Waiting
    | Tagged(generation: nat)
    | Loading(generation: nat, rows: Rows)
    | Answered(answer: Answer)

  /** A check against one worker's cache; `quiet` is the number of changes finished when
      it began, if none was in flight. */
  datatype CheckRun = CheckRun(worker: nat, query: Query, quiet: Option<nat>, phase: Phase)

  /** `changes` counts finished changes; one whose row is written but whose bump is not
      is in flight. */
  datatype State = State(store: Store, inFlight: bool, changes: nat, caches: seq<Contents>, checks: seq<CheckRun>)

  datatype Step = WriteRow(change: Change) | Bump | Begin(worker: nat, query: Query) | Move(check: nat)

  ghost predicate Init(s: State) {
    && s.store.generation == 0 && !s.inFlight && s.changes == 0 && s.checks == []
    && forall c | c in s.caches :: c.generation == None
  }

  ghost predicate Next(isSpace: char -> bool, s: State, s': State, step: Step) {
    match step
    case WriteRow(change) => !s.inFlight && s' == s.(store := Written(s.store, change), inFlight := true)
    case Bump =>
      && s.inFlight
      && s' == s.(store := s.store.(generation := (s.store.generation + 1) % U64), inFlight := false,
                  changes := s.changes + 1)
    case Begin(worker, query) =>
      && worker < |s.caches|
      && s' == s.(checks := s.checks + [CheckRun(worker, query, if s.inFlight then None else Some(s.changes), Waiting)])
    case Move(i) => i < |s.checks| && s.checks[i].worker < |s.caches| && Moves(isSpace, s, s', i)
  }

  ghost predicate Moves(isSpace: char -> bool, s: State, s': State, i: nat)
    requires i < |s.checks| && s.checks[i].worker < |s.caches|
  {
    var check := s.checks[i];
    var cache := s.caches[check.worker];
    match check.phase
    case Waiting => s' == At(s, i, Tagged(s.store.generation))
    case Tagged(g) =>
      s' == At(s, i, if Hit(cache, g, check.query) then Answered(FromCache(cache, check.query))
                     else Loading(g, Rows(None, None, None, None)))
    case Loading(g, rows) =>
      if !Complete(check.query, rows)
      then s' == At(s, i, Loading(g, ReadNext(s.store, check.query, rows)))
      else s' == At(s, i, Answered(FromRows(isSpace, check.query, rows)))
                 .(caches := s.caches[check.worker := Loaded(isSpace, cache, g, check.query, rows)])
    case Answered(_) => false
  }

  function At(s: State, i: nat, phase: Phase): State
    requires i < |s.checks|
  {
    s.(checks := s.checks[i := s.checks[i].(phase := phase)])
  }

  predicate Hit(cache: Contents, g: nat, query: Query) {
    match query
    case May(actor, _) => Holds(cache, g, actor)
    case Switches => cache.generation == Some(g)
  }

  ghost function FromCache(cache: Contents, query: Query): Answer
    requires query.May? ==> query.actor in cache.actors
  {
    match query
    case May(actor, path) => Allowed(Decide(cache.actors[actor], cache.defaultDeny, path))
    case Switches => Switched(cache.defaultDeny, cache.enforceReads)
  }

  predicate Complete(query: Query, rows: Rows) {
    rows.deny.Some? && rows.reads_.Some? && (query.May? ==> rows.grants.Some? && rows.policy.Some?)
  }

  /** One store read: the grants, the policy, then the two switches. */
  function ReadNext(store: Store, query: Query, rows: Rows): Rows {
    if query.May? && rows.grants.None? then rows.(grants := Some(GrantsOf(store, query.actor)))
    else if query.May? && rows.policy.None? then rows.(policy := Some(PolicyOf(store, query.actor)))
    else if rows.deny.None? then rows.(deny := Some(store.defaultDeny))
    else rows.(reads_ := Some(store.enforceReads))
  }

  ghost function FromRows(isSpace: char -> bool, query: Query, rows: Rows): Answer
    requires Complete(query, rows)
  {
    match query
    case May(actor, path) =>
      Allowed(Decide(ActorAcl(ByRoot(isSpace, rows.grants.value), rows.policy.value), rows.deny.value, path))
    case Switches => Switched(rows.deny.value, rows.reads_.value)
  }

  function Loaded(isSpace: char -> bool, cache: Contents, g: nat, query: Query, rows: Rows): Contents
    requires Complete(query, rows)
  {
    match query
    case May(actor, _) =>
      WithActor(cache, g, rows.deny.value, rows.reads_.value, actor,
                ActorAcl(ByRoot(isSpace, rows.grants.value), rows.policy.value))
    case Switches => WithSettings(cache, g, rows.deny.value, rows.reads_.value)
  }

  // ----- what every reachable state keeps

  /** `g` is the generation of the store and no change is in flight. */
  predicate Current(s: State, g: nat) {
    g == s.store.generation && !s.inFlight
  }

  /** Everything cached is what the store holds. */
  predicate MatchesStore(isSpace: char -> bool, c: Contents, store: Store) {
    && c.defaultDeny == store.defaultDeny && c.enforceReads == store.enforceReads
    && forall actor | actor in c.actors ::
         c.actors[actor] == ActorAcl(ByRoot(isSpace, GrantsOf(store, actor)), PolicyOf(store, actor))
  }

  predicate RowsMatch(query: Query, rows: Rows, store: Store) {
    && (query.May? && rows.grants.Some? ==> rows.grants.value == GrantsOf(store, query.actor))
    && (query.May? && rows.policy.Some? ==> rows.policy.value == PolicyOf(store, query.actor))
    && (rows.deny.Some? ==> rows.deny.value == store.defaultDeny)
    && (rows.reads_.Some? ==> rows.reads_.value == store.enforceReads)
  }

  predicate CacheExact(isSpace: char -> bool, s: State, c: Contents) {
    c.generation.Some? ==>
      && c.generation.value <= s.changes
      && (Current(s, c.generation.value) ==> MatchesStore(isSpace, c, s.store))
  }

  ghost predicate CheckExact(isSpace: char -> bool, s: State, check: CheckRun) {
    && (check.quiet.Some? ==> check.quiet.value <= s.changes)
    && match check.phase
       case Waiting => true
       case Tagged(g) => g <= s.changes && (check.quiet.Some? ==> check.quiet.value <= g)
       case Loading(g, rows) =>
         && g <= s.changes && (check.quiet.Some? ==> check.quiet.value <= g)
         && (Current(s, g) ==> RowsMatch(check.query, rows, s.store))
       case Answered(answer) =>
         check.quiet == Some(s.changes) && !s.inFlight ==> answer == Uncached(isSpace, s.store, check.query)
  }

  ghost predicate Inv(isSpace: char -> bool, s: State) {
    && s.store.generation == s.changes
    && (forall c | c in s.caches :: CacheExact(isSpace, s, c))
    && (forall check | check in s.checks :: CheckExact(isSpace, s, check))
  }

  lemma InvInit(isSpace: char -> bool, s: State)
    requires Init(s)
    ensures Inv(isSpace, s)
  {
  }

  /** A hit at the current generation is the uncached answer. */
  lemma HitExact(isSpace: char -> bool, s: State, cache: Contents, g: nat, query: Query)
    requires CacheExact(isSpace, s, cache) && Current(s, g) && Hit(cache, g, query)
    ensures FromCache(cache, query) == Uncached(isSpace, s.store, query)
  {
  }

  lemma RowsExact(isSpace: char -> bool, query: Query, rows: Rows, store: Store)
    requires Complete(query, rows) && RowsMatch(query, rows, store)
    ensures FromRows(isSpace, query, rows) == Uncached(isSpace, store, query)
  {
  }

  /** Loading keeps a cache exact. */
  lemma LoadedExact(isSpace: char -> bool, s: State, cache: Contents, g: nat, query: Query, rows: Rows)
    requires CacheExact(isSpace, s, cache) && g <= s.changes && Complete(query, rows)
    requires Current(s, g) ==> RowsMatch(query, rows, s.store)
    ensures CacheExact(isSpace, s, Loaded(isSpace, cache, g, query, rows))
  {
  }

  lemma MovedCheckExact(isSpace: char -> bool, s: State, s': State, i: nat)
    requires Inv(isSpace, s) && i < |s.checks| && s.checks[i].worker < |s.caches| && Moves(isSpace, s, s', i)
    ensures s'.store == s.store && s'.inFlight == s.inFlight && s'.changes == s.changes
    ensures |s'.checks| == |s.checks| && CheckExact(isSpace, s, s'.checks[i])
  {
    hide Uncached, FromCache, FromRows, Loaded, MatchesStore;
    var check := s.checks[i];
    var cache := s.caches[check.worker];
    assert CheckExact(isSpace, s, check) && CacheExact(isSpace, s, cache);
    match check.phase
    case Waiting =>
    case Tagged(g) =>
      if Current(s, g) && Hit(cache, g, check.query) {
        HitExact(isSpace, s, cache, g, check.query);
      }
    case Loading(g, rows) =>
      if Current(s, g) && Complete(check.query, rows) {
        RowsExact(isSpace, check.query, rows, s.store);
      }
    case Answered(_) =>
  }

  lemma MoveKeepsInv(isSpace: char -> bool, s: State, s': State, i: nat)
    requires Inv(isSpace, s) && i < |s.checks| && s.checks[i].worker < |s.caches| && Moves(isSpace, s, s', i)
    ensures Inv(isSpace, s')
  {
    MovedCheckExact(isSpace, s, s', i);
    hide Uncached, FromCache, FromRows, Loaded, MatchesStore, ReadNext, RowsMatch, Hit;
    var check := s.checks[i];
    var cache := s.caches[check.worker];
    assert CheckExact(isSpace, s, check) && CacheExact(isSpace, s, cache);
    if check.phase.Loading? && Complete(check.query, check.phase.rows) {
      LoadedExact(isSpace, s, cache, check.phase.generation, check.query, check.phase.rows);
    }
    forall c | c in s'.caches ensures CacheExact(isSpace, s', c) {
      assert c in s.caches || c == s'.caches[check.worker];
    }
    forall k | 0 <= k < |s'.checks| ensures CheckExact(isSpace, s', s'.checks[k]) {
      assert k != i ==> s'.checks[k] == s.checks[k];
      assert CheckExact(isSpace, s, s'.checks[k]);
    }
  }

  /** Until the counter has wrapped, every step keeps caches and answers exact. */
  lemma NextKeepsInv(isSpace: char -> bool, s: State, s': State, step: Step)
    requires Inv(isSpace, s) && Next(isSpace, s, s', step) && s'.changes < U64
    ensures Inv(isSpace, s')
  {
    hide Uncached, FromCache, FromRows, Loaded, MatchesStore, ReadNext, RowsMatch, Hit, Written;
    match step
    case Move(i) =>
      MoveKeepsInv(isSpace, s, s', i);
    case WriteRow(change) =>
      GenerationKept(s.store, change);
    case Bump =>
      forall c | c in s'.caches ensures CacheExact(isSpace, s', c) {
        assert CacheExact(isSpace, s, c);
      }
      forall check | check in s'.checks ensures CheckExact(isSpace, s', check) {
        assert CheckExact(isSpace, s, check);
      }
    case Begin(worker, query) =>
      forall check | check in s'.checks ensures CheckExact(isSpace, s', check) {
        assert check in s.checks ==> CheckExact(isSpace, s, check);
      }
  }

  lemma GenerationKept(store: Store, change: Change)
    ensures Written(store, change).generation == store.generation
  {
  }

  // ----- over runs

  ghost predicate IsRun(isSpace: char -> bool, run: seq<State>, steps: seq<Step>) {
    && |run| == |steps| + 1 && Init(run[0])
    && forall k | 0 <= k < |steps| :: Takes(isSpace, run, steps, k)
  }

  ghost predicate Takes(isSpace: char -> bool, run: seq<State>, steps: seq<Step>, k: nat)
    requires k < |steps| && k + 1 < |run|
  {
    Next(isSpace, run[k], run[k + 1], steps[k])
  }

  lemma {:induction false} RunKeepsInv(isSpace: char -> bool, run: seq<State>, steps: seq<Step>, n: nat)
    requires IsRun(isSpace, run, steps) && n < |run| && run[n].changes < U64
    ensures Inv(isSpace, run[n])
    decreases n
  {
    hide Inv, Init, Next;
    if n == 0 {
      InvInit(isSpace, run[0]);
    } else {
      assert Takes(isSpace, run, steps, n - 1);
      ChangesGrow(isSpace, run[n-1], run[n], steps[n-1]);
      RunKeepsInv(isSpace, run, steps, n - 1);
      NextKeepsInv(isSpace, run[n-1], run[n], steps[n-1]);
    }
  }

  lemma ChangesGrow(isSpace: char -> bool, s: State, s': State, step: Step)
    requires Next(isSpace, s, s', step)
    ensures s.changes <= s'.changes
  {
  }

  /** In every reachable state with no change in flight, whatever a cache holds under the
      store's generation is what the store holds. */
  lemma CacheIsTheStore(isSpace: char -> bool, run: seq<State>, steps: seq<Step>, n: nat, worker: nat, actor: int)
    requires IsRun(isSpace, run, steps) && n < |run| && run[n].changes < U64
    requires worker < |run[n].caches| && !run[n].inFlight
    requires Holds(run[n].caches[worker], run[n].store.generation, actor)
    ensures var store, cache := run[n].store, run[n].caches[worker];
            && cache.actors[actor].policy == PolicyOf(store, actor)
            && cache.actors[actor].byRoot == ByRoot(isSpace, GrantsOf(store, actor))
            && cache.defaultDeny == store.defaultDeny && cache.enforceReads == store.enforceReads
  {
    hide Init, Next;
    RunKeepsInv(isSpace, run, steps, n);
    assert CacheExact(isSpace, run[n], run[n].caches[worker]);
  }

  /** A check that began with no change in flight and was answered before the next one
      began answers, at every path, what the scan over the stored grants decides. */
  lemma ChecksAreExact(isSpace: char -> bool, run: seq<State>, steps: seq<Step>, n: nat, i: nat)
    requires IsRun(isSpace, run, steps) && n < |run| && run[n].changes < U64
    requires i < |run[n].checks| && run[n].checks[i].phase.Answered?
    requires run[n].checks[i].quiet == Some(run[n].changes) && !run[n].inFlight
    ensures run[n].checks[i].phase.answer == Uncached(isSpace, run[n].store, run[n].checks[i].query)
    ensures match run[n].checks[i].query
            case May(actor, path) =>
              && run[n].checks[i].phase.answer.Allowed?
              && RightfulPerms(isSpace, run[n].store, actor, path, run[n].checks[i].phase.answer.perms)
            case Switches =>
              run[n].checks[i].phase.answer == Switched(run[n].store.defaultDeny, run[n].store.enforceReads)
  {
    RunKeepsInv(isSpace, run, steps, n);
    assert CheckExact(isSpace, run[n], run[n].checks[i]);
    SwitchesAsStored(isSpace, run[n].store);
    hide Init, Next, Uncached, RightfulPerms;
    match run[n].checks[i].query
    case May(actor, path) => UncachedIsRightful(isSpace, run[n].store, actor, path);
    case Switches =>
  }

  lemma SwitchesAsStored(isSpace: char -> bool, store: Store)
    ensures Uncached(isSpace, store, Switches) == Switched(store.defaultDeny, store.enforceReads)
  {
  }

  /** The uncached answer, told by the scan. */
  lemma UncachedScans(isSpace: char -> bool, store: Store, actor: int, path: string)
    ensures Uncached(isSpace, store, May(actor, path))
         == match Scan(isSpace, GrantsOf(store, actor), path)
            case Some(best) => Allowed(best.perms)
            case None => Allowed(if store.defaultDeny then NONE else FromPolicy(PolicyOf(store, actor)))
  {
    hide Matched, Scan, ByRoot;
    WalkIsScan(isSpace, GrantsOf(store, actor), path);
  }

  // ----- building runs

  lemma Extend(isSpace: char -> bool, run: seq<State>, steps: seq<Step>, s: State, step: Step)
    returns (run': seq<State>, steps': seq<Step>)
    requires IsRun(isSpace, run, steps) && Next(isSpace, run[|run|-1], s, step)
    ensures IsRun(isSpace, run', steps') && run' == run + [s] && run'[|run'|-1] == s && steps' == steps + [step]
  {
    hide Next, Init;
    run', steps' := run + [s], steps + [step];
    forall k | 0 <= k < |steps'| ensures Takes(isSpace, run', steps', k) {
      if k < |steps| {
        assert Takes(isSpace, run, steps, k);
      }
    }
  }

  /** One worker with nothing cached over an empty store begins a check of actor 0, tags it
      and misses. */
  lemma Misses(isSpace: char -> bool) returns (run: seq<State>, steps: seq<Step>)
    ensures IsRun(isSpace, run, steps) && run != [] && run[|run|-1] == Missed()
    ensures forall s | s in run :: s.store == EMPTY
  {
    hide IsRun, ByRoot, Matched;
    var query := May(0, "/");
    var check := CheckRun(0, query, Some(0), Waiting);
    var s0 := State(EMPTY, false, 0, [Contents(None, false, false, map[])], []);
    var s1 := s0.(checks := [check]);
    StartsRun(isSpace, s0);
    run, steps := [s0], [];
    assert [] + [check] == [check];
    run, steps := Extend(isSpace, run, steps, s1, Begin(0, query));
    run, steps := Extend(isSpace, run, steps, At(s1, 0, Tagged(0)), Move(0));
    run, steps := Extend(isSpace, run, steps, Missed(), Move(0));
  }

  const EMPTY := Store(map[], map[], false, false, 0)

  function Missed(): State {
    State(EMPTY, false, 0, [Contents(None, false, false, map[])],
          [CheckRun(0, May(0, "/"), Some(0), Loading(0, Rows(None, None, None, None)))])
  }

  lemma StartsRun(isSpace: char -> bool, s: State)
    requires Init(s)
    ensures IsRun(isSpace, [s], [])
  {
  }

  // ----- the counter wraps

  /** A worker that cached actor 0's rights at generation zero, when its policy was direct
      and it had no grants; it has none still. */
  ghost predicate CachedDirect(isSpace: char -> bool, s: State) {
    && |s.caches| == 1 && Holds(s.caches[0], 0, 0) && !s.caches[0].defaultDeny
    && s.caches[0].actors[0] == ActorAcl(ByRoot(isSpace, []), Direct)
    && GrantsOf(s.store, 0) == [] && !s.store.defaultDeny
  }

  /** One check of actor 0 by one worker, from an empty store. */
  lemma LoadedOnce(isSpace: char -> bool) returns (run: seq<State>, steps: seq<Step>)
    ensures IsRun(isSpace, run, steps) && run != []
    ensures var s := run[|run|-1];
      CachedDirect(isSpace, s) && !s.inFlight && s.changes == 0 && s.store.generation == 0
  {
    hide IsRun, ByRoot, Matched;
    var s, r1 := Missed(), Rows(Some([]), None, None, None);
    var r2 := r1.(policy := Some(Direct));
    var r3 := r2.(deny := Some(false));
    var r4 := r3.(reads_ := Some(false));
    run, steps := Misses(isSpace);
    run, steps := Extend(isSpace, run, steps, At(s, 0, Loading(0, r1)), Move(0));
    run, steps := Extend(isSpace, run, steps, At(s, 0, Loading(0, r2)), Move(0));
    run, steps := Extend(isSpace, run, steps, At(s, 0, Loading(0, r3)), Move(0));
    run, steps := Extend(isSpace, run, steps, At(s, 0, Loading(0, r4)), Move(0));
    var last := At(s, 0, Answered(FromRows(isSpace, s.checks[0].query, r4)))
      .(caches := [Loaded(isSpace, s.caches[0], 0, s.checks[0].query, r4)]);
    run, steps := Extend(isSpace, run, steps, last, Move(0));
  }

  /** A change to the policy of actor 0, row and bump, leaves what is cached alone. */
  lemma OneChange(isSpace: char -> bool, s: State) returns (written: State, bumped: State)
    requires CachedDirect(isSpace, s) && !s.inFlight && s.store.generation == s.changes % U64
    ensures Next(isSpace, s, written, WriteRow(SetPolicy(0, Propose))) && Next(isSpace, written, bumped, Bump)
    ensures CachedDirect(isSpace, bumped) && !bumped.inFlight && bumped.changes == s.changes + 1
    ensures bumped.store.generation == bumped.changes % U64 && PolicyOf(bumped.store, 0) == Propose
  {
    hide ByRoot, Matched, Moves, Holds;
    written := s.(store := Written(s.store, SetPolicy(0, Propose)), inFlight := true);
    bumped := written.(store := written.store.(generation := (written.store.generation + 1) % U64),
                       inFlight := false, changes := written.changes + 1);
  }

  /** `n` more changes, none touching what is cached; the first takes the direct policy away. */
  lemma {:induction false} ChangesOn(isSpace: char -> bool, run: seq<State>, steps: seq<Step>, n: nat)
    returns (run': seq<State>, steps': seq<Step>)
    requires IsRun(isSpace, run, steps) && CachedDirect(isSpace, run[|run|-1]) && !run[|run|-1].inFlight
    requires run[|run|-1].store.generation == run[|run|-1].changes % U64
    ensures IsRun(isSpace, run', steps') && run' != []
    ensures var s, s' := run[|run|-1], run'[|run'|-1];
      && CachedDirect(isSpace, s') && !s'.inFlight && s'.changes == s.changes + n
      && s'.store.generation == s'.changes % U64
      && (n > 0 ==> PolicyOf(s'.store, 0) == Propose)
    decreases n
  {
    run', steps' := run, steps;
    assert run' != [];
    hide IsRun, Next, CachedDirect, PolicyOf;
    if n == 0 {
    } else {
      run', steps' := ChangesOn(isSpace, run, steps, n - 1);
      var written, bumped := OneChange(isSpace, run'[|run'|-1]);
      run', steps' := Extend(isSpace, run', steps', written, WriteRow(SetPolicy(0, Propose)));
      run', steps' := Extend(isSpace, run', steps', bumped, Bump);
    }
  }

  /** An actor without grants is answered from its policy, where nothing denies by default. */
  lemma WithoutGrants(isSpace: char -> bool, store: Store)
    requires GrantsOf(store, 0) == [] && !store.defaultDeny
    ensures Decide(ActorAcl(ByRoot(isSpace, []), PolicyOf(store, 0)), false, "/") == FromPolicy(PolicyOf(store, 0))
    ensures Uncached(isSpace, store, May(0, "/")) == Allowed(FromPolicy(PolicyOf(store, 0)))
  {
    hide ByRoot, Matched;
    UncachedScans(isSpace, store, 0, "/");
  }

  /** A hit on what was loaded under the direct policy, when the policy is another. */
  lemma HitsStale(isSpace: char -> bool, s: State) returns (s1: State, s2: State, s3: State)
    requires CachedDirect(isSpace, s) && PolicyOf(s.store, 0) == Propose && s.store.generation == 0 && !s.inFlight
    ensures Next(isSpace, s, s1, Begin(0, May(0, "/")))
    ensures Next(isSpace, s1, s2, Move(|s.checks|)) && Next(isSpace, s2, s3, Move(|s.checks|))
    ensures s3.store == s.store && s3.changes == s.changes && !s3.inFlight && |s3.checks| == |s.checks| + 1
    ensures var check := s3.checks[|s.checks|];
      && check.query == May(0, "/") && check.quiet == Some(s.changes)
      && check.phase == Answered(Allowed(FromPolicy(Direct)))
  {
    hide ByRoot, Matched, PolicyOf, GrantsOf;
    DirectAnswer(isSpace);
    var i, check := |s.checks|, CheckRun(0, May(0, "/"), Some(s.changes), Waiting);
    s1 := s.(checks := s.checks + [check]);
    assert s1.checks[i] == check;
    s2 := At(s1, i, Tagged(0));
    s3 := At(s2, i, Answered(Allowed(FromPolicy(Direct))));
  }

  lemma DirectAnswer(isSpace: char -> bool)
    ensures Decide(ActorAcl(ByRoot(isSpace, []), Direct), false, "/") == FromPolicy(Direct)
  {
    hide ByRoot, Matched;
    WithoutGrants(isSpace, EMPTY);
  }

  /** The bound on changes is the counter's width. A run of as many changes makes what was
      loaded at zero current again, and a check that overlaps no change then answers from
      it, not as the store would have it. */
  lemma WrapRevivesOldEntries(isSpace: char -> bool) returns (run: seq<State>, steps: seq<Step>)
    ensures IsRun(isSpace, run, steps) && run != []
    ensures var s := run[|run|-1];
      && s.changes == U64 && !s.inFlight && s.checks != []
      && var check := s.checks[|s.checks|-1];
      && check.quiet == Some(s.changes) && check.phase.Answered?
      && check.phase.answer != Uncached(isSpace, s.store, check.query)
  {
    run, steps := LoadedOnce(isSpace);
    hide IsRun, Next, Uncached, CachedDirect;
    run, steps := ChangesOn(isSpace, run, steps, U64);
    var s := run[|run|-1];
    var s1, s2, s3 := HitsStale(isSpace, s);
    run, steps := Extend(isSpace, run, steps, s1, Begin(0, May(0, "/")));
    run, steps := Extend(isSpace, run, steps, s2, Move(|s.checks|));
    run, steps := Extend(isSpace, run, steps, s3, Move(|s.checks|));
    StaleIsWrong(isSpace, s);
  }

  lemma StaleIsWrong(isSpace: char -> bool, s: State)
    requires CachedDirect(isSpace, s) && PolicyOf(s.store, 0) == Propose
    ensures Uncached(isSpace, s.store, May(0, "/")) != Allowed(FromPolicy(Direct))
  {
    hide Uncached, PolicyOf, GrantsOf;
    WithoutGrants(isSpace, s.store);
  }
}
