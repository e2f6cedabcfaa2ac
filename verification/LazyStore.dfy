/**
 The state of a DataStore around its pipeline: the versioned cache with its checkpoints, the SQL
 source made on demand, and copies.
 */
module LazyStore {
  import opened Common
  import opened Pipeline

  // ----- the cache -----

  /** The fields of a DataStore that decide what it answers. */
  datatype Store = Store(
    sourceDf: Option<Frame>,    // _source_df
    table: Option<Frame>,       // the rows behind _table_function or table_name
    ops: seq<Op>,               // _lazy_ops
    cached: Option<Frame>, version: int, cachedAt: int, timestamp: Option<real>)

  datatype Config = Config(enabled: bool, ttl: real)

  /** `_is_cache_valid`. */
  predicate CacheValid(s: Store, cfg: Config, now: real) {
    && cfg.enabled
    && s.cached.Some?
    && s.cachedAt == s.version
    && !(cfg.ttl > 0.0 && s.timestamp.Some? && now - s.timestamp.value > cfg.ttl)
  }

  function Segments(s: Store): seq<Segment> {
    Plan(s.ops, s.table.Some? || s.sourceDf.Some?)
  }

  predicate HasPandas(segs: seq<Segment>) {
    exists k :: 0 <= k < |segs| && segs[k].engine.Pandas?
  }

  function SqlCount(segs: seq<Segment>): nat {
    if segs == [] then 0 else SqlCount(segs[..|segs| - 1]) + if segs[|segs| - 1].engine.Sql? then 1 else 0
  }

  predicate NeedsCheckpoint(segs: seq<Segment>) {
    HasPandas(segs) || SqlCount(segs) > 1
  }

  /** The store after `_execute`, and the frame it returns. */
  function Executed(s: Store, cfg: Config, now: real): (Store, Frame) {
    if CacheValid(s, cfg, now) then (s, s.cached.value)
    else
      var df := RunAll(Segments(s), s.table);
      if !cfg.enabled then (s, df)
      else
        var written := s.(cached := Some(df), timestamp := Some(now), version := 0, cachedAt := 0);
        (if NeedsCheckpoint(Segments(s)) then written.(ops := [Source(df)], table := None) else written, df)
  }

  function WithOp(s: Store, op: Op): Store {
    s.(ops := s.ops + [op], version := s.version + 1)
  }

  function Cleared(s: Store): Store {
    s.(cached := None, cachedAt := -1, timestamp := None)
  }

  /** `insert` of a column: executes, then makes the changed frame the source, the cache and the pipeline. */
  function Inserted(s: Store, cfg: Config, now: real, change: Frame -> Frame): Store {
    var (executed, df) := Executed(s, cfg, now);
    executed.(sourceDf := Some(change(df)), cached := Some(change(df)), ops := [Source(change(df))])
  }

  function Steps(ops: seq<Op>): seq<Op> {
    if ops == [] then [] else Steps(ops[..|ops| - 1]) + if ops[|ops| - 1].Source? then [] else [ops[|ops| - 1]]
  }

  /** `_ensure_sql_source` when the columns are those of the source frame. */
  function SqlSourceEnsured(s: Store): Store {
    if s.table.Some? || s.sourceDf.None? then s
    else s.(table := s.sourceDf, ops := Steps(s.ops))
  }

  // ----- whole runs -----

  datatype Event =
    | AddOp(op: Op)
    | Execute(now: real)
    | ClearCache
    | InsertColumn(at: real, change: Frame -> Frame)
    | EnsureSqlSource
    | SetEnabled(b: bool)
    | SetTtl(t: real)

  datatype World = World(store: Store, config: Config)

  function Next(w: World, ev: Event): World {
    match ev
    case AddOp(op) => w.(store := WithOp(w.store, op))
    case Execute(now) => w.(store := Executed(w.store, w.config, now).0)
    case ClearCache => w.(store := Cleared(w.store))
    case InsertColumn(now, change) => w.(store := Inserted(w.store, w.config, now, change))
    case EnsureSqlSource => w.(store := SqlSourceEnsured(w.store))
    case SetEnabled(b) => w.(config := w.config.(enabled := b))
    case SetTtl(t) => w.(config := w.config.(ttl := t))
  }

  function After(w: World, evs: seq<Event>): World {
    if evs == [] then w else Next(After(w, evs[..|evs| - 1]), evs[|evs| - 1])
  }

  /** What the user has asked for so far: only recorded operations and column inserts change it. */
  function Intended(m: Frame, evs: seq<Event>): Frame {
    if evs == [] then m
    else
      var before := Intended(m, evs[..|evs| - 1]);
      match evs[|evs| - 1]
      case AddOp(op) => Perform(op, before)
      case InsertColumn(_, change) => change(before)
      case _ => before
  }

  /** The store's own account of itself: its pipeline denotes `m`, and so does a current cache. */
  ghost predicate Coherent(s: Store, m: Frame) {
    && Denote(s.ops, Base(s.table)) == m
    && 0 <= s.version && s.cachedAt <= s.version
    && (s.cached.Some? && s.cachedAt == s.version ==> s.cached.value == m)
    && (s.table.None? && s.sourceDf.Some? ==> s.ops != [] && s.ops[0].Source?)
  }

  /** The two guards: an executed plan hands over no empty frame that the next segment mistakes, and a dropped source is the source frame. */
  ghost predicate Fine(w: World, ev: Event) {
    match ev
    case Execute(now) => ExecutesFine(w, now)
    case InsertColumn(now, _) => ExecutesFine(w, now)
    case EnsureSqlSource => w.store.table.None? && w.store.sourceDf.Some? ==> OnlySourceFrame(w.store.ops, w.store.sourceDf.value)
    case _ => true
  }

  ghost predicate ExecutesFine(w: World, now: real) {
    CacheValid(w.store, w.config, now) || NoEmptyHandoff(Segments(w.store), w.store.table)
  }

  /** The pipeline starts from `df` and from nothing else. */
  predicate OnlySourceFrame(ops: seq<Op>, df: Frame) {
    ops != [] && ops[0] == Source(df) && forall k :: 1 <= k < |ops| ==> !ops[k].Source?
  }

  ghost predicate AllFine(w: World, evs: seq<Event>) {
    evs == [] || (AllFine(w, evs[..|evs| - 1]) && Fine(After(w, evs[..|evs| - 1]), evs[|evs| - 1]))
  }

  /** A plan over a coherent store computes what the pipeline denotes. */
  lemma ExecutionIsDenote(s: Store, m: Frame)
    requires Coherent(s, m) && NoEmptyHandoff(Segments(s), s.table)
    ensures RunAll(Segments(s), s.table) == m
  {
    PlanConserves(s.ops, s.table.Some? || s.sourceDf.Some?);
    RunIsDenote(Segments(s), s.table);
  }

  lemma ExecutedCoherent(s: Store, cfg: Config, now: real, m: Frame)
    requires Coherent(s, m)
    requires CacheValid(s, cfg, now) || NoEmptyHandoff(Segments(s), s.table)
    ensures Executed(s, cfg, now).1 == m
    ensures Coherent(Executed(s, cfg, now).0, m)
  {
    hide NeedsCheckpoint, RunAll, Plan, NoEmptyHandoff;
    if !CacheValid(s, cfg, now) {
      ExecutionIsDenote(s, m);
      DenoteOne(Source(m), NO_FRAME);
    }
  }

  lemma {:induction false} StepsWithoutSource(ops: seq<Op>, df: Frame)
    requires OnlySourceFrame(ops, df)
    ensures Denote(ops, NO_FRAME) == Denote(Steps(ops), df)
  {
    var init, last := ops[..|ops| - 1], ops[|ops| - 1];
    if init == [] {
      assert ops == [Source(df)];
      DenoteOne(Source(df), NO_FRAME);
      assert Steps(ops) == Steps([]) + [];
    } else {
      StepsWithoutSource(init, df);
      assert Steps(ops)[..|Steps(ops)| - 1] == Steps(init);
    }
  }

  lemma AddOpCoherent(s: Store, m: Frame, op: Op)
    requires Coherent(s, m)
    ensures Coherent(WithOp(s, op), Perform(op, m))
  {
    assert (s.ops + [op])[..|s.ops|] == s.ops;
  }

  lemma InsertedCoherent(s: Store, cfg: Config, now: real, change: Frame -> Frame, m: Frame)
    requires Coherent(s, m)
    requires CacheValid(s, cfg, now) || NoEmptyHandoff(Segments(s), s.table)
    ensures Coherent(Inserted(s, cfg, now, change), change(m))
  {
    hide NoEmptyHandoff, Executed, Segments, Denote;
    ExecutedCoherent(s, cfg, now, m);
    DenoteOne(Source(change(m)), Base(Executed(s, cfg, now).0.table));
  }

  lemma EnsuredCoherent(s: Store, m: Frame)
    requires Coherent(s, m)
    requires s.table.None? && s.sourceDf.Some? ==> OnlySourceFrame(s.ops, s.sourceDf.value)
    ensures Coherent(SqlSourceEnsured(s), m)
  {
    if s.table.None? && s.sourceDf.Some? {
      StepsWithoutSource(s.ops, s.sourceDf.value);
    }
  }

  lemma ClearedCoherent(s: Store, m: Frame)
    requires Coherent(s, m)
    ensures Coherent(Cleared(s), m)
  {
  }

  /** Every event keeps the store coherent with what was asked for, and an execution returns it. */
  lemma StepCoherent(w: World, m: Frame, ev: Event)
    requires Coherent(w.store, m) && Fine(w, ev)
    ensures Coherent(Next(w, ev).store, Intended(m, [ev]))
    ensures ev.Execute? ==> Executed(w.store, w.config, ev.now).1 == m
  {
    hide NoEmptyHandoff, Executed, Segments, Coherent, Inserted, SqlSourceEnsured, Cleared, WithOp, OnlySourceFrame;
    assert Intended(m, [ev][..0]) == m;
    match ev
    case AddOp(op) => AddOpCoherent(w.store, m, op);
    case Execute(now) => ExecutedCoherent(w.store, w.config, now, m);
    case ClearCache => ClearedCoherent(w.store, m);
    case InsertColumn(now, change) => InsertedCoherent(w.store, w.config, now, change, m);
    case EnsureSqlSource => EnsuredCoherent(w.store, m);
    case _ =>
  }

  /**
   Over every run, each execution returns exactly the meaning of all operations recorded so far,
   through cache hits, version resets, expiry and checkpoints that replace the pipeline.
   */
  lemma {:induction false} RunCoherent(w: World, m: Frame, evs: seq<Event>)
    requires Coherent(w.store, m) && AllFine(w, evs)
    ensures Coherent(After(w, evs).store, Intended(m, evs))
    ensures forall k :: 0 <= k < |evs| && evs[k].Execute? ==>
      Executed(After(w, evs[..k]).store, After(w, evs[..k]).config, evs[k].now).1 == Intended(m, evs[..k])
    decreases |evs|
  {
    hide Coherent, Fine, Executed, Next;
    if evs != [] {
      var n := |evs| - 1;
      var init, last := evs[..n], evs[n];
      RunCoherent(w, m, init);
      assert forall k :: 0 <= k <= n ==> init[..k] == evs[..k];
      assert forall k :: 0 <= k < n ==> init[k] == evs[k];
      StepCoherent(After(w, init), Intended(m, init), last);
      IntendedLast(m, init, last);
      assert init + [last] == evs;
    }
  }

  // ----- when the cache is used -----

  predicate Settling(ev: Event) {
    ev.AddOp? || ev.SetEnabled? || ev.SetTtl?
  }

  function Added(evs: seq<Event>): nat {
    if evs == [] then 0 else Added(evs[..|evs| - 1]) + if evs[|evs| - 1].AddOp? then 1 else 0
  }

  lemma {:induction false} KeptSince(w: World, t: real, evs: seq<Event>)
    requires w.config.enabled && !CacheValid(w.store, w.config, t)
    requires forall k :: 0 <= k < |evs| ==> Settling(evs[k])
    ensures var s := After(Next(w, Execute(t)), evs).store;
            s.cached.Some? && s.timestamp == Some(t) && s.cachedAt == 0 && s.version == Added(evs)
  {
    hide Segments, RunAll, NeedsCheckpoint;
    if evs != [] {
      KeptSince(w, t, evs[..|evs| - 1]);
    }
  }

  /**
   A result written at `t` is used again exactly when caching is on, nothing has been recorded
   since, and the TTL in force, if any, has not run out; toggling the settings in between and back
   does not lose it.
   */
  lemma HitExactlyWhen(w: World, t: real, evs: seq<Event>, now: real)
    requires w.config.enabled && !CacheValid(w.store, w.config, t)
    requires forall k :: 0 <= k < |evs| ==> Settling(evs[k])
    ensures var later := After(Next(w, Execute(t)), evs);
            CacheValid(later.store, later.config, now) <==>
            && later.config.enabled
            && (forall k :: 0 <= k < |evs| ==> !evs[k].AddOp?)
            && (later.config.ttl <= 0.0 || now - t <= later.config.ttl)
  {
    hide Next, After;
    KeptSince(w, t, evs);
    NoneAdded(evs);
  }

  lemma {:induction false} NoneAdded(evs: seq<Event>)
    ensures Added(evs) == 0 <==> forall k :: 0 <= k < |evs| ==> !evs[k].AddOp?
  {
    if evs != [] {
      NoneAdded(evs[..|evs| - 1]);
    }
  }

  lemma IntendedLast(m: Frame, init: seq<Event>, last: Event)
    ensures Intended(m, init + [last]) == Intended(Intended(m, init), [last])
  {
    assert (init + [last])[..|init|] == init && [last][..0] == [];
  }

  /** Nothing is answered from the cache after `clear_cache`, until the next execution, whatever the settings and the time. */
  lemma {:induction false} NoHitAfterClear(w: World, evs: seq<Event>, cfg: Config, now: real)
    requires forall k :: 0 <= k < |evs| ==> Settling(evs[k])
    ensures !CacheValid(After(Next(w, ClearCache), evs).store, cfg, now)
  {
    NothingCached(Next(w, ClearCache), evs);
  }

  lemma {:induction false} NothingCached(w: World, evs: seq<Event>)
    requires w.store.cached.None? && forall k :: 0 <= k < |evs| ==> Settling(evs[k])
    ensures After(w, evs).store.cached.None?
  {
    if evs != [] {
      NothingCached(w, evs[..|evs| - 1]);
    }
  }

  /** A column insert leaves its frame in the cache exactly when caching is on. */
  lemma InsertedIsCached(s: Store, cfg: Config, now: real, change: Frame -> Frame)
    ensures CacheValid(Inserted(s, cfg, now, change), cfg, now) <==> cfg.enabled
  {
    hide RunAll, Segments, NeedsCheckpoint;
  }

  // ----- what an execution changes -----

  lemma {:induction false} AllSql(segs: seq<Segment>)
    ensures SqlCount(segs) <= |segs|
    ensures !HasPandas(segs) ==> SqlCount(segs) == |segs|
  {
    if segs != [] {
      var init := segs[..|segs| - 1];
      AllSql(init);
      PandasSoFar(segs, |init|);
      assert segs[..|segs|] == segs;
    }
  }

  lemma OneSegment(seg: Segment)
    ensures NeedsCheckpoint([seg]) <==> seg.engine == Pandas
  {
    var segs := [seg];
    AllSql(segs);
    assert segs[0] == seg;
  }

  /** A plan needs a checkpoint exactly when it is not one SQL query. */
  lemma CheckpointIsNotOneQuery(ops: seq<Op>, hasSqlSource: bool)
    ensures NeedsCheckpoint(Plan(ops, hasSqlSource)) <==> ops != [] && Plan(ops, hasSqlSource) != [Segment(Sql, ops)]
  {
    hide Plan;
    var segs := Plan(ops, hasSqlSource);
    if ops == [] {
      assert segs == (if hasSqlSource then [Segment(Sql, [])] else []) by { EmptyPlan(hasSqlSource); }
      OneSegment(Segment(Sql, []));
    } else {
      PlanExactly(segs, ops, hasSqlSource);
      PlanNotEmpty(segs, ops);
      AllSql(segs);
      OneSegment(Segment(Sql, ops));
      if |segs| == 1 {
        OpsOfSnoc([], segs[0]);
        assert [] + [segs[0]] == segs;
        assert segs[0].ops == ops;
        OneSegment(segs[0]);
      }
    }
  }

  lemma EmptyPlan(hasSqlSource: bool)
    ensures Plan([], hasSqlSource) == if hasSqlSource then [Segment(Sql, [])] else []
  {
  }

  /**
   A checkpoint replaces the pipeline by the result exactly when the cache is on, was no use and the
   pipeline is not a single SQL query; else the pipeline and its table stay.  The frame given by the
   user is never touched.
   */
  lemma CheckpointExactlyWhen(s: Store, cfg: Config, now: real)
    ensures var (after, df) := Executed(s, cfg, now);
            && after.sourceDf == s.sourceDf
            && if cfg.enabled && !CacheValid(s, cfg, now) &&
                  exists j :: 0 <= j < |s.ops| && (EngineOf(s.ops[j]) == Pandas || Clashes(s.ops[j], s.ops[..j]))
               then after.ops == [Source(df)] && after.table == None
               else after.ops == s.ops && after.table == s.table
  {
    hide Plan, RunAll, Clashes, EngineOf;
    CheckpointIsNotOneQuery(s.ops, s.table.Some? || s.sourceDf.Some?);
    if s.ops != [] {
      OneQueryExactlyWhen(s.ops, s.table.Some? || s.sourceDf.Some?);
    }
  }

  // ----- the stale source frame -----

  /**
   The guard of `_ensure_sql_source` is exact: replacing the recorded source `df` by the stored
   source frame keeps every pipeline that can follow if and only if the two frames are equal.
   */
  lemma EnsureRightExactlyWhen(df: Frame, sourceDf: Frame)
    ensures df == sourceDf <==>
            forall rest: seq<Op> :: NoSource(rest) ==>
              Denote([Source(df)] + rest, NO_FRAME) == Denote(Steps([Source(df)] + rest), sourceDf)
  {
    forall rest: seq<Op> | NoSource(rest)
      ensures Denote([Source(df)] + rest, NO_FRAME) == Denote(rest, df)
      ensures Steps([Source(df)] + rest) == rest
    {
      StepsBehindSource(df, rest);
      DenoteConcat([Source(df)], rest, NO_FRAME);
      DenoteOne(Source(df), NO_FRAME);
    }
    assert Denote([], df) == df && Denote([], sourceDf) == sourceDf && NoSource([]);
  }

  ghost predicate NoSource(ops: seq<Op>) {
    forall i :: 0 <= i < |ops| ==> !ops[i].Source?
  }

  lemma {:induction false} StepsBehindSource(df: Frame, rest: seq<Op>)
    requires NoSource(rest)
    ensures Steps([Source(df)] + rest) == rest
  {
    var ops := [Source(df)] + rest;
    if rest == [] {
      assert ops == [Source(df)] && ops[..0] == [];
    } else {
      var init := rest[..|rest| - 1];
      assert forall i :: 0 <= i < |init| ==> init[i] == rest[i];
      StepsBehindSource(df, init);
      assert ops[..|ops| - 1] == [Source(df)] + init;
    }
  }

  /** `from_df`: the frame is both the stored source and the first operation. */
  function StoreFromDf(df: Frame): Store {
    Store(Some(df), None, [Source(df)], None, 0, -1, None)
  }

  /** A store over a file, table or table function. */
  function StoreFromTable(df: Frame): Store {
    Store(None, Some(df), [], None, 0, -1, None)
  }

  /** A new store is coherent with its frame, so `RunCoherent` applies to everything that follows. */
  lemma NewStoreCoherent(df: Frame)
    ensures Coherent(StoreFromDf(df), df) && Coherent(StoreFromTable(df), df)
  {
    DenoteOne(Source(df), NO_FRAME);
  }

  /** A checkpoint never refreshes the stored source frame: what it saved is dropped by the next SQL source. */
  lemma CheckpointDroppedBySqlSource(df: Frame, now: real)
    requires !df.Empty()
    ensures var w := World(StoreFromDf(df), Config(true, 0.0));
            var saved := Next(Next(w, AddOp(Step(Pandas, None, {}, false, DropRows))), Execute(now));
            var lost := Next(saved, EnsureSqlSource).store;
            && Coherent(saved.store, DropRows(df)) && !Fine(saved, EnsureSqlSource)
            && Denote(lost.ops, Base(lost.table)) == df != DropRows(df)
  {
    var w, op := World(StoreFromDf(df), Config(true, 0.0)), Step(Pandas, None, {}, false, DropRows);
    NewStoreCoherent(df);
    AddOpCoherent(StoreFromDf(df), df, op);
    var s := WithOp(StoreFromDf(df), op);
    PandasPlan(df, op);
    assert s.ops == [Source(df), op];
    assert Segments(s) == [Segment(Pandas, [Source(df), op])];
    assert NoEmptyHandoff(Segments(s), s.table);
    ExecutedCoherent(s, w.config, now, DropRows(df));
    var saved := Next(Next(w, AddOp(op)), Execute(now));
    assert saved.store.ops == [Source(DropRows(df))] && saved.store.table == None && saved.store.sourceDf == Some(df);
    assert [Source(DropRows(df))][..0] == [];
    assert Steps(saved.store.ops) == [];
  }

  /** The group-by of an empty frame, as a run: its execution is not fine and gives the frame back. */
  lemma EmptyGroupByAnswer(aggregate: Frame -> Frame, now: real)
    requires aggregate(Frame(["a", "b"], [])) != Frame(["a", "b"], [])
    ensures var df := Frame(["a", "b"], []);
            var w := Next(World(StoreFromDf(df), Config(true, 0.0)), AddOp(Step(Sql, None, {}, false, aggregate)));
            && Coherent(w.store, aggregate(df)) && !Fine(w, Execute(now))
            && Executed(w.store, w.config, now).1 == df
  {
    hide Plan, RunAll;
    var df, op := Frame(["a", "b"], []), Step(Sql, None, {}, false, aggregate);
    NewStoreCoherent(df);
    AddOpCoherent(StoreFromDf(df), df, op);
    EmptyGroupByGoesWrong(aggregate);
    var s := WithOp(StoreFromDf(df), op);
    assert s.ops == [Source(df), op];
    if NoEmptyHandoff(Segments(s), s.table) {
      ExecutionIsDenote(s, aggregate(df));
    }
  }

  lemma PandasPlan(df: Frame, op: Op)
    requires op.Step? && op.engine.Pandas?
    ensures Plan([Source(df), op], true) == [Segment(Pandas, [Source(df), op])]
    ensures NeedsCheckpoint(Plan([Source(df), op], true))
  {
    var ops := [Source(df), op];
    assert ops[..1] == [Source(df)] && [Source(df)][..0] == [];
    assert Planned([Source(df)]) == Planner([], Segment(Pandas, [Source(df)]), {});
    assert [Source(df)] + [op] == ops;
    assert Plan(ops, true)[0].engine.Pandas?;
  }

  // ----- runs that need no condition -----

  /** A SQL operation that assigns no column. */
  predicate PlainSql(op: Op) {
    op.SelectNames? || (op.Step? && op.engine == Sql && op.column == None)
  }

  ghost predicate PlainEvent(ev: Event) {
    (ev.AddOp? && PlainSql(ev.op)) || ev.Execute? || ev.ClearCache? || ev.SetEnabled? || ev.SetTtl?
  }

  ghost predicate PlainStore(s: Store, table: Frame) {
    s.table == Some(table) && forall i :: 0 <= i < |s.ops| ==> PlainSql(s.ops[i])
  }

  lemma PlainExecutes(s: Store, cfg: Config, now: real, table: Frame)
    requires PlainStore(s, table)
    ensures Segments(s) == [Segment(Sql, s.ops)] && NoEmptyHandoff(Segments(s), s.table)
    ensures PlainStore(Executed(s, cfg, now).0, table)
  {
    hide RunAll, Plan;
    if s.ops == [] {
      EmptyPlan(true);
    } else {
      PureSqlIsDenote(s.ops, table);
    }
    OneSegment(Segment(Sql, s.ops));
    var segs := Segments(s);
    assert segs[..0] == [] && Handoff(segs, s.table, 0) == table;
  }

  lemma PlainStep(w: World, table: Frame, ev: Event)
    requires PlainStore(w.store, table) && PlainEvent(ev)
    ensures Fine(w, ev) && PlainStore(Next(w, ev).store, table)
  {
    hide NoEmptyHandoff, Executed, Segments;
    if ev.Execute? {
      PlainExecutes(w.store, w.config, ev.now, table);
    }
  }

  lemma {:induction false} PlainRun(w: World, table: Frame, evs: seq<Event>)
    requires PlainStore(w.store, table) && forall k :: 0 <= k < |evs| ==> PlainEvent(evs[k])
    ensures AllFine(w, evs) && PlainStore(After(w, evs).store, table)
  {
    hide Fine, Next, PlainStore;
    if evs != [] {
      PlainRun(w, table, evs[..|evs| - 1]);
      PlainStep(After(w, evs[..|evs| - 1]), table, evs[|evs| - 1]);
    }
  }

  /**
   Over a table, with SQL operations that assign no column, every execution of every run returns the
   meaning of everything recorded so far: no condition is left.
   */
  lemma PlainRunCoherent(table: Frame, cfg: Config, evs: seq<Event>, k: nat)
    requires forall i :: 0 <= i < |evs| ==> PlainEvent(evs[i])
    requires k < |evs| && evs[k].Execute?
    ensures var w := After(World(StoreFromTable(table), cfg), evs[..k]);
            Executed(w.store, w.config, evs[k].now).1 == Intended(table, evs[..k])
  {
    hide Executed, Coherent, After, Intended;
    var w := World(StoreFromTable(table), cfg);
    NewStoreCoherent(table);
    PlainRun(w, table, evs);
    RunCoherent(w, table, evs);
  }

  /** A column insert refreshes the stored source frame, so an SQL source made after it is the right one. */
  lemma InsertThenSqlSource(w: World, now: real, change: Frame -> Frame)
    ensures Fine(Next(w, InsertColumn(now, change)), EnsureSqlSource)
  {
    hide Executed;
  }

  /** An answer from the cache needs no condition either. */
  lemma CachedIsFine(w: World, now: real, change: Frame -> Frame)
    requires CacheValid(w.store, w.config, now)
    ensures Fine(w, Execute(now)) && Fine(w, InsertColumn(now, change))
  {
  }

  // ----- a store and its copy -----

  datatype Who = Original | TheCopy

  datatype Directed = To(who: Who, ev: Event)

  /** Two stores under one set of settings. */
  datatype Duo = Duo(original: Store, copy: Store, config: Config)

  function WorldOf(d: Duo, who: Who): World {
    World(if who.Original? then d.original else d.copy, d.config)
  }

  function NextDuo(d: Duo, e: Directed): Duo {
    var w := Next(WorldOf(d, e.who), e.ev);
    if e.who.Original? then Duo(w.store, d.copy, w.config) else Duo(d.original, w.store, w.config)
  }

  function AfterDuo(d: Duo, evs: seq<Directed>): Duo {
    if evs == [] then d else NextDuo(AfterDuo(d, evs[..|evs| - 1]), evs[|evs| - 1])
  }

  /** What an event returns to the caller. */
  function Answer(w: World, ev: Event): Option<Frame> {
    if ev.Execute? then Some(Executed(w.store, w.config, ev.now).1) else None
  }

  function Answers(d: Duo, evs: seq<Directed>): (r: seq<Option<Frame>>)
    ensures |r| == |evs|
  {
    if evs == [] then []
    else
      var init, last := evs[..|evs| - 1], evs[|evs| - 1];
      Answers(d, init) + [Answer(WorldOf(AfterDuo(d, init), last.who), last.ev)]
  }

  /** The events meant for one of the two. */
  function EventsOf(evs: seq<Directed>, who: Who): seq<Event> {
    if evs == [] then []
    else
      var before, last := EventsOf(evs[..|evs| - 1], who), evs[|evs| - 1];
      if last.who == who then before + [last.ev] else before
  }

  ghost predicate DuoFine(d: Duo, evs: seq<Directed>) {
    evs == [] ||
    (var init, last := evs[..|evs| - 1], evs[|evs| - 1];
     DuoFine(d, init) && Fine(WorldOf(AfterDuo(d, init), last.who), last.ev))
  }

  /** One more event keeps both stores coherent, each with what was asked of it. */
  lemma DuoStep(d: Duo, m: Frame, n: Frame, e: Directed)
    requires Coherent(d.original, m) && Coherent(d.copy, n) && Fine(WorldOf(d, e.who), e.ev)
    ensures Coherent(NextDuo(d, e).original, if e.who.Original? then Intended(m, [e.ev]) else m)
    ensures Coherent(NextDuo(d, e).copy, if e.who.TheCopy? then Intended(n, [e.ev]) else n)
    ensures e.ev.Execute? ==> Answer(WorldOf(d, e.who), e.ev) == Some(if e.who.Original? then m else n)
  {
    hide Coherent, Fine, Next, Executed;
    StepCoherent(WorldOf(d, e.who), if e.who.Original? then m else n, e.ev);
  }

  lemma {:induction false} DuoCoherent(d: Duo, m: Frame, evs: seq<Directed>)
    requires Coherent(d.original, m) && d.copy == d.original && DuoFine(d, evs)
    ensures Coherent(AfterDuo(d, evs).original, Intended(m, EventsOf(evs, Original)))
    ensures Coherent(AfterDuo(d, evs).copy, Intended(m, EventsOf(evs, TheCopy)))
  {
    hide Coherent, Fine, NextDuo;
    if evs != [] {
      var init, last := evs[..|evs| - 1], evs[|evs| - 1];
      DuoCoherent(d, m, init);
      DuoStep(AfterDuo(d, init), Intended(m, EventsOf(init, Original)), Intended(m, EventsOf(init, TheCopy)), last);
      IntendedLast(m, EventsOf(init, last.who), last.ev);
    }
  }

  lemma {:induction false} AnswerAt(d: Duo, evs: seq<Directed>, k: nat)
    requires k < |evs|
    ensures Answers(d, evs)[k] == Answer(WorldOf(AfterDuo(d, evs[..k]), evs[k].who), evs[k].ev)
  {
    hide Answer, NextDuo;
    var init := evs[..|evs| - 1];
    if k < |init| {
      AnswerAt(d, init, k);
      assert init[..k] == evs[..k];
    }
  }

  lemma {:induction false} DuoFinePrefix(d: Duo, evs: seq<Directed>, k: nat)
    requires DuoFine(d, evs) && k <= |evs|
    ensures DuoFine(d, evs[..k])
    ensures k < |evs| ==> Fine(WorldOf(AfterDuo(d, evs[..k]), evs[k].who), evs[k].ev)
  {
    hide Fine, NextDuo;
    var init := if evs == [] then [] else evs[..|evs| - 1];
    if k == |evs| {
      assert evs[..k] == evs;
    } else if k < |init| {
      DuoFinePrefix(d, init, k);
      assert init[..k] == evs[..k];
    } else {
      assert evs[..k] == init;
    }
  }

  /**
   Operations on a copy never change the original's answer, nor the other way round: over every
   interleaving under shared settings, each execution returns the meaning of what was recorded on
   its own store.
   */
  lemma CopiesDoNotInterfere(d: Duo, m: Frame, evs: seq<Directed>, k: nat)
    requires Coherent(d.original, m) && d.copy == d.original && DuoFine(d, evs)
    requires k < |evs| && evs[k].ev.Execute?
    ensures Answers(d, evs)[k] == Some(Intended(m, EventsOf(evs[..k], evs[k].who)))
  {
    hide Coherent, Fine, Intended, Answer;
    AnswerAt(d, evs, k);
    DuoFinePrefix(d, evs, k);
    DuoCoherent(d, m, evs[..k]);
    DuoStep(AfterDuo(d, evs[..k]), Intended(m, EventsOf(evs[..k], Original)), Intended(m, EventsOf(evs[..k], TheCopy)), evs[k]);
  }

  // ----- the objects -----

  /** The module-level cache settings of `config.py`. */
  class Settings {
    var enabled: bool
    var ttl: real

    constructor (enabled: bool, ttl: real)
      ensures Value() == Config(enabled, ttl)
    {
      this.enabled, this.ttl := enabled, ttl;
    }

    function Value(): Config
      reads this
    {
      Config(enabled, ttl)
    }
  }

  /** The list object `_lazy_ops`, appended to in place. */
  class OpList {
    var items: seq<Op>

    constructor (items: seq<Op>)
      ensures this.items == items
    {
      this.items := items;
    }
  }

  class DataStore {
    var sourceDf: Option<Frame>
    var table: Option<Frame>
    var lazyOps: OpList
    var cachedResult: Option<Frame>
    var cacheVersion: int
    var cachedAtVersion: int
    var cacheTimestamp: Option<real>

    ghost function Value(): Store
      reads this, lazyOps
    {
      Store(sourceDf, table, lazyOps.items, cachedResult, cacheVersion, cachedAtVersion, cacheTimestamp)
    }

    constructor FromDf(df: Frame)
      ensures Value() == StoreFromDf(df) && fresh(lazyOps)
    {
      sourceDf, table := Some(df), None;
      lazyOps := new OpList([Source(df)]);
      cachedResult, cacheVersion, cachedAtVersion, cacheTimestamp := None, 0, -1, None;
    }

    /** All fields of `other`, and a list of its own. */
    constructor Duplicate(other: DataStore)
      ensures Value() == other.Value() && fresh(lazyOps)
    {
      sourceDf, table := other.sourceDf, other.table;
      lazyOps := new OpList(other.lazyOps.items);
      cachedResult, cacheVersion := other.cachedResult, other.cacheVersion;
      cachedAtVersion, cacheTimestamp := other.cachedAtVersion, other.cacheTimestamp;
    }

    /** `_is_cache_valid`. */
    method IsCacheValid(settings: Settings, now: real) returns (valid: bool)
      ensures valid == CacheValid(Value(), settings.Value(), now)
    {
      if !settings.enabled {
        return false;
      }
      if cachedResult.None? {
        return false;
      }
      if cachedAtVersion != cacheVersion {
        return false;
      }
      if settings.ttl > 0.0 && cacheTimestamp.Some? {
        var age := now - cacheTimestamp.value;
        if age > settings.ttl {
          return false;
        }
      }
      return true;
    }

    /** `_invalidate_cache`. */
    method InvalidateCache()
      modifies this`cacheVersion
      ensures Value() == old(Value()).(version := old(cacheVersion) + 1)
    {
      cacheVersion := cacheVersion + 1;
    }

    /** `clear_cache`. */
    method Clear()
      modifies this`cachedResult, this`cachedAtVersion, this`cacheTimestamp
      ensures Value() == Cleared(old(Value()))
    {
      cachedResult, cachedAtVersion, cacheTimestamp := None, -1, None;
    }

    /** `_add_lazy_op`: appends to the list in place. */
    method AddLazyOp(op: Op)
      modifies this`cacheVersion, lazyOps
      ensures Value() == WithOp(old(Value()), op)
    {
      lazyOps.items := lazyOps.items + [op];
      InvalidateCache();
    }

    /** `_execute`. */
    method Execute(settings: Settings, now: real) returns (df: Frame)
      modifies this
      ensures (Value(), df) == Executed(old(Value()), settings.Value(), now)
      ensures lazyOps == old(lazyOps) || fresh(lazyOps)
    {
      hide Plan, RunSegment, SqlCount;
      var valid := IsCacheValid(settings, now);
      if valid {
        return cachedResult.value;
      }
      var segs := PlanSegments(lazyOps.items, table.Some? || sourceDf.Some?);
      df := NO_FRAME;
      var hasExecutedPandas := false;
      for k := 0 to |segs|
        invariant df == RunAll(segs[..k], table)
        invariant hasExecutedPandas == HasPandas(segs[..k])
        invariant Value() == old(Value()) && lazyOps == old(lazyOps)
      {
        var seg := segs[k];
        assert segs[..k + 1][..k] == segs[..k];
        PandasSoFar(segs, k);
        df := ExecuteSegment(seg, k == 0, df, table);
        if seg.engine.Pandas? {
          hasExecutedPandas := true;
        }
      }
      assert segs[..|segs|] == segs;
      if settings.enabled {
        cachedResult, cacheTimestamp := Some(df), Some(now);
        var needsCheckpoint := hasExecutedPandas || SqlCount(segs) > 1;
        if needsCheckpoint {
          lazyOps := new OpList([Source(df)]);
          table := None;
        }
        cacheVersion, cachedAtVersion := 0, 0;
      }
    }

    /** `insert` in column mode. */
    method Insert(settings: Settings, now: real, change: Frame -> Frame)
      modifies this
      ensures Value() == Inserted(old(Value()), settings.Value(), now, change)
      ensures fresh(lazyOps)
    {
      var df := Execute(settings, now);
      df := change(df);
      sourceDf := Some(df);
      cachedResult := Some(df);
      lazyOps := new OpList([Source(df)]);
    }

    /** `_ensure_sql_source` when the columns are those of the source frame. */
    method EnsureSql()
      modifies this
      ensures Value() == SqlSourceEnsured(old(Value()))
      ensures lazyOps == old(lazyOps) || fresh(lazyOps)
    {
      if table.Some? {
        return;
      }
      if sourceDf.Some? {
        table := sourceDf;
        var ops := lazyOps.items;
        var kept: seq<Op> := [];
        for k := 0 to |ops|
          invariant kept == Steps(ops[..k])
        {
          assert ops[..k + 1][..k] == ops[..k];
          if !ops[k].Source? {
            kept := kept + [ops[k]];
          }
        }
        assert ops[..|ops|] == ops;
        lazyOps := new OpList(kept);
      }
    }

    /** `__copy__`: the copy has a list object of its own. */
    method Copy() returns (copy: DataStore)
      ensures fresh(copy) && fresh(copy.lazyOps) && copy.Value() == Value()
    {
      copy := new DataStore.Duplicate(this);
    }
  }

  lemma PandasSoFar(segs: seq<Segment>, k: nat)
    requires k < |segs|
    ensures HasPandas(segs[..k + 1]) <==> HasPandas(segs[..k]) || segs[k].engine.Pandas?
  {
    if HasPandas(segs[..k]) {
      var j :| 0 <= j < k && segs[..k][j].engine.Pandas?;
      assert segs[..k + 1][j].engine.Pandas?;
    }
    assert segs[..k + 1][k] == segs[k];
    if HasPandas(segs[..k + 1]) && !segs[k].engine.Pandas? {
      var j :| 0 <= j < k + 1 && segs[..k + 1][j].engine.Pandas?;
      assert segs[..k][j].engine.Pandas?;
    }
  }

  /** One event, on the objects; an execution gives an answer. */
  method Handle(ds: DataStore, settings: Settings, ev: Event) returns (answer: Option<Frame>)
    modifies ds, ds.lazyOps, settings
    ensures World(ds.Value(), settings.Value()) == Next(old(World(ds.Value(), settings.Value())), ev)
    ensures answer == Answer(old(World(ds.Value(), settings.Value())), ev)
    ensures ds.lazyOps == old(ds.lazyOps) || fresh(ds.lazyOps)
  {
    hide Executed;
    answer := None;
    match ev {
      case AddOp(op) => ds.AddLazyOp(op);
      case Execute(now) =>
        var df := ds.Execute(settings, now);
        answer := Some(df);
      case ClearCache => ds.Clear();
      case InsertColumn(now, change) => ds.Insert(settings, now, change);
      case EnsureSqlSource => ds.EnsureSql();
      case SetEnabled(b) => settings.enabled := b;
      case SetTtl(t) => settings.ttl := t;
    }
  }

  /**
   A store and its copy, used in any interleaving under the one set of settings, on the heap: they
   go through the states of the two-store machine and give its answers.
   */
  method Interleave(ds: DataStore, settings: Settings, evs: seq<Directed>) returns (copy: DataStore, answers: seq<Option<Frame>>)
    modifies ds, ds.lazyOps, settings
    ensures fresh(copy) && copy.lazyOps != ds.lazyOps
    ensures Duo(ds.Value(), copy.Value(), settings.Value()) ==
            AfterDuo(Duo(old(ds.Value()), old(ds.Value()), old(settings.Value())), evs)
    ensures answers == Answers(Duo(old(ds.Value()), old(ds.Value()), old(settings.Value())), evs)
  {
    hide Next, Answer;
    copy := ds.Copy();
    answers := [];
    ghost var start := Duo(ds.Value(), copy.Value(), settings.Value());
    for k := 0 to |evs|
      invariant fresh(copy) && fresh(copy.lazyOps) && copy.lazyOps != ds.lazyOps
      invariant ds.lazyOps == old(ds.lazyOps) || fresh(ds.lazyOps)
      invariant Duo(ds.Value(), copy.Value(), settings.Value()) == AfterDuo(start, evs[..k])
      invariant answers == Answers(start, evs[..k])
    {
      assert evs[..k + 1][..k] == evs[..k];
      var answer: Option<Frame>;
      if evs[k].who.Original? {
        answer := Handle(ds, settings, evs[k].ev);
      } else {
        answer := Handle(copy, settings, evs[k].ev);
      }
      answers := answers + [answer];
    }
    assert evs[..|evs|] == evs;
  }
}
