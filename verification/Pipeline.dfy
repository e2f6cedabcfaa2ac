/**
 The pipeline of a DataStore: recorded operations, the segment planner and segmented execution.

 An operation is a function on frames; the engines are taken to compute it.  What is modelled is
 everything done around them: which operations go to which engine together, which frame each
 segment starts from, and what becomes of an empty one.
 */
module Pipeline {
  import opened Common

  datatype Frame = Frame(columns: seq<string>, rows: seq<seq<int>>) {
    /** pandas' `df.empty`. */
    predicate Empty() {
      columns == [] || rows == []
    }
  }

  const NO_FRAME: Frame := Frame([], [])

  datatype Engine = Sql | Pandas

  datatype Op =
    | Source(df: Frame)                              // LazyDataFrameSource
    | SelectNames(names: seq<string>)                // SELECT whose fields are all strings
    | Step(engine: Engine, column: Option<string>,   // the column a LazyColumnAssignment sets
           refs: set<string>, computes: bool,        // SELECT with a field that is not a string
           apply: Frame -> Frame)

  function EngineOf(op: Op): Engine {
    match op
    case Source(_) => Pandas
    case SelectNames(_) => Sql
    case Step(engine, _, _, _, _) => engine
  }

  function Existing(names: seq<string>, columns: seq<string>): seq<string> {
    if names == [] then []
    else (if names[0] in columns then [names[0]] else []) + Existing(names[1..], columns)
  }

  /** The value of column `c` in a row. */
  function Cell(columns: seq<string>, row: seq<int>, c: string): int {
    if columns == [] || row == [] then 0
    else if columns[0] == c then row[0]
    else Cell(columns[1..], row[1..], c)
  }

  /** Selecting columns by name: those that exist, everything for `*`, and no change if none exists. */
  function Chosen(names: seq<string>, df: Frame): Frame {
    var found := Existing(names, df.columns);
    if "*" in names || found == [] then df
    else
      Frame(found, seq(|df.rows|, i requires 0 <= i < |df.rows| =>
                         seq(|found|, j requires 0 <= j < |found| => Cell(df.columns, df.rows[i], found[j]))))
  }

  function Perform(op: Op, df: Frame): Frame {
    match op
    case Source(d) => d
    case SelectNames(names) => Chosen(names, df)
    case Step(_, _, _, _, f) => f(df)
  }

  /** The meaning of a list of operations, one after the other. */
  function Denote(ops: seq<Op>, df: Frame): Frame {
    if ops == [] then df else Perform(ops[|ops| - 1], Denote(ops[..|ops| - 1], df))
  }

  lemma DenoteOne(op: Op, df: Frame)
    ensures Denote([op], df) == Perform(op, df)
  {
    assert [op][..0] == [];
  }

  lemma {:induction false} DenoteConcat(a: seq<Op>, b: seq<Op>, df: Frame)
    ensures Denote(a + b, df) == Denote(b, Denote(a, df))
  {
    if b == [] {
      assert a + b == a;
    } else {
      assert (a + b)[..|a + b| - 1] == a + b[..|b| - 1];
      DenoteConcat(a, b[..|b| - 1], df);
    }
  }

  // ----- the segment planner -----

  datatype Segment = Segment(engine: Engine, ops: seq<Op>)

  function OpsOf(segs: seq<Segment>): seq<Op> {
    if segs == [] then [] else OpsOf(segs[..|segs| - 1]) + segs[|segs| - 1].ops
  }

  /** The planner's variables: finished segments, the current one and the columns it assigns. */
  datatype Planner = Planner(done: seq<Segment>, current: Segment, taken: set<string>)

  function ColumnOf(op: Op): set<string> {
    if op.Step? && op.column.Some? then {op.column.value} else {}
  }

  /** A SQL column assignment cannot join a segment that already assigns a column it sets or reads. */
  predicate Conflicts(op: Op, taken: set<string>) {
    op.Step? && op.engine.Sql? && op.column.Some? && (op.column.value in taken || op.refs * taken != {})
  }

  function PlanStep(p: Planner, op: Op): Planner {
    if p.current.ops == [] || EngineOf(op) != p.current.engine || Conflicts(op, p.taken) then
      Planner(if p.current.ops == [] then p.done else p.done + [p.current],
              Segment(EngineOf(op), [op]), ColumnOf(op))
    else
      p.(current := Segment(p.current.engine, p.current.ops + [op]), taken := p.taken + ColumnOf(op))
  }

  function Planned(ops: seq<Op>): Planner {
    if ops == [] then Planner([], Segment(Pandas, []), {})
    else PlanStep(Planned(ops[..|ops| - 1]), ops[|ops| - 1])
  }

  /** The segments of a non-empty list, or the bare read of the source. */
  function Plan(ops: seq<Op>, hasSqlSource: bool): seq<Segment> {
    if ops == [] then if hasSqlSource then [Segment(Sql, [])] else []
    else Planned(ops).done + [Planned(ops).current]
  }

  // ----- what the planner guarantees -----

  lemma OpsOfSnoc(segs: seq<Segment>, seg: Segment)
    ensures OpsOf(segs + [seg]) == OpsOf(segs) + seg.ops
  {
    assert (segs + [seg])[..|segs|] == segs;
  }

  /** `op` is a SQL assignment to, or reading, a column that one of `ops` sets. */
  ghost predicate Clashes(op: Op, ops: seq<Op>) {
    op.Step? && op.engine == Sql && op.column.Some? &&
    exists i :: 0 <= i < |ops| && ops[i].Step? && ops[i].column.Some? &&
                (ops[i].column.value == op.column.value || ops[i].column.value in op.refs)
  }

  /** One engine throughout, and no clash with an earlier operation of the segment. */
  ghost predicate Fits(seg: Segment) {
    && seg.ops != []
    && forall j :: 0 <= j < |seg.ops| ==> EngineOf(seg.ops[j]) == seg.engine && !Clashes(seg.ops[j], seg.ops[..j])
  }

  /** A new segment is begun for a reason: the other engine, or a clash. */
  ghost predicate Parted(a: Segment, b: Segment) {
    b.ops != [] && (a.engine != b.engine || Clashes(b.ops[0], a.ops))
  }

  ghost predicate IsPlan(segs: seq<Segment>, ops: seq<Op>) {
    && OpsOf(segs) == ops
    && (forall k :: 0 <= k < |segs| ==> Fits(segs[k]))
    && (forall k, m :: 0 <= k && m == k + 1 < |segs| ==> Parted(segs[k], segs[m]))
  }

  /** The columns a list of operations sets. */
  function ColumnsOf(ops: seq<Op>): set<string> {
    if ops == [] then {} else ColumnsOf(ops[..|ops| - 1]) + ColumnOf(ops[|ops| - 1])
  }

  lemma {:induction false} ColumnsOfAre(ops: seq<Op>, c: string)
    ensures c in ColumnsOf(ops) <==> exists i :: 0 <= i < |ops| && ops[i].Step? && ops[i].column == Some(c)
  {
    if ops != [] {
      var init, last := ops[..|ops| - 1], ops[|ops| - 1];
      ColumnsOfAre(init, c);
      if i :| 0 <= i < |ops| && ops[i].Step? && ops[i].column == Some(c) {
        assert i < |init| ==> init[i] == ops[i];
      }
      if c in ColumnsOf(init) {
        var i :| 0 <= i < |init| && init[i].Step? && init[i].column == Some(c);
        assert ops[i] == init[i];
      }
      if c in ColumnOf(last) {
        assert ops[|ops| - 1].column == Some(c);
      }
    }
  }

  lemma ClashIsConflict(op: Op, ops: seq<Op>)
    ensures Clashes(op, ops) <==> Conflicts(op, ColumnsOf(ops))
  {
    hide ColumnsOf;
    forall c: string
      ensures c in ColumnsOf(ops) <==> exists i :: 0 <= i < |ops| && ops[i].Step? && ops[i].column == Some(c)
    {
      ColumnsOfAre(ops, c);
    }
    if Clashes(op, ops) {
      var i :| 0 <= i < |ops| && ops[i].Step? && ops[i].column.Some? &&
               (ops[i].column.value == op.column.value || ops[i].column.value in op.refs);
      var c := ops[i].column.value;
      assert c in ColumnsOf(ops);
      assert c in op.refs ==> c in op.refs * ColumnsOf(ops);
    }
    if Conflicts(op, ColumnsOf(ops)) {
      var c :| c in ColumnsOf(ops) && (c == op.column.value || c in op.refs);
      var i :| 0 <= i < |ops| && ops[i].Step? && ops[i].column == Some(c);
    }
  }

  lemma FitsShorter(seg: Segment, op: Op)
    requires seg.ops != [] && Fits(Segment(seg.engine, seg.ops + [op]))
    ensures Fits(seg) && EngineOf(op) == seg.engine && !Clashes(op, seg.ops)
  {
    hide Clashes, EngineOf;
    var all := seg.ops + [op];
    forall j | 0 <= j < |seg.ops| ensures EngineOf(seg.ops[j]) == seg.engine && !Clashes(seg.ops[j], seg.ops[..j]) {
      assert all[j] == seg.ops[j] && all[..j] == seg.ops[..j];
    }
    assert all[|seg.ops|] == op && all[..|seg.ops|] == seg.ops;
  }

  lemma FitsLonger(seg: Segment, op: Op)
    requires Fits(seg) && EngineOf(op) == seg.engine && !Clashes(op, seg.ops)
    ensures Fits(Segment(seg.engine, seg.ops + [op]))
  {
    hide Clashes, EngineOf;
    var all := seg.ops + [op];
    forall j | 0 <= j < |all| ensures EngineOf(all[j]) == seg.engine && !Clashes(all[j], all[..j]) {
      assert all[..j] == seg.ops[..j];
      assert j < |seg.ops| ==> all[j] == seg.ops[j];
    }
  }

  lemma FitsAlone(op: Op)
    ensures Fits(Segment(EngineOf(op), [op]))
  {
    assert forall j :: 0 <= j < 1 ==> [op][j] == op && [op][..j] == [];
  }

  /** A plan without its last operation is a plan. */
  lemma PlanShorter(done: seq<Segment>, last: Segment, ops: seq<Op>)
    requires ops != [] && IsPlan(done + [last], ops)
    ensures last.ops != [] && last.ops[|last.ops| - 1] == ops[|ops| - 1]
    ensures |last.ops| == 1 ==> IsPlan(done, ops[..|ops| - 1])
    ensures |last.ops| > 1 ==> IsPlan(done + [Segment(last.engine, last.ops[..|last.ops| - 1])], ops[..|ops| - 1])
  {
    hide Fits, Parted;
    var segs := done + [last];
    OpsOfSnoc(done, last);
    assert Fits(segs[|done|]);
    FitsNotEmpty(last);
    var init, op := last.ops[..|last.ops| - 1], last.ops[|last.ops| - 1];
    var shorter := Segment(last.engine, init);
    assert last.ops == init + [op];
    assert ops[..|ops| - 1] == OpsOf(done) + init;
    forall k | 0 <= k < |done| ensures Fits(done[k]) {
      assert segs[k] == done[k];
    }
    forall k, m | 0 <= k && m == k + 1 < |done| ensures Parted(done[k], done[m]) {
      assert segs[k] == done[k] && segs[m] == done[m];
    }
    if |last.ops| > 1 {
      FitsShorter(shorter, op);
      OpsOfSnoc(done, shorter);
      var segs' := done + [shorter];
      forall k, m | 0 <= k && m == k + 1 < |segs'| ensures Parted(segs'[k], segs'[m]) {
        assert Parted(segs[k], segs[m]);
        if m == |done| {
          PartedShorter(done[k], last, init);
        }
      }
    }
  }

  lemma PartedShorter(a: Segment, b: Segment, init: seq<Op>)
    requires Parted(a, b) && init != [] && init <= b.ops
    ensures Parted(a, Segment(b.engine, init))
  {
  }

  lemma FitsNotEmpty(seg: Segment)
    requires Fits(seg)
    ensures seg.ops != [] && EngineOf(seg.ops[0]) == seg.engine
  {
  }

  lemma JoinFound(done: seq<Segment>, last: Segment, op: Op)
    requires last.ops != [] && Fits(Segment(last.engine, last.ops + [op]))
    ensures PlanStep(Planner(done, last, ColumnsOf(last.ops)), op) ==
            Planner(done, Segment(last.engine, last.ops + [op]), ColumnsOf(last.ops + [op]))
  {
    hide Fits, Clashes, Conflicts, EngineOf, ColumnOf, ColumnsOf;
    FitsShorter(last, op);
    ClashIsConflict(op, last.ops);
    ColumnsOfSnoc(last.ops, op);
  }

  lemma NewFound(done: seq<Segment>, last: Segment, next: Segment, op: Op)
    requires last.ops != [] && next.ops == [op] && Fits(next) && Parted(last, next)
    ensures PlanStep(Planner(done, last, ColumnsOf(last.ops)), op) == Planner(done + [last], next, ColumnsOf(next.ops))
  {
    hide Fits, Clashes, Conflicts, EngineOf, ColumnOf, ColumnsOf;
    FitsNotEmpty(next);
    ClashIsConflict(op, last.ops);
    ColumnsOfSnoc([], op);
    NoColumns();
    assert [] + [op] == [op];
  }

  lemma FirstFound(next: Segment, op: Op)
    requires next.ops == [op] && Fits(next)
    ensures PlanStep(Planned([]), op) == Planner([], next, ColumnsOf(next.ops))
  {
    hide Fits, Clashes, Conflicts, EngineOf, ColumnOf, ColumnsOf;
    FitsNotEmpty(next);
    ColumnsOfSnoc([], op);
    NoColumns();
    assert [] + [op] == [op];
  }

  /** The last two segments of a plan. */
  lemma PlanEnd(done: seq<Segment>, last: Segment, ops: seq<Op>)
    requires IsPlan(done + [last], ops)
    ensures Fits(last) && (done != [] ==> Fits(done[|done| - 1]) && Parted(done[|done| - 1], last))
  {
    hide Fits, Parted;
    var segs, n := done + [last], |done|;
    assert Fits(segs[n]);
    if done != [] {
      assert Fits(segs[n - 1]) && Parted(segs[n - 1], segs[n]);
    }
  }

  lemma PlannedSnoc(before: seq<Op>, op: Op)
    ensures Planned(before + [op]) == PlanStep(Planned(before), op)
  {
    hide PlanStep;
    assert (before + [op])[..|before|] == before;
  }

  /** Whoever cuts the operations up that way ends with the planner's own variables. */
  lemma {:induction false} PlanFound(done: seq<Segment>, last: Segment, ops: seq<Op>)
    requires ops != [] && IsPlan(done + [last], ops)
    ensures Planned(ops) == Planner(done, last, ColumnsOf(last.ops))
    decreases |ops|
  {
    hide IsPlan, Fits, Parted, PlanStep, ColumnsOf, Planned;
    PlanShorter(done, last, ops);
    PlanEnd(done, last, ops);
    var before, op := ops[..|ops| - 1], ops[|ops| - 1];
    assert ops == before + [op];
    PlannedSnoc(before, op);
    if |last.ops| > 1 {
      var init := Segment(last.engine, last.ops[..|last.ops| - 1]);
      assert last == Segment(init.engine, init.ops + [op]);
      PlanHasOps(done, init, before);
      PlanFound(done, init, before);
      JoinFound(done, init, op);
    } else {
      assert last.ops == [op];
      NewOrFirstFound(done, last, before, op);
      if done != [] {
        PlanFound(done[..|done| - 1], done[|done| - 1], before);
      }
    }
  }

  lemma NewOrFirstFound(done: seq<Segment>, last: Segment, before: seq<Op>, op: Op)
    requires last.ops == [op] && IsPlan(done, before)
    requires Fits(last) && (done != [] ==> Fits(done[|done| - 1]) && Parted(done[|done| - 1], last))
    ensures done == [] ==> PlanStep(Planned(before), op) == Planner([], last, ColumnsOf(last.ops))
    ensures done != [] ==> before != [] && IsPlan(done[..|done| - 1] + [done[|done| - 1]], before)
    ensures done != [] ==>
      PlanStep(Planner(done[..|done| - 1], done[|done| - 1], ColumnsOf(done[|done| - 1].ops)), op) ==
      Planner(done, last, ColumnsOf(last.ops))
  {
    hide IsPlan, Fits, Parted, PlanStep, ColumnsOf, Planned;
    if done == [] {
      NoSegmentsNoOps(done, before);
      FirstFound(last, op);
    } else {
      var init, p := done[..|done| - 1], done[|done| - 1];
      assert done == init + [p];
      FitsNotEmpty(p);
      PlanHasOps(init, p, before);
      NewFound(init, p, last, op);
    }
  }

  lemma PlanHasOps(done: seq<Segment>, last: Segment, ops: seq<Op>)
    requires IsPlan(done + [last], ops) && last.ops != []
    ensures ops != []
  {
    OpsOfSnoc(done, last);
  }

  lemma NoSegmentsNoOps(segs: seq<Segment>, ops: seq<Op>)
    requires segs == [] && IsPlan(segs, ops)
    ensures ops == []
  {
  }

  lemma PlanWithNew(done: seq<Segment>, current: Segment, ops: seq<Op>, op: Op)
    requires IsPlan(done + [current], ops)
    requires EngineOf(op) != current.engine || Clashes(op, current.ops)
    ensures IsPlan(done + [current] + [Segment(EngineOf(op), [op])], ops + [op])
  {
    hide Fits, Clashes, EngineOf;
    var was, new' := done + [current], Segment(EngineOf(op), [op]);
    var now := was + [new'];
    OpsOfSnoc(was, new');
    FitsAlone(op);
    forall k, m | 0 <= k && m == k + 1 < |now| ensures Parted(now[k], now[m]) {
      if m < |was| {
        assert Parted(was[k], was[m]);
      } else {
        assert now[k] == current && now[m] == new';
      }
    }
  }

  lemma PlanWithJoined(done: seq<Segment>, current: Segment, ops: seq<Op>, op: Op)
    requires IsPlan(done + [current], ops)
    requires EngineOf(op) == current.engine && !Clashes(op, current.ops)
    ensures IsPlan(done + [Segment(current.engine, current.ops + [op])], ops + [op])
  {
    hide Fits, Clashes, EngineOf;
    var was, longer := done + [current], Segment(current.engine, current.ops + [op]);
    var now := done + [longer];
    OpsOfSnoc(done, current);
    OpsOfSnoc(done, longer);
    assert OpsOf(done) + longer.ops == ops + [op];
    assert Fits(was[|done|]);
    FitsNotEmpty(current);
    FitsLonger(current, op);
    forall k | 0 <= k < |now| ensures Fits(now[k]) {
      assert k < |done| ==> now[k] == was[k];
    }
    forall k, m | 0 <= k && m == k + 1 < |now| ensures Parted(now[k], now[m]) {
      assert Parted(was[k], was[m]);
      assert now[k] == was[k] && (m < |done| ==> now[m] == was[m]);
    }
  }

  lemma ColumnsOfSnoc(ops: seq<Op>, op: Op)
    ensures ColumnsOf(ops + [op]) == ColumnsOf(ops) + ColumnOf(op)
  {
    assert (ops + [op])[..|ops|] == ops;
  }

  lemma {:induction false} PlannedIsPlan(ops: seq<Op>)
    requires ops != []
    ensures var p := Planned(ops);
            p.current.ops != [] && IsPlan(p.done + [p.current], ops) && p.taken == ColumnsOf(p.current.ops)
  {
    hide IsPlan, Clashes, Conflicts, EngineOf, ColumnOf, ColumnsOf;
    var before, op := ops[..|ops| - 1], ops[|ops| - 1];
    assert ops == before + [op];
    var p := Planned(before);
    ColumnsOfSnoc([], op);
    assert [] + [op] == [op] && ColumnsOf([]) == {} by { NoColumns(); }
    if before == [] {
      PlanOfOne(op);
      assert [] + [Segment(EngineOf(op), [op])] == [Segment(EngineOf(op), [op])];
    } else {
      PlannedIsPlan(before);
      ClashIsConflict(op, p.current.ops);
      ColumnsOfSnoc(p.current.ops, op);
      if EngineOf(op) != p.current.engine || Conflicts(op, p.taken) {
        PlanWithNew(p.done, p.current, before, op);
      } else {
        PlanWithJoined(p.done, p.current, before, op);
      }
    }
  }

  lemma NoColumns()
    ensures ColumnsOf([]) == {}
  {
  }

  lemma PlanOfOne(op: Op)
    ensures IsPlan([Segment(EngineOf(op), [op])], [op])
  {
    hide Clashes, EngineOf, Fits;
    FitsAlone(op);
    OpsOfSnoc([], Segment(EngineOf(op), [op]));
    assert [] + [Segment(EngineOf(op), [op])] == [Segment(EngineOf(op), [op])];
  }

  /**
   The plan is the one way to cut the operations into segments of one engine, without a clash inside
   a segment, and with every new segment begun for a change of engine or a clash with the one before.
   */
  lemma PlanExactly(segs: seq<Segment>, ops: seq<Op>, hasSqlSource: bool)
    requires ops != []
    ensures segs == Plan(ops, hasSqlSource) <==> IsPlan(segs, ops)
  {
    hide IsPlan, Planned;
    PlannedIsPlan(ops);
    if IsPlan(segs, ops) {
      assert segs != [] by { PlanNotEmpty(segs, ops); }
      var done, last := segs[..|segs| - 1], segs[|segs| - 1];
      assert segs == done + [last];
      PlanFound(done, last, ops);
    }
  }

  lemma PlanNotEmpty(segs: seq<Segment>, ops: seq<Op>)
    requires ops != [] && IsPlan(segs, ops)
    ensures segs != []
  {
  }

  /** The segments hold all operations in order, one engine each, and nothing in them clashes. */
  lemma PlanConserves(ops: seq<Op>, hasSqlSource: bool)
    ensures OpsOf(Plan(ops, hasSqlSource)) == ops
    ensures forall k :: 0 <= k < |Plan(ops, hasSqlSource)| && ops != [] ==> Fits(Plan(ops, hasSqlSource)[k])
  {
    hide Fits, Planned;
    if ops == [] {
      OpsOfSnoc([], Segment(Sql, []));
      assert [] + [Segment(Sql, [])] == [Segment(Sql, [])];
    } else {
      PlanExactly(Plan(ops, hasSqlSource), ops, hasSqlSource);
    }
  }

  /** `plan_segments`: the loop of the source. */
  method PlanSegments(ops: seq<Op>, hasSqlSource: bool) returns (segs: seq<Segment>)
    ensures segs == Plan(ops, hasSqlSource)
  {
    segs := [];
    if |ops| == 0 {
      if hasSqlSource {
        segs := [Segment(Sql, [])];
      }
      return;
    }
    var currentType := Pandas;
    var currentOps: seq<Op> := [];
    var taken: set<string> := {};
    for k := 0 to |ops|
      invariant Planned(ops[..k]) == Planner(segs, Segment(currentType, currentOps), taken)
      invariant k > 0 ==> |currentOps| > 0
    {
      var op := ops[k];
      assert ops[..k + 1][..k] == ops[..k];
      var needsNewSegment := Conflicts(op, taken);
      if |currentOps| == 0 || EngineOf(op) != currentType || needsNewSegment {
        if |currentOps| > 0 {
          segs := segs + [Segment(currentType, currentOps)];
        }
        currentType := EngineOf(op);
        currentOps := [op];
        taken := ColumnOf(op);
      } else {
        currentOps := currentOps + [op];
        taken := taken + ColumnOf(op);
      }
    }
    assert ops[..|ops|] == ops;
    if |currentOps| > 0 {
      segs := segs + [Segment(currentType, currentOps)];
    }
  }

  // ----- segmented execution -----

  /** The frame a segment starts from: an empty frame is replaced by the raw source, if there is one. */
  function StartFrame(df: Frame, source: Option<Frame>): Frame {
    if df.Empty() && source.Some? then source.value else df
  }

  /** An operation for whose sake SQL is executed even on an empty frame. */
  predicate Computes(op: Op) {
    op.Step? && (op.column.Some? || op.computes)
  }

  predicate AnyComputes(ops: seq<Op>) {
    exists i :: 0 <= i < |ops| && Computes(ops[i])
  }

  /** The fields of the last SELECT of names, or none. */
  function LastNames(ops: seq<Op>): seq<string> {
    if ops == [] then []
    else
      var last := ops[|ops| - 1];
      if last.SelectNames? && last.names != [] then last.names else LastNames(ops[..|ops| - 1])
  }

  /**
   What a SQL segment makes of an empty frame when there is no source: unless something is to be
   computed, only the last selection of columns is applied and every other operation is skipped.
   */
  function OnEmpty(ops: seq<Op>, df: Frame): Frame {
    if AnyComputes(ops) then Denote(ops, df) else Chosen(LastNames(ops), df)
  }

  function RunSegment(seg: Segment, isFirst: bool, df: Frame, source: Option<Frame>): Frame {
    if seg.engine.Sql? && isFirst && source.Some? then Denote(seg.ops, source.value)
    else if seg.engine.Sql? && df.Empty() && source.None? then OnEmpty(seg.ops, df)
    else Denote(seg.ops, StartFrame(df, source))
  }

  /** `_execute_sql_segment` and `_execute_pandas_segment`, with the loops of the former over an empty frame. */
  method ExecuteSegment(seg: Segment, isFirst: bool, df: Frame, source: Option<Frame>) returns (r: Frame)
    ensures r == RunSegment(seg, isFirst, df, source)
  {
    if seg.engine.Sql? {
      if isFirst && source.Some? {
        return Denote(seg.ops, source.value);
      }
      if df.Empty() && source.None? {
        var selectCols: seq<string> := [];
        var computed := false;
        for k := 0 to |seg.ops|
          invariant selectCols == LastNames(seg.ops[..k])
          invariant computed == AnyComputes(seg.ops[..k])
        {
          assert seg.ops[..k + 1][..k] == seg.ops[..k];
          ComputesSoFar(seg.ops, k);
          var op := seg.ops[k];
          if op.SelectNames? {
            if op.names != [] {
              selectCols := op.names;
            }
          } else if Computes(op) {
            computed := true;
          }
        }
        assert seg.ops[..|seg.ops|] == seg.ops;
        if !computed {
          return Chosen(selectCols, df);
        }
      }
    }
    return Denote(seg.ops, StartFrame(df, source));
  }

  lemma ComputesSoFar(ops: seq<Op>, k: nat)
    requires k < |ops|
    ensures AnyComputes(ops[..k + 1]) <==> AnyComputes(ops[..k]) || Computes(ops[k])
  {
    var before, now := ops[..k], ops[..k + 1];
    assert now[k] == ops[k] && forall i :: 0 <= i < k ==> now[i] == before[i];
  }

  /** What `_execute` computes by running the segments one after the other. */
  function RunAll(segs: seq<Segment>, source: Option<Frame>): Frame {
    if segs == [] then NO_FRAME
    else RunSegment(segs[|segs| - 1], |segs| == 1, RunAll(segs[..|segs| - 1], source), source)
  }

  function Base(source: Option<Frame>): Frame {
    if source.Some? then source.value else NO_FRAME
  }

  /** The result handed over after the first `k` segments, when nothing goes wrong. */
  function Handoff(segs: seq<Segment>, source: Option<Frame>, k: nat): Frame
    requires k <= |segs|
  {
    Denote(OpsOf(segs[..k]), Base(source))
  }

  /** What a segment starts from is what it is handed: nothing is reloaded and nothing skipped wrongly. */
  ghost predicate HandoffFine(seg: Segment, df: Frame, source: Option<Frame>) {
    || !df.Empty()
    || (source.Some? && df == source.value)
    || (source.None? && (seg.engine.Pandas? || OnEmpty(seg.ops, df) == Denote(seg.ops, df)))
  }

  ghost predicate NoEmptyHandoff(segs: seq<Segment>, source: Option<Frame>) {
    forall k :: 0 <= k < |segs| ==> HandoffFine(segs[k], Handoff(segs, source, k), source)
  }

  /** Segmented execution computes the operations in order, if every handoff is fine. */
  lemma {:induction false} RunIsDenote(segs: seq<Segment>, source: Option<Frame>)
    requires NoEmptyHandoff(segs, source)
    ensures segs != [] ==> RunAll(segs, source) == Denote(OpsOf(segs), Base(source))
  {
    hide OnEmpty;
    if segs != [] {
      var init, last := segs[..|segs| - 1], segs[|segs| - 1];
      assert forall k :: 0 <= k <= |init| ==> init[..k] == segs[..k];
      assert NoEmptyHandoff(init, source) by {
        forall k | 0 <= k < |init| ensures HandoffFine(init[k], Handoff(init, source, k), source) {
          assert Handoff(init, source, k) == Handoff(segs, source, k);
        }
      }
      RunIsDenote(init, source);
      DenoteConcat(OpsOf(init), last.ops, Base(source));
      assert HandoffFine(last, Handoff(segs, source, |init|), source);
      assert init == segs[..|init|];
      assert Handoff(segs, source, |init|) == Denote(OpsOf(init), Base(source));
    }
  }

  /**
   The guard is exact.  Whatever has run so far, the next segment computes an operation right,
   whatever it is, if and only if the frame handed to it is not empty, or is the source that
   would be reloaded, or there is no source and the segment is pandas or the operation one that
   SQL computes on empty frames: a column assignment or a computed field.
   */
  lemma NextSegmentRightExactlyWhen(e: Engine, column: Option<string>, refs: set<string>, computes: bool,
                                    df: Frame, source: Option<Frame>)
    ensures (forall f: Frame -> Frame ::
               RunSegment(Segment(e, [Step(e, column, refs, computes, f)]), false, df, source) == f(df)) <==>
            !df.Empty() || if source.Some? then df == source.value else e.Pandas? || column.Some? || computes
  {
    forall f: Frame -> Frame
      ensures RunSegment(Segment(e, [Step(e, column, refs, computes, f)]), false, df, source) ==
              if e.Sql? && df.Empty() && source.None? && column.None? && !computes then df else f(StartFrame(df, source))
    {
      var ops := [Step(e, column, refs, computes, f)];
      DenoteOne(ops[0], StartFrame(df, source));
      assert AnyComputes(ops) <==> Computes(ops[0]);
      assert LastNames(ops) == LastNames(ops[..0]);
    }
    var id := (x: Frame) => x;
    assert id(StartFrame(df, source)) == StartFrame(df, source) && id(df) == df;
    assert forall d :: Filled(d) == Frame(["x"], [[0]]);
    var fill := Filled;
    assert fill(df) == Frame(["x"], [[0]]) && !fill(df).Empty();
  }

  function Filled(d: Frame): Frame {
    Frame(["x"], [[0]])
  }

  // ----- a single query, and the columns of a selection -----

  /** Everything is one SQL query if and only if all of it is SQL and no assignment clashes with an earlier one. */
  lemma OneQueryExactlyWhen(ops: seq<Op>, hasSqlSource: bool)
    requires ops != []
    ensures Plan(ops, hasSqlSource) == [Segment(Sql, ops)] <==>
            forall j :: 0 <= j < |ops| ==> EngineOf(ops[j]) == Sql && !Clashes(ops[j], ops[..j])
  {
    hide Clashes, EngineOf, Plan;
    var segs := [Segment(Sql, ops)];
    PlanExactly(segs, ops, hasSqlSource);
    assert [] + segs == segs;
    OpsOfSnoc([], segs[0]);
    assert IsPlan(segs, ops) <==> Fits(segs[0]);
  }

  /** Selections, filters, sorts and limits over a table are one query, computed as written, with nothing handed over. */
  lemma PureSqlIsDenote(ops: seq<Op>, table: Frame)
    requires ops != []
    requires forall j :: 0 <= j < |ops| ==>
      ops[j].SelectNames? || (ops[j].Step? && ops[j].engine == Sql && ops[j].column == None)
    ensures Plan(ops, true) == [Segment(Sql, ops)]
    ensures RunAll(Plan(ops, true), Some(table)) == Denote(ops, table)
  {
    hide Plan;
    OneQueryExactlyWhen(ops, true);
    var segs := [Segment(Sql, ops)];
    assert segs[..0] == [];
  }

  /** What a column has in a selection is what it has in the frame. */
  lemma {:induction false} CellIsAt(columns: seq<string>, row: seq<int>, k: nat)
    requires k < |columns| && k < |row| && columns[k] !in columns[..k]
    ensures Cell(columns, row, columns[k]) == row[k]
  {
    if k > 0 {
      assert columns[1..][..k - 1] == columns[1..k];
      assert columns[0] in columns[..k];
      assert columns[1..k] <= columns[1..] && forall c :: c in columns[1..k] ==> c in columns[..k];
      CellIsAt(columns[1..], row[1..], k - 1);
    }
  }

  /** Selecting by name copies columns: row for row, each has the values it has at its position in the frame. */
  lemma ChosenCells(names: seq<string>, df: Frame, i: nat, j: nat, k: nat)
    requires "*" !in names && i < |df.rows| && |df.rows[i]| == |df.columns|
    requires j < |Existing(names, df.columns)| && k < |df.columns| && df.columns[k] == Existing(names, df.columns)[j]
    requires df.columns[k] !in df.columns[..k]
    ensures |Chosen(names, df).rows| == |df.rows|
    ensures Chosen(names, df).rows[i][j] == df.rows[i][k]
  {
    CellIsAt(df.columns, df.rows[i], k);
  }

  /** Selecting everything, or nothing that exists, changes nothing. */
  lemma ChosenUnchanged(names: seq<string>, df: Frame)
    requires "*" in names || forall c :: c in names ==> c !in df.columns
    ensures Chosen(names, df) == df
  {
    ExistingFrom(names, df.columns);
    ExistingNamed(names, df.columns);
    assert Existing(names, df.columns) != [] ==> Existing(names, df.columns)[0] in Existing(names, df.columns);
  }

  lemma {:induction false} ExistingNamed(names: seq<string>, columns: seq<string>)
    ensures forall c :: c in Existing(names, columns) ==> c in names
  {
    if names != [] {
      ExistingNamed(names[1..], columns);
    }
  }

  lemma ExistingHead(names: seq<string>, columns: seq<string>)
    ensures names == [] ==> Existing(names, columns) == []
    ensures names != [] ==>
      Existing(names, columns) == (if names[0] in columns then [names[0]] else []) + Existing(names[1..], columns)
  {
  }

  lemma {:induction false} ExistingConcat(a: seq<string>, b: seq<string>, columns: seq<string>)
    ensures Existing(a + b, columns) == Existing(a, columns) + Existing(b, columns)
  {
    hide Existing;
    ExistingHead(a, columns);
    if a == [] {
      assert a + b == b;
    } else {
      assert (a + b)[0] == a[0] && (a + b)[1..] == a[1..] + b;
      ExistingHead(a + b, columns);
      ExistingConcat(a[1..], b, columns);
    }
  }

  /** Which columns: the named ones that exist, in the order named. */
  lemma ExistingInOrder(a: seq<string>, name: string, b: seq<string>, columns: seq<string>)
    ensures Existing(a + [name] + b, columns) ==
            Existing(a, columns) + (if name in columns then [name] else []) + Existing(b, columns)
  {
    hide Existing;
    ExistingConcat(a + [name], b, columns);
    ExistingConcat(a, [name], columns);
    ExistingHead([name], columns);
    ExistingHead([name][1..], columns);
  }

  // ----- which SQL segments are right on an empty frame -----

  /** What the planner knows of an operation, whatever it computes. */
  datatype Shape = Named(names: seq<string>) | Computed | Skipped

  predicate HasShape(op: Op, shape: Shape) {
    match shape
    case Named(names) => op == SelectNames(names)
    case Computed => Computes(op)
    case Skipped => op.Step? && !Computes(op)
  }

  ghost predicate HaveShapes(ops: seq<Op>, shapes: seq<Shape>) {
    |ops| == |shapes| && forall i :: 0 <= i < |ops| ==> HasShape(ops[i], shapes[i])
  }

  /** The selections alone, one after the other. */
  function Selections(shapes: seq<Shape>, df: Frame): Frame {
    if shapes == [] then df
    else
      var last, before := shapes[|shapes| - 1], Selections(shapes[..|shapes| - 1], df);
      if last.Named? then Chosen(last.names, before) else before
  }

  function LastNamed(shapes: seq<Shape>): seq<string> {
    if shapes == [] then []
    else
      var last := shapes[|shapes| - 1];
      if last.Named? && last.names != [] then last.names else LastNamed(shapes[..|shapes| - 1])
  }

  lemma ChosenEmpty(names: seq<string>, df: Frame)
    ensures Chosen(names, df).Empty() <==> df.Empty()
  {
    ExistingWithin(names, df.columns);
  }

  lemma {:induction false} ExistingWithin(names: seq<string>, columns: seq<string>)
    ensures columns == [] ==> Existing(names, columns) == []
  {
    if names != [] {
      ExistingWithin(names[1..], columns);
    }
  }

  lemma {:induction false} ShapedNames(ops: seq<Op>, shapes: seq<Shape>)
    requires HaveShapes(ops, shapes)
    ensures LastNames(ops) == LastNamed(shapes)
  {
    if ops != [] {
      ShapedNames(ops[..|ops| - 1], shapes[..|shapes| - 1]);
      assert HasShape(ops[|ops| - 1], shapes[|shapes| - 1]);
    }
  }

  lemma ShapedComputes(ops: seq<Op>, shapes: seq<Shape>)
    requires HaveShapes(ops, shapes)
    ensures AnyComputes(ops) <==> Computed in shapes
  {
    forall i | 0 <= i < |ops| ensures Computes(ops[i]) <==> shapes[i] == Computed {
      assert HasShape(ops[i], shapes[i]);
    }
  }

  lemma {:induction false} OnlySelections(ops: seq<Op>, shapes: seq<Shape>, df: Frame)
    requires HaveShapes(ops, shapes) && forall i :: 0 <= i < |shapes| ==> shapes[i].Named?
    ensures Denote(ops, df) == Selections(shapes, df)
  {
    if ops != [] {
      OnlySelections(ops[..|ops| - 1], shapes[..|shapes| - 1], df);
      assert HasShape(ops[|ops| - 1], shapes[|shapes| - 1]);
    }
  }

  /** Operations of the given shapes, with every skipped one returning a frame that is not empty. */
  function Filling(shapes: seq<Shape>): seq<Op> {
    seq(|shapes|, i requires 0 <= i < |shapes| =>
      match shapes[i]
      case Named(names) => SelectNames(names)
      case Computed => Step(Sql, None, {}, true, Filled)
      case Skipped => Step(Sql, None, {}, false, Filled))
  }

  lemma {:induction false} FillingFills(shapes: seq<Shape>, df: Frame)
    requires Skipped in shapes
    ensures HaveShapes(Filling(shapes), shapes) && !Denote(Filling(shapes), df).Empty()
  {
    var n := |shapes| - 1;
    var init, last := shapes[..n], shapes[n];
    assert Filling(shapes)[..n] == Filling(init);
    if last.Named? {
      assert Skipped in init;
      FillingFills(init, df);
      ChosenEmpty(last.names, Denote(Filling(init), df));
    }
  }

  /**
   On an empty frame without a source, a SQL segment is computed right, whatever its operations
   do, if and only if one of them is computed there, or all of them select columns by name and
   the last selection gives what they give together.
   */
  lemma OnEmptyRightExactlyWhen(shapes: seq<Shape>, df: Frame)
    requires df.Empty()
    ensures (forall ops :: HaveShapes(ops, shapes) ==> OnEmpty(ops, df) == Denote(ops, df)) <==>
            || Computed in shapes
            || (Skipped !in shapes && Chosen(LastNamed(shapes), df) == Selections(shapes, df))
  {
    hide Chosen;
    forall ops | HaveShapes(ops, shapes)
      ensures AnyComputes(ops) <==> Computed in shapes
      ensures LastNames(ops) == LastNamed(shapes)
    {
      ShapedComputes(ops, shapes);
      ShapedNames(ops, shapes);
    }
    if Computed !in shapes {
      if Skipped in shapes {
        FillingFills(shapes, df);
        ChosenEmpty(LastNamed(shapes), df);
        assert OnEmpty(Filling(shapes), df) != Denote(Filling(shapes), df);
      } else {
        AllNamed(shapes);
        assert HaveShapes(Filling(shapes), shapes);
        forall ops | HaveShapes(ops, shapes) ensures Denote(ops, df) == Selections(shapes, df) {
          OnlySelections(ops, shapes, df);
        }
      }
    }
  }

  lemma AllNamed(shapes: seq<Shape>)
    requires Computed !in shapes && Skipped !in shapes
    ensures forall i :: 0 <= i < |shapes| ==> shapes[i].Named?
  {
    forall i | 0 <= i < |shapes| ensures shapes[i].Named? {
      assert shapes[i] in shapes;
    }
  }

  /** Every selection names columns that are there, and everything else leaves an empty frame alone. */
  ghost predicate Harmless(ops: seq<Op>, df: Frame) {
    ops == [] ||
    (var init, last := ops[..|ops| - 1], ops[|ops| - 1];
     && Harmless(init, df)
     && match last
        case Source(_) => false
        case SelectNames(names) =>
          "*" !in names && forall c :: c in names ==> c in Denote(init, df).columns
        case Step(_, _, _, _, f) => f(Denote(init, df)) == Denote(init, df))
  }

  lemma {:induction false} ExistingAll(names: seq<string>, columns: seq<string>)
    requires forall c :: c in names ==> c in columns
    ensures Existing(names, columns) == names
  {
    if names != [] {
      ExistingAll(names[1..], columns);
    }
  }

  lemma {:induction false} ExistingFrom(names: seq<string>, columns: seq<string>)
    ensures forall c :: c in Existing(names, columns) ==> c in columns
  {
    if names != [] {
      ExistingFrom(names[1..], columns);
    }
  }

  /** Filters, sorts and selections that fit are therefore right on empty frames too. */
  lemma {:induction false} HarmlessRight(ops: seq<Op>, df: Frame)
    requires df.rows == [] && Harmless(ops, df)
    ensures OnEmpty(ops, df) == Denote(ops, df) && Denote(ops, df).rows == []
    ensures Chosen(LastNames(ops), df) == Denote(ops, df)
    ensures forall c :: c in Denote(ops, df).columns ==> c in df.columns
  {
    if ops != [] {
      var init, last := ops[..|ops| - 1], ops[|ops| - 1];
      HarmlessRight(init, df);
      ExistingFrom(LastNames(ops), df.columns);
      if last.SelectNames? && last.names != [] {
        ExistingAll(last.names, Denote(init, df).columns);
        ExistingAll(last.names, df.columns);
      }
    }
  }

  function DropRows(d: Frame): Frame {
    Frame(d.columns, [])
  }

  function KeepFrame(d: Frame): Frame {
    d
  }

  lemma PlanOfTwo(a: Op, b: Op)
    requires EngineOf(a) != EngineOf(b)
    ensures Plan([a, b], true) == [Segment(EngineOf(a), [a]), Segment(EngineOf(b), [b])]
  {
    var ops := [a, b];
    assert ops[..1] == [a] && [a][..0] == [];
    assert Planned([a]) == Planner([], Segment(EngineOf(a), [a]), ColumnOf(a));
  }

  lemma RunOfTwo(a: Segment, b: Segment, source: Option<Frame>)
    ensures RunAll([a, b], source) == RunSegment(b, false, RunSegment(a, true, NO_FRAME, source), source)
  {
    var segs := [a, b];
    assert segs[..1] == [a] && [a][..0] == [];
    assert RunAll([a], source) == RunSegment(a, true, NO_FRAME, source);
  }

  function OtherEngine(e: Engine): Engine {
    if e.Sql? then Pandas else Sql
  }

  /** An operation that drops every row, followed by one for the other engine, returns the whole source. */
  lemma EmptyHandoffGoesWrong(e: Engine, source: Frame)
    requires !source.Empty()
    ensures var ops := [Step(e, None, {}, false, DropRows), Step(OtherEngine(e), None, {}, false, KeepFrame)];
            && RunAll(Plan(ops, true), Some(source)) == source
            && Denote(ops, source) == DropRows(source) != source
  {
    hide Plan, RunAll, Denote;
    var none, keep := Step(e, None, {}, false, DropRows), Step(OtherEngine(e), None, {}, false, KeepFrame);
    PlanOfTwo(none, keep);
    RunOfTwo(Segment(e, [none]), Segment(OtherEngine(e), [keep]), Some(source));
    DenoteOne(none, source);
    DenoteOne(keep, source);
    DenoteConcat([none], [keep], source);
    DenoteOne(keep, DropRows(source));
    assert [none] + [keep] == [none, keep];
  }

  /**
   A group-by on an empty frame made by `from_df`, or any other operation that SQL does not compute
   there and that is not the identity: the frame comes back as it was.
   */
  lemma EmptyGroupByGoesWrong(aggregate: Frame -> Frame)
    ensures var df := Frame(["a", "b"], []);
            var ops := [Source(df), Step(Sql, None, {}, false, aggregate)];
            RunAll(Plan(ops, true), None) == df && Denote(ops, NO_FRAME) == aggregate(df)
  {
    hide Plan, RunAll, Denote;
    var df := Frame(["a", "b"], []);
    var source, op := Source(df), Step(Sql, None, {}, false, aggregate);
    PlanOfTwo(source, op);
    RunOfTwo(Segment(Pandas, [source]), Segment(Sql, [op]), None);
    DenoteOne(source, NO_FRAME);
    DenoteConcat([source], [op], NO_FRAME);
    DenoteOne(op, df);
    assert [source] + [op] == [source, op];
    assert forall i :: 0 <= i < |[op]| ==> [op][i] == op;
    assert LastNames([op]) == LastNames([op][..0]) == [];
    assert OnEmpty([op], df) == df;
  }
}
