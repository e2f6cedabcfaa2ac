/**
 Projection pushdown in `_ensure_sql_source`: the source frame is cut to the columns the recorded
 operations end with, and the SELECT operations are deleted.
 */
module Projection {
  import opened Common

  type Row<V> = map<string, V>

  datatype Frame<V> = Frame(cols: seq<string>, rows: seq<Row<V>>) {
    ghost predicate Valid() {
      forall i :: 0 <= i < |rows| ==> rows[i].Keys == Names(cols)
    }
  }

  /**
   A filter sees the columns it reads, row by row.  A sort is any algorithm that picks positions
   from the key columns.
   */
  datatype Op<!V> =
    | Where(needs: seq<string>, keep: seq<V> -> bool)
    | OrderBy(fields: seq<string>, arrange: seq<seq<V>> -> seq<nat>)
    | Limit(n: nat)
    | Offset(n: nat)
    | Select(fields: seq<string>)

  function Names(cols: seq<string>): set<string> {
    set c | c in cols
  }

  function Existing(fields: seq<string>, cols: seq<string>): seq<string> {
    if fields == [] then []
    else (if fields[0] in cols then [fields[0]] else []) + Existing(fields[1..], cols)
  }

  // ----- executing -----

  function Cut<V>(row: Row<V>, cols: seq<string>): Row<V> {
    map c | c in row && c in cols :: row[c]
  }

  function CutAll<V>(rows: seq<Row<V>>, cols: seq<string>): seq<Row<V>> {
    seq(|rows|, i requires 0 <= i < |rows| => Cut(rows[i], cols))
  }

  function Project<V>(f: Frame<V>, cols: seq<string>): Frame<V> {
    Frame(cols, CutAll(f.rows, cols))
  }

  function Tuple<V>(row: Row<V>, fields: seq<string>): seq<V>
    requires forall c :: c in fields ==> c in row
  {
    seq(|fields|, i requires 0 <= i < |fields| => row[fields[i]])
  }

  function Tuples<V>(rows: seq<Row<V>>, fields: seq<string>): seq<seq<V>>
    requires forall i, c :: 0 <= i < |rows| && c in fields ==> c in rows[i]
  {
    seq(|rows|, i requires 0 <= i < |rows| => Tuple(rows[i], fields))
  }

  /** The positions where the tuple passes. */
  function Passing<V>(tuples: seq<seq<V>>, keep: seq<V> -> bool): seq<nat> {
    if tuples == [] then []
    else
      var n := |tuples| - 1;
      Passing(tuples[..n], keep) + if keep(tuples[n]) then [n] else []
  }

  function Span(lo: nat, hi: nat): seq<nat>
    requires lo <= hi
  {
    seq(hi - lo, i => lo + i)
  }

  function Pick<T>(rows: seq<T>, positions: seq<nat>): seq<T> {
    if positions == [] then []
    else (if positions[0] < |rows| then [rows[positions[0]]] else []) + Pick(rows, positions[1..])
  }

  /** The positions an operation other than SELECT keeps, from the key columns alone. */
  function Chosen<V>(op: Op<V>, tuples: seq<seq<V>>): seq<nat>
    requires !op.Select?
  {
    match op
    case Where(_, keep) => Passing(tuples, keep)
    case OrderBy(_, arrange) => arrange(tuples)
    case Limit(n) => Span(0, if n < |tuples| then n else |tuples|)
    case Offset(n) => Span(if n < |tuples| then n else |tuples|, |tuples|)
  }

  function Reads<V>(op: Op<V>): seq<string> {
    match op
    case Where(needs, _) => needs
    case OrderBy(fields, _) => fields
    case _ => []
  }

  function Choose<V>(f: Frame<V>, op: Op<V>, fields: seq<string>): Frame<V>
    requires !op.Select? && f.Valid() && Names(fields) <= Names(f.cols)
  {
    Frame(f.cols, Pick(f.rows, Chosen(op, Tuples(f.rows, fields))))
  }

  /** pandas execution: a filter on a missing column fails, a sort or selection passes over it. */
  function Step<V>(f: Frame<V>, op: Op<V>): Option<Frame<V>>
    requires f.Valid()
  {
    match op
    case Select(fields) =>
      var found := Existing(fields, f.cols);
      Some(if found == [] then f else Project(f, found))
    case Where(needs, _) =>
      if Names(needs) <= Names(f.cols) then Some(Choose(f, op, needs)) else None
    case _ =>
      ExistingFacts(Reads(op), f.cols);
      if op.OrderBy? && Existing(Reads(op), f.cols) == [] then Some(f)
      else Some(Choose(f, op, Existing(Reads(op), f.cols)))
  }

  /** SQL execution: every column that is named must be there. */
  function SqlStep<V>(f: Frame<V>, op: Op<V>): Option<Frame<V>>
    requires f.Valid()
  {
    match op
    case Select(fields) =>
      if !(Names(fields) <= Names(f.cols)) then None
      else Some(if fields == [] then f else Project(f, fields))
    case _ =>
      if !(Names(Reads(op)) <= Names(f.cols)) then None
      else if op.OrderBy? && Reads(op) == [] then Some(f)
      else Some(Choose(f, op, Reads(op)))
  }

  lemma {:induction false} ExistingFacts(fields: seq<string>, cols: seq<string>)
    ensures Names(Existing(fields, cols)) == Names(fields) * Names(cols)
    ensures Names(fields) <= Names(cols) ==> Existing(fields, cols) == fields
  {
    if fields != [] {
      ExistingFacts(fields[1..], cols);
      assert fields == [fields[0]] + fields[1..];
      assert Names(fields) == {fields[0]} + Names(fields[1..]);
      var found := Existing(fields, cols);
      assert Names(found) == (if fields[0] in cols then {fields[0]} else {}) + Names(Existing(fields[1..], cols));
    }
  }

  lemma {:induction false} PickFrom<T>(rows: seq<T>, positions: seq<nat>)
    ensures forall r :: r in Pick(rows, positions) ==> r in rows
  {
    if positions != [] {
      PickFrom(rows, positions[1..]);
    }
  }

  lemma ChooseValid<V>(f: Frame<V>, op: Op<V>, fields: seq<string>)
    requires !op.Select? && f.Valid() && Names(fields) <= Names(f.cols)
    ensures Choose(f, op, fields).Valid()
  {
    var g := Choose(f, op, fields);
    PickFrom(f.rows, Chosen(op, Tuples(f.rows, fields)));
    forall i | 0 <= i < |g.rows| ensures g.rows[i].Keys == Names(g.cols) {
      assert g.rows[i] in f.rows;
    }
  }

  lemma ProjectValid<V>(f: Frame<V>, cols: seq<string>)
    requires f.Valid() && Names(cols) <= Names(f.cols)
    ensures Project(f, cols).Valid()
  {
    forall i | 0 <= i < |f.rows| ensures Project(f, cols).rows[i].Keys == Names(cols) {
      assert f.rows[i].Keys == Names(f.cols);
    }
  }

  lemma StepValid<V>(f: Frame<V>, op: Op<V>)
    requires f.Valid()
    ensures Step(f, op).Some? ==> Step(f, op).value.Valid()
    ensures SqlStep(f, op).Some? ==> SqlStep(f, op).value.Valid()
  {
    hide Pick, Chosen, Tuples;
    ExistingFacts(if op.Select? then op.fields else Reads(op), f.cols);
    if op.Select? {
      if Existing(op.fields, f.cols) != [] {
        ProjectValid(f, Existing(op.fields, f.cols));
      }
      if Names(op.fields) <= Names(f.cols) {
        ProjectValid(f, op.fields);
      }
    } else {
      ChooseValid(f, op, Existing(Reads(op), f.cols));
    }
  }

  function Run<V>(f: Frame<V>, ops: seq<Op<V>>): Option<Frame<V>>
    requires f.Valid()
    decreases |ops|
  {
    if ops == [] then Some(f)
    else
      StepValid(f, ops[0]);
      match Step(f, ops[0])
      case None => None
      case Some(g) => Run(g, ops[1..])
  }

  function SqlRun<V>(f: Frame<V>, ops: seq<Op<V>>): Option<Frame<V>>
    requires f.Valid()
    decreases |ops|
  {
    if ops == [] then Some(f)
    else
      StepValid(f, ops[0]);
      match SqlStep(f, ops[0])
      case None => None
      case Some(g) => SqlRun(g, ops[1..])
  }

  // ----- what the operations do to rows -----

  lemma {:induction false} PickAt<T>(rows: seq<T>, positions: seq<nat>)
    requires forall k :: 0 <= k < |positions| ==> positions[k] < |rows|
    ensures |Pick(rows, positions)| == |positions|
    ensures forall k :: 0 <= k < |positions| ==> Pick(rows, positions)[k] == rows[positions[k]]
  {
    if positions != [] {
      PickAt(rows, positions[1..]);
    }
  }

  /** LIMIT keeps the first rows and OFFSET those behind them, in either execution. */
  lemma WindowRows<V>(f: Frame<V>, n: nat)
    requires f.Valid()
    ensures var k := if n < |f.rows| then n else |f.rows|;
            && Step(f, Limit(n)) == SqlStep(f, Limit(n)) == Some(Frame(f.cols, f.rows[..k]))
            && Step(f, Offset(n)) == SqlStep(f, Offset(n)) == Some(Frame(f.cols, f.rows[k..]))
  {
    var k := if n < |f.rows| then n else |f.rows|;
    PickAt(f.rows, Span(0, k));
    PickAt(f.rows, Span(k, |f.rows|));
    assert Pick(f.rows, Span(0, k)) == f.rows[..k] && Pick(f.rows, Span(k, |f.rows|)) == f.rows[k..];
  }

  lemma {:induction false} PassingAre<V>(tuples: seq<seq<V>>, keep: seq<V> -> bool)
    ensures var p := Passing(tuples, keep);
            && (forall k :: 0 <= k < |p| ==> p[k] < |tuples|)
            && (forall j, k :: 0 <= j < k < |p| ==> p[j] < p[k])
            && forall i :: 0 <= i < |tuples| ==> (i in p <==> keep(tuples[i]))
  {
    if tuples != [] {
      PassingAre(tuples[..|tuples| - 1], keep);
    }
  }

  /** What a filter on `needs` sees of a row. */
  ghost predicate Sees<V>(row: Row<V>, needs: seq<string>, values: seq<V>) {
    |values| == |needs| && forall k :: 0 <= k < |needs| ==> needs[k] in row && values[k] == row[needs[k]]
  }

  lemma SeesTuple<V>(row: Row<V>, needs: seq<string>, values: seq<V>)
    requires (forall c :: c in needs ==> c in row) && Sees(row, needs, values)
    ensures values == Tuple(row, needs)
  {
  }

  /** A filter keeps the rows whose values in its columns pass, and their order. */
  lemma FilterRows<V>(f: Frame<V>, needs: seq<string>, keep: seq<V> -> bool) returns (g: Frame<V>, p: seq<nat>)
    requires f.Valid() && forall c :: c in needs ==> c in f.cols
    ensures Step(f, Where(needs, keep)) == SqlStep(f, Where(needs, keep)) == Some(g) && g.cols == f.cols
    ensures |g.rows| == |p| && forall k :: 0 <= k < |p| ==> p[k] < |f.rows| && g.rows[k] == f.rows[p[k]]
    ensures forall j, k :: 0 <= j < k < |p| ==> p[j] < p[k]
    ensures forall i, values :: 0 <= i < |f.rows| && Sees(f.rows[i], needs, values) ==> (i in p <==> keep(values))
  {
    assert Names(needs) <= Names(f.cols);
    var tuples := Tuples(f.rows, needs);
    p := Passing(tuples, keep);
    g := Frame(f.cols, Pick(f.rows, p));
    hide Passing, Pick, Sees, Tuple;
    PassingAre(tuples, keep);
    PickAt(f.rows, p);
    forall i, values | 0 <= i < |f.rows| && Sees(f.rows[i], needs, values) ensures i in p <==> keep(values) {
      assert f.rows[i].Keys == Names(f.cols);
      SeesTuple(f.rows[i], needs, values);
    }
  }

  /** A selection keeps every row, and of each the named columns with their values. */
  lemma SelectRows<V>(f: Frame<V>, fields: seq<string>)
    requires f.Valid() && fields != [] && forall c :: c in fields ==> c in f.cols
    ensures Step(f, Select(fields)) == SqlStep(f, Select(fields)) && Step(f, Select(fields)).Some?
    ensures var g := Step(f, Select(fields)).value;
            && g.cols == fields && |g.rows| == |f.rows|
            && forall i, c :: 0 <= i < |f.rows| && c in fields ==>
                 c in f.rows[i] && c in g.rows[i] && g.rows[i][c] == f.rows[i][c]
  {
    assert Names(fields) <= Names(f.cols);
    ExistingFacts(fields, f.cols);
    forall i, c | 0 <= i < |f.rows| && c in fields ensures c in f.rows[i] {
      assert f.rows[i].Keys == Names(f.cols);
    }
  }

  // ----- pushing down -----

  /** `transform_columns` over the recorded operations: names, without looking at the frame. */
  function Tracked<V>(cols: seq<string>, ops: seq<Op<V>>): seq<string>
    decreases |ops|
  {
    if ops == [] then cols
    else Tracked(if ops[0].Select? && ops[0].fields != [] then ops[0].fields else cols, ops[1..])
  }

  /** The columns execution ends with. */
  function Executed<V>(cols: seq<string>, ops: seq<Op<V>>): seq<string>
    decreases |ops|
  {
    if ops == [] then cols
    else if ops[0].Select? && Existing(ops[0].fields, cols) != [] then Executed(Existing(ops[0].fields, cols), ops[1..])
    else Executed(cols, ops[1..])
  }

  function Changed<V>(source: Frame<V>, ops: seq<Op<V>>): bool {
    Tracked(source.cols, ops) != source.cols
  }

  /** The frame the table function is made from. */
  function Pushed<V>(source: Frame<V>, ops: seq<Op<V>>): Frame<V> {
    var found := Existing(Tracked(source.cols, ops), source.cols);
    if Changed(source, ops) && found != [] then Project(source, found) else source
  }

  function WithoutSelects<V>(ops: seq<Op<V>>): seq<Op<V>> {
    if ops == [] then []
    else (if ops[0].Select? then [] else [ops[0]]) + WithoutSelects(ops[1..])
  }

  /** The operations that stay recorded. */
  function Retained<V>(source: Frame<V>, ops: seq<Op<V>>): seq<Op<V>> {
    if Changed(source, ops) then WithoutSelects(ops) else ops
  }

  /** A chain that changes the columns keeps everything but its SELECTs, in order; any other is kept whole. */
  lemma RetainedAre<V>(source: Frame<V>, a: seq<Op<V>>, op: Op<V>, b: seq<Op<V>>)
    ensures var ops := a + [op] + b;
            && (Tracked(source.cols, ops) == source.cols ==> Retained(source, ops) == ops)
            && (Tracked(source.cols, ops) != source.cols ==>
                  Retained(source, ops) == WithoutSelects(a) + (if op.Select? then [] else [op]) + WithoutSelects(b))
  {
    hide WithoutSelects, Tracked;
    WithoutSelectsConcat(a + [op], b);
    WithoutSelectsConcat(a, [op]);
    WithoutSelectsHead([op]);
    NoneWithoutSelects([op][1..]);
  }

  lemma {:induction false} WithoutSelectsConcat<V>(a: seq<Op<V>>, b: seq<Op<V>>)
    ensures WithoutSelects(a + b) == WithoutSelects(a) + WithoutSelects(b)
  {
    hide WithoutSelects;
    if a == [] {
      assert a + b == b;
      NoneWithoutSelects(a);
    } else {
      assert (a + b)[0] == a[0] && (a + b)[1..] == a[1..] + b;
      WithoutSelectsHead(a + b);
      WithoutSelectsHead(a);
      WithoutSelectsConcat(a[1..], b);
    }
  }

  lemma NoneWithoutSelects<V>(ops: seq<Op<V>>)
    requires ops == []
    ensures WithoutSelects(ops) == []
  {
  }

  lemma PushedValid<V>(source: Frame<V>, ops: seq<Op<V>>)
    requires source.Valid()
    ensures Pushed(source, ops).Valid()
  {
    ExistingFacts(Tracked(source.cols, ops), source.cols);
    if Existing(Tracked(source.cols, ops), source.cols) != [] {
      ProjectValid(source, Existing(Tracked(source.cols, ops), source.cols));
    }
  }

  // ----- when it is right -----

  /** Every operation finds the columns it names. */
  ghost predicate ReadsSurvive<V>(cols: seq<string>, ops: seq<Op<V>>)
    decreases |ops|
  {
    ops == [] ||
    (if ops[0].Select? then
       Names(ops[0].fields) <= Names(cols) && ReadsSurvive(if ops[0].fields == [] then cols else ops[0].fields, ops[1..])
     else Names(Reads(ops[0])) <= Names(cols) && ReadsSurvive(cols, ops[1..]))
  }

  lemma ProjectedTuples<V>(f: Frame<V>, cols: seq<string>, fields: seq<string>)
    requires f.Valid() && Names(fields) <= Names(cols) <= Names(f.cols)
    ensures Project(f, cols).Valid()
    ensures Tuples(Project(f, cols).rows, fields) == Tuples(f.rows, fields)
  {
    ProjectValid(f, cols);
    forall i | 0 <= i < |f.rows| ensures Tuple(Project(f, cols).rows[i], fields) == Tuple(f.rows[i], fields) {
      assert f.rows[i].Keys == Names(f.cols);
    }
  }

  lemma {:induction false} PickCut<V>(rows: seq<Row<V>>, cols: seq<string>, positions: seq<nat>)
    ensures Pick(CutAll(rows, cols), positions) == CutAll(Pick(rows, positions), cols)
  {
    hide Cut;
    if positions != [] {
      PickCut(rows, cols, positions[1..]);
      var first := if positions[0] < |rows| then [rows[positions[0]]] else [];
      var rest := Pick(rows, positions[1..]);
      assert CutAll(first + rest, cols) == CutAll(first, cols) + CutAll(rest, cols);
    }
  }

  /** Projecting commutes with an operation that reads surviving columns only. */
  lemma ChooseProjected<V>(f: Frame<V>, cols: seq<string>, op: Op<V>)
    requires f.Valid() && !op.Select? && Names(Reads(op)) <= Names(cols) <= Names(f.cols)
    ensures Project(f, cols).Valid()
    ensures Step(f, op).Some? && SqlStep(Project(f, cols), op) == Some(Project(Step(f, op).value, cols))
  {
    hide Pick, Chosen, Tuples;
    ExistingFacts(Reads(op), f.cols);
    ProjectedTuples(f, cols, Reads(op));
    PickCut(f.rows, cols, Chosen(op, Tuples(f.rows, Reads(op))));
  }

  lemma ProjectTwice<V>(f: Frame<V>, wide: seq<string>, cols: seq<string>)
    requires Names(cols) <= Names(wide)
    ensures Project(Project(f, wide), cols) == Project(f, cols)
  {
    var a, b := Project(Project(f, wide), cols), Project(f, cols);
    forall i | 0 <= i < |f.rows| ensures a.rows[i] == b.rows[i] {
      forall c | c in cols ensures c in wide {
        assert c in Names(cols);
      }
    }
  }

  lemma ProjectAll<V>(f: Frame<V>)
    requires f.Valid()
    ensures Project(f, f.cols) == f
  {
    forall i | 0 <= i < |f.rows| ensures Project(f, f.cols).rows[i] == f.rows[i] {
      assert f.rows[i].Keys == Names(f.cols);
    }
  }

  lemma {:induction false} ExecutedShrinks<V>(cols: seq<string>, ops: seq<Op<V>>)
    ensures Names(Executed(cols, ops)) <= Names(cols)
    decreases |ops|
  {
    if ops != [] {
      if ops[0].Select? && Existing(ops[0].fields, cols) != [] {
        ExistingFacts(ops[0].fields, cols);
        ExecutedShrinks(Existing(ops[0].fields, cols), ops[1..]);
      } else {
        ExecutedShrinks(cols, ops[1..]);
      }
    }
  }

  lemma StepColumns<V>(f: Frame<V>, op: Op<V>)
    requires f.Valid() && Step(f, op).Some?
    ensures Step(f, op).value.cols == Executed(f.cols, [op])
  {
    hide Pick, Chosen, Tuples;
    assert [op][1..] == [];
  }

  lemma {:induction false} RunColumns<V>(f: Frame<V>, ops: seq<Op<V>>)
    requires f.Valid() && Run(f, ops).Some?
    ensures Run(f, ops).value.cols == Executed(f.cols, ops) && Run(f, ops).value.Valid()
    decreases |ops|
  {
    hide Pick, Chosen, Tuples;
    if ops != [] {
      StepValid(f, ops[0]);
      StepColumns(f, ops[0]);
      RunColumns(Step(f, ops[0]).value, ops[1..]);
    }
  }

  lemma WithoutSelectsHead<V>(ops: seq<Op<V>>)
    requires ops != []
    ensures ops[0].Select? ==> WithoutSelects(ops) == WithoutSelects(ops[1..])
    ensures !ops[0].Select? ==> WithoutSelects(ops) == [ops[0]] + WithoutSelects(ops[1..])
    ensures !ops[0].Select? ==> WithoutSelects(ops)[1..] == WithoutSelects(ops[1..])
  {
  }

  /** The pushed-down chain and the full chain, in step. */
  lemma {:induction false} ProjectedRun<V>(f: Frame<V>, ops: seq<Op<V>>, cols: seq<string>)
    requires f.Valid() && Run(f, ops).Some? && cols == Executed(f.cols, ops)
    requires ReadsSurvive(cols, WithoutSelects(ops))
    ensures Project(f, cols).Valid()
    ensures SqlRun(Project(f, cols), WithoutSelects(ops)) == Run(f, ops)
    decreases |ops|
  {
    hide SqlStep, Executed, WithoutSelects;
    ExecutedShrinks(f.cols, ops);
    ProjectValid(f, cols);
    if ops == [] {
      EmptyChain(f, ops);
      ProjectAll(f);
    } else {
      WithoutSelectsHead(ops);
      StepValid(f, ops[0]);
      var g := Step(f, ops[0]).value;
      ExecutedStep(f, ops);
      if ops[0].Select? {
        ProjectedRun(g, ops[1..], cols);
        ExecutedShrinks(g.cols, ops[1..]);
        SelectProjected(f, ops[0], cols);
      } else {
        ChooseProjected(f, cols, ops[0]);
        ProjectedRun(g, ops[1..], cols);
      }
    }
  }

  lemma EmptyChain<V>(f: Frame<V>, ops: seq<Op<V>>)
    requires ops == []
    ensures Executed(f.cols, ops) == f.cols && WithoutSelects(ops) == []
  {
  }

  lemma ExecutedStep<V>(f: Frame<V>, ops: seq<Op<V>>)
    requires f.Valid() && ops != [] && Step(f, ops[0]).Some?
    ensures Executed(f.cols, ops) == Executed(Step(f, ops[0]).value.cols, ops[1..])
  {
    hide Pick, Chosen, Tuples;
  }

  lemma SelectProjected<V>(f: Frame<V>, op: Op<V>, cols: seq<string>)
    requires f.Valid() && op.Select? && Names(cols) <= Names(Step(f, op).value.cols)
    ensures Project(Step(f, op).value, cols) == Project(f, cols)
  {
    if Existing(op.fields, f.cols) != [] {
      ProjectTwice(f, Existing(op.fields, f.cols), cols);
    }
  }

  /** Where every column is found the two executions agree. */
  lemma {:induction false} SqlRunIsRun<V>(f: Frame<V>, ops: seq<Op<V>>)
    requires f.Valid() && ReadsSurvive(f.cols, ops)
    ensures SqlRun(f, ops) == Run(f, ops)
    decreases |ops|
  {
    hide Pick, Chosen, Tuples;
    if ops != [] {
      StepValid(f, ops[0]);
      ExistingFacts(if ops[0].Select? then ops[0].fields else Reads(ops[0]), f.cols);
      SqlRunIsRun(Step(f, ops[0]).value, ops[1..]);
    }
  }

  lemma {:induction false} SqlRunNeedsColumns<V>(f: Frame<V>, ops: seq<Op<V>>)
    requires f.Valid() && SqlRun(f, ops).Some?
    ensures ReadsSurvive(f.cols, ops)
    decreases |ops|
  {
    hide Pick, Chosen, Tuples;
    if ops != [] {
      StepValid(f, ops[0]);
      SqlRunNeedsColumns(SqlStep(f, ops[0]).value, ops[1..]);
    }
  }

  lemma {:induction false} NoSelectsKeepColumns<V>(f: Frame<V>, ops: seq<Op<V>>)
    requires f.Valid() && SqlRun(f, WithoutSelects(ops)).Some?
    ensures SqlRun(f, WithoutSelects(ops)).value.cols == f.cols
    decreases |ops|
  {
    hide Pick, Chosen, Tuples;
    if ops != [] {
      WithoutSelectsHead(ops);
      if ops[0].Select? {
        NoSelectsKeepColumns(f, ops[1..]);
      } else {
        StepValid(f, ops[0]);
        NoSelectsKeepColumns(SqlStep(f, ops[0]).value, ops[1..]);
      }
    }
  }

  /**
   Pushdown gives the answer of the full chain exactly when every retained operation reads only
   columns that survive and, if columns were changed, the names tracked are the columns that
   execution ends with.  Both are decided by the names alone.
   */
  lemma PushdownRightExactlyWhen<V>(source: Frame<V>, ops: seq<Op<V>>)
    requires source.Valid() && Run(source, ops).Some?
    ensures Pushed(source, ops).Valid()
    ensures SqlRun(Pushed(source, ops), Retained(source, ops)) == Run(source, ops) <==>
            && ReadsSurvive(Pushed(source, ops).cols, Retained(source, ops))
            && (Changed(source, ops) ==> Pushed(source, ops).cols == Executed(source.cols, ops))
  {
    hide Project, Step, SqlStep, Run, SqlRun, Executed, Tracked, WithoutSelects, ReadsSurvive;
    var pushed, kept := Pushed(source, ops), Retained(source, ops);
    PushedValid(source, ops);
    RunColumns(source, ops);
    if SqlRun(pushed, kept) == Run(source, ops) {
      SqlRunNeedsColumns(pushed, kept);
      if Changed(source, ops) {
        NoSelectsKeepColumns(pushed, ops);
      }
    }
    if ReadsSurvive(pushed.cols, kept) {
      if Changed(source, ops) {
        if pushed.cols == Executed(source.cols, ops) {
          PushedIsProjection(source, ops);
          ProjectedRun(source, ops, pushed.cols);
        }
      } else {
        SqlRunIsRun(source, ops);
      }
    }
  }

  lemma PushedIsProjection<V>(source: Frame<V>, ops: seq<Op<V>>)
    requires source.Valid()
    ensures Pushed(source, ops) == Project(source, Pushed(source, ops).cols)
  {
    hide Existing, Tracked;
    ProjectAll(source);
  }

  // ----- what a caller can look for -----

  /** Every SELECT names columns available at that point. */
  ghost predicate SelectsFit<V>(cols: seq<string>, ops: seq<Op<V>>)
    decreases |ops|
  {
    ops == [] ||
    (if ops[0].Select? && ops[0].fields != [] then
       Names(ops[0].fields) <= Names(cols) && SelectsFit(ops[0].fields, ops[1..])
     else SelectsFit(cols, ops[1..]))
  }

  lemma {:induction false} FittingSelectsTracked<V>(cols: seq<string>, ops: seq<Op<V>>)
    requires SelectsFit(cols, ops)
    ensures Tracked(cols, ops) == Executed(cols, ops)
    decreases |ops|
  {
    if ops != [] {
      if ops[0].Select? && ops[0].fields != [] {
        ExistingFacts(ops[0].fields, cols);
        FittingSelectsTracked(ops[0].fields, ops[1..]);
      } else {
        FittingSelectsTracked(cols, ops[1..]);
      }
    }
  }

  /** With such SELECTs pushdown is right if and only if the retained operations read surviving columns. */
  lemma PushdownSound<V>(source: Frame<V>, ops: seq<Op<V>>)
    requires source.Valid() && Run(source, ops).Some? && SelectsFit(source.cols, ops)
    ensures Pushed(source, ops).Valid()
    ensures SqlRun(Pushed(source, ops), Retained(source, ops)) == Run(source, ops) <==>
            ReadsSurvive(Pushed(source, ops).cols, Retained(source, ops))
  {
    hide Step, SqlStep, Run, SqlRun, Executed, Tracked, WithoutSelects, ReadsSurvive, SelectsFit, Retained;
    PushdownRightExactlyWhen(source, ops);
    FittingSelectsTracked(source.cols, ops);
    ExecutedShrinks(source.cols, ops);
    ExistingFacts(Tracked(source.cols, ops), source.cols);
    ExecutedNonempty(source.cols, ops);
  }

  lemma {:induction false} ExecutedNonempty<V>(cols: seq<string>, ops: seq<Op<V>>)
    ensures Executed(cols, ops) == [] <==> cols == []
    decreases |ops|
  {
    if ops != [] {
      ExistingFacts(if ops[0].Select? then ops[0].fields else [], cols);
      if ops[0].Select? && Existing(ops[0].fields, cols) != [] {
        assert Existing(ops[0].fields, cols)[0] in Names(Existing(ops[0].fields, cols));
        ExecutedNonempty(Existing(ops[0].fields, cols), ops[1..]);
      } else {
        ExecutedNonempty(cols, ops[1..]);
      }
    }
  }

  /** A filter on a column that a later SELECT leaves out cannot be run any more. */
  lemma FilterThenSelectFails<V>(rows: seq<Row<V>>, keep: seq<V> -> bool)
    requires forall i :: 0 <= i < |rows| ==> rows[i].Keys == {"a", "b"}
    ensures var source, ops := Frame(["a", "b"], rows), [Where(["b"], keep), Select(["a"])];
            && source.Valid() && Run(source, ops).Some? && Pushed(source, ops).Valid()
            && SqlRun(Pushed(source, ops), Retained(source, ops)) == None
  {
    var source, ops := Frame(["a", "b"], rows), [Where(["b"], keep), Select(["a"])];
    assert Names(["a", "b"]) == {"a", "b"} && Names(["b"]) == {"b"} && Names(["a"]) == {"a"};
    FilterThenSelectTracked(ops, keep);
    StepValid(source, ops[0]);
    var filtered := Step(source, ops[0]).value;
    StepValid(filtered, ops[1]);
    assert Run(source, ops) == Run(filtered, ops[1..]) == Run(Step(filtered, ops[1]).value, ops[1..][1..]);
    PushdownRightExactlyWhen(source, ops);
  }

  lemma FilterThenSelectTracked<V>(ops: seq<Op<V>>, keep: seq<V> -> bool)
    requires ops == [Where(["b"], keep), Select(["a"])]
    ensures ops[1..] == [Select(["a"])] && ops[1..][1..] == []
    ensures Tracked(["a", "b"], ops) == ["a"] && Existing(["a"], ["a", "b"]) == ["a"]
    ensures WithoutSelects(ops) == [ops[0]]
  {
    assert ops[1..] == [Select(["a"])] && ops[1..][1..] == [];
    assert Tracked(["a", "b"], ops) == Tracked(["a", "b"], ops[1..]) == Tracked(["a"], ops[1..][1..]);
    WithoutSelectsHead(ops);
    WithoutSelectsHead(ops[1..]);
  }

  /** A SELECT of a column that an earlier one left out has no effect in execution, but is tracked. */
  lemma SelectAfterSelectGoesWrong<V>(rows: seq<Row<V>>)
    requires forall i :: 0 <= i < |rows| ==> rows[i].Keys == {"a", "b"}
    ensures var source, ops: seq<Op<V>> := Frame(["a", "b"], rows), [Select(["a"]), Select(["b"])];
            && source.Valid() && Run(source, ops).Some? && Pushed(source, ops).Valid()
            && SqlRun(Pushed(source, ops), Retained(source, ops)) != Run(source, ops)
  {
    var source, ops: seq<Op<V>> := Frame(["a", "b"], rows), [Select(["a"]), Select(["b"])];
    assert Names(["a", "b"]) == {"a", "b"};
    SelectAfterSelectTracked(ops);
    StepValid(source, ops[0]);
    var first := Step(source, ops[0]).value;
    StepValid(first, ops[1]);
    assert Run(source, ops) == Run(first, ops[1..]) == Run(Step(first, ops[1]).value, ops[1..][1..]);
    PushdownRightExactlyWhen(source, ops);
  }

  lemma SelectAfterSelectTracked<V>(ops: seq<Op<V>>)
    requires ops == [Select(["a"]), Select(["b"])]
    ensures ops[1..] == [Select(["b"])] && ops[1..][1..] == []
    ensures Tracked(["a", "b"], ops) == ["b"] && Executed(["a", "b"], ops) == ["a"]
    ensures Existing(["b"], ["a", "b"]) == ["b"] && Existing(["a"], ["a", "b"]) == ["a"]
  {
    assert ops[1..] == [Select(["b"])] && ops[1..][1..] == [];
    assert Existing(["a"], ["a", "b"]) == ["a"] && Existing(["b"], ["a"]) == [] && Existing(["b"], ["a", "b"]) == ["b"];
    assert Tracked(["a", "b"], ops) == Tracked(["a"], ops[1..]) == Tracked(["b"], ops[1..][1..]);
    assert Executed(["a", "b"], ops) == Executed(["a"], ops[1..]) == Executed(["a"], ops[1..][1..]);
  }
}
