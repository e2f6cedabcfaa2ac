/**
 `query_df` and `eval_expression`: running SQL over a pandas frame and giving every result row the
 index label of the row it came from, by way of chDB's `_row_id` column.
 */
module RowLabels {

  datatype Label = IntLabel(n: int) | TextLabel(s: string)

  /** A frame: one label and one row of values per position. */
  datatype Frame<R> = Frame(index: seq<Label>, rows: seq<R>) {
    ghost predicate Valid() {
      |index| == |rows|
    }
  }

  datatype Saved = NotReset | Reset(index: seq<Label>)

  predicate Contiguous(index: seq<Label>) {
    forall i :: 0 <= i < |index| ==> index[i] == IntLabel(i)
  }

  function Range(n: nat): seq<Label> {
    seq(n, i => IntLabel(i))
  }

  /** `_prepare_df_for_chdb`. */
  function Prepare<R>(df: Frame<R>): (Frame<R>, Saved) {
    if |df.rows| == 0 || Contiguous(df.index) then (df, NotReset)
    else (Frame(Range(|df.rows|), df.rows), Reset(df.index))
  }

  // ----- the engine -----

  /** A result row with its `_row_id`, that is, its position in the frame the engine was given. */
  datatype Emitted<V> = Emitted(rowId: nat, value: V)

  ghost predicate Fetchable<R>(used: Frame<R>, p: nat)
    requires used.Valid()
  {
    p < |used.rows| && used.index[p].IntLabel? && 0 <= used.index[p].n < |used.rows|
  }

  /** chDB takes the label at a position for the position to read. */
  ghost function Fetch<R>(used: Frame<R>, p: nat): R
    requires used.Valid() && Fetchable(used, p)
  {
    used.rows[used.index[p].n]
  }

  /** Some rows of `used`, in some order, each with the value of `f` on what was read for it. */
  ghost predicate Emission<R, V>(used: Frame<R>, f: R -> V, result: seq<Emitted<V>>)
    requires used.Valid()
  {
    forall k :: 0 <= k < |result| ==> Fetchable(used, result[k].rowId) && result[k].value == f(Fetch(used, result[k].rowId))
  }

  // ----- which queries get an order and a row id -----

  datatype Strategy = Strategy(addOrderByRowId: bool, addTiebreaker: bool, needRowId: bool)

  /** The flags `query_df` sets. */
  method ChooseStrategy(preserveOrder: bool, hasOrderBy: bool, hasGroupBy: bool, isAggregate: bool) returns (s: Strategy)
    ensures s.needRowId <==> preserveOrder && !hasGroupBy && !isAggregate
    ensures s.needRowId <==> s.addOrderByRowId || s.addTiebreaker
    ensures s.addTiebreaker ==> hasOrderBy
    ensures s.addOrderByRowId ==> !hasOrderBy
  {
    var addOrderByRowId, addTiebreaker, needRowId := false, false, false;
    if !preserveOrder {
    } else if hasGroupBy || isAggregate {
    } else if hasOrderBy {
      addTiebreaker := true;
      needRowId := true;
    } else {
      addOrderByRowId := true;
      needRowId := true;
    }
    s := Strategy(addOrderByRowId, addTiebreaker, needRowId);
  }

  // ----- restoring the index -----

  /** Row `k` of the result carries the label of the row of `df` that it is. */
  ghost predicate LabelsFollow<R, V>(df: Frame<R>, result: seq<Emitted<V>>, index: seq<Label>)
    requires df.Valid()
  {
    && |index| == |result|
    && forall k :: 0 <= k < |result| ==> result[k].rowId < |df.rows| && index[k] == df.index[result[k].rowId]
  }

  /** Each value was computed from the row of `df` at its row id. */
  ghost predicate ValuesFollow<R, V>(df: Frame<R>, f: R -> V, result: seq<Emitted<V>>) {
    forall k :: 0 <= k < |result| ==> result[k].rowId < |df.rows| && result[k].value == f(df.rows[result[k].rowId])
  }

  function Restored<R, V>(df: Frame<R>, saved: Saved, result: seq<Emitted<V>>): seq<Label>
    requires df.Valid() && (saved.Reset? ==> |saved.index| == |df.rows|)
    requires forall k :: 0 <= k < |result| ==> result[k].rowId < |df.rows|
  {
    var index := if saved.Reset? then saved.index else df.index;
    seq(|result|, k requires 0 <= k < |result| => index[result[k].rowId])
  }

  /**
   The index `query_df` gives its result: by row id where one came back, by position where only
   renamed row-id columns did, and otherwise the engine's own.
   */
  method RestoreIndex<R, V>(df: Frame<R>, f: R -> V, needRowId: bool, hasRowId: bool, hasRenamed: bool, result: seq<Emitted<V>>)
    returns (index: seq<Label>)
    requires df.Valid() && Emission(Prepare(df).0, f, result)
    ensures ValuesFollow(df, f, result)
    ensures needRowId && hasRowId ==> LabelsFollow(df, result, index)
    ensures !(needRowId && hasRowId) ==>
              index == if (hasRowId || hasRenamed) && |result| == |df.rows| then df.index else Range(|result|)
  {
    EmissionFollows(df, f, result);
    var (used, saved) := Prepare(df);
    index := Range(|result|);
    if needRowId && hasRowId {
      index := Restored(df, saved, result);
    } else if hasRowId || hasRenamed {
      if saved.Reset? && |result| == |saved.index| {
        index := saved.index;
      }
    }
  }

  /**
   chDB must be given a frame whose labels are its positions.  `Prepare` gives it one that holds
   the same rows at the same positions, so what it reads for a row id is that row of `df`.
   */
  lemma EmissionFollows<R, V>(df: Frame<R>, f: R -> V, result: seq<Emitted<V>>)
    requires df.Valid() && Emission(Prepare(df).0, f, result)
    ensures ValuesFollow(df, f, result)
  {
    var used := Prepare(df).0;
    forall k | 0 <= k < |result|
      ensures result[k].rowId < |df.rows| && result[k].value == f(df.rows[result[k].rowId])
    {
      assert used.index[result[k].rowId] == IntLabel(result[k].rowId);
    }
  }

  /**
   The guard is exact: on a frame whose rows all differ, reading without the reset finds every row
   exactly when the index is the contiguous one.
   */
  lemma UnpreparedExactlyWhen<R>(df: Frame<R>)
    requires df.Valid() && forall p :: 0 <= p < |df.rows| ==> Fetchable(df, p)
    requires forall i, j :: 0 <= i < j < |df.rows| ==> df.rows[i] != df.rows[j]
    ensures (forall p :: 0 <= p < |df.rows| ==> Fetch(df, p) == df.rows[p]) <==> Contiguous(df.index)
  {
    forall p | 0 <= p < |df.rows| ensures Fetch(df, p) == df.rows[p] <==> df.index[p] == IntLabel(p) {
      assert Fetchable(df, p);
      var q := df.index[p].n;
      assert q < p ==> df.rows[q] != df.rows[p];
      assert p < q ==> df.rows[p] != df.rows[q];
    }
  }

  // ----- eval_expression -----

  /** Each of `n` positions occurs once. */
  ghost predicate Permutation(n: nat, ids: seq<nat>) {
    && |ids| == n
    && (forall k :: 0 <= k < n ==> ids[k] < n)
    && (forall j, k :: 0 <= j < k < n ==> ids[j] != ids[k])
  }

  function RowIds<V>(result: seq<Emitted<V>>): seq<nat> {
    seq(|result|, k requires 0 <= k < |result| => result[k].rowId)
  }

  ghost function Below(n: nat): set<nat> {
    if n == 0 then {} else Below(n - 1) + {n - 1}
  }

  lemma {:induction false} BelowIs(n: nat)
    ensures |Below(n)| == n && forall i: nat :: i in Below(n) <==> i < n
  {
    if n > 0 {
      BelowIs(n - 1);
    }
  }

  ghost function Taken(ids: seq<nat>): set<nat> {
    set i | i in ids
  }

  lemma {:induction false} TakenCount(ids: seq<nat>)
    requires forall j, k :: 0 <= j < k < |ids| ==> ids[j] != ids[k]
    ensures |Taken(ids)| == |ids|
  {
    if ids != [] {
      var init, last := ids[..|ids| - 1], ids[|ids| - 1];
      TakenCount(init);
      assert ids == init + [last];
      assert Taken(ids) == Taken(init) + {last};
    }
  }

  lemma {:induction false} SameSize(a: set<nat>, b: set<nat>)
    requires a <= b && |a| == |b|
    ensures a == b
  {
    if a != {} {
      var x :| x in a;
      SameSize(a - {x}, b - {x});
    }
  }

  /** `n` different numbers below `n` are all of them. */
  lemma PermutationCovers(n: nat, ids: seq<nat>, p: nat)
    requires Permutation(n, ids) && p < n
    ensures p in ids
  {
    BelowIs(n);
    TakenCount(ids);
    SameSize(Taken(ids), Below(n));
    assert p in Taken(ids);
  }

  function Mapped<T>(g: nat -> T, ids: seq<nat>): seq<T> {
    seq(|ids|, k requires 0 <= k < |ids| => g(ids[k]))
  }

  function Counting(n: nat): (s: seq<nat>)
    ensures |s| == n
  {
    seq(n, k => k)
  }

  lemma MappedSplit<T>(g: nat -> T, left: seq<nat>, p: nat, right: seq<nat>)
    ensures multiset(Mapped(g, left + [p] + right)) == multiset(Mapped(g, left + right)) + multiset{g(p)}
  {
    assert Mapped(g, left + [p] + right) == Mapped(g, left) + [g(p)] + Mapped(g, right);
    assert Mapped(g, left + right) == Mapped(g, left) + Mapped(g, right);
  }

  lemma PermutationShrinks(n: nat, ids: seq<nat>, k: nat)
    requires Permutation(n + 1, ids) && k <= n && ids[k] == n
    ensures Permutation(n, ids[..k] + ids[k + 1..])
  {
    var rest := ids[..k] + ids[k + 1..];
    forall i | 0 <= i < n ensures rest[i] < n {
      assert rest[i] == ids[if i < k then i else i + 1];
    }
    forall i, j | 0 <= i < j < n ensures rest[i] != rest[j] {
      assert rest[i] == ids[if i < k then i else i + 1];
      assert rest[j] == ids[if j < k then j else j + 1];
    }
  }

  lemma CountingSnoc<T>(g: nat -> T, n: nat)
    ensures multiset(Mapped(g, Counting(n + 1))) == multiset(Mapped(g, Counting(n))) + multiset{g(n)}
  {
    assert Mapped(g, Counting(n + 1)) == Mapped(g, Counting(n)) + [g(n)];
  }

  /** Mapping over a permutation gives the same elements. */
  lemma {:induction false} PermutationKeepsElements<T>(g: nat -> T, n: nat, ids: seq<nat>)
    requires |ids| == n && Permutation(n, ids)
    ensures multiset(Mapped(g, ids)) == multiset(Mapped(g, Counting(n)))
  {
    hide Permutation, Mapped, Counting;
    if n == 0 {
      assert ids == Counting(n);
    } else {
      PermutationCovers(n, ids, n - 1);
      var k :| 0 <= k < n && ids[k] == n - 1;
      var left, right := ids[..k], ids[k + 1..];
      PermutationShrinks(n - 1, ids, k);
      PermutationKeepsElements(g, n - 1, left + right);
      MappedSplit(g, left, n - 1, right);
      assert ids == left + [n - 1] + right;
      CountingSnoc(g, n - 1);
    }
  }

  lemma {:induction false} IncreasingAbove(ids: seq<nat>, k: nat)
    requires k < |ids| && forall i, j :: 0 <= i < j < |ids| ==> ids[i] < ids[j]
    ensures k <= ids[k]
  {
    if k > 0 {
      IncreasingAbove(ids, k - 1);
      assert ids[k - 1] < ids[k];
    }
  }

  lemma {:induction false} IncreasingUnder(n: nat, ids: seq<nat>, k: nat)
    requires k < |ids| == n && ids[n - 1] < n && forall i, j :: 0 <= i < j < n ==> ids[i] < ids[j]
    ensures ids[k] <= k
    decreases n - k
  {
    if k < n - 1 {
      IncreasingUnder(n, ids, k + 1);
      assert ids[k] < ids[k + 1];
    }
  }

  /** Increasing row ids leave every row in its place. */
  lemma IncreasingIsIdentity(n: nat, ids: seq<nat>)
    requires |ids| == n && forall k :: 0 <= k < n ==> ids[k] < n
    requires forall j, k :: 0 <= j < k < n ==> ids[j] < ids[k]
    ensures ids == Counting(n)
  {
    forall k | 0 <= k < n ensures ids[k] == k {
      IncreasingAbove(ids, k);
      IncreasingUnder(n, ids, k);
    }
  }

  /** Label and value of each row of `df` under `f`: the series element-wise evaluation gives. */
  function Cell<R, V>(df: Frame<R>, f: R -> V, p: nat): (Label, V)
    requires df.Valid() && p < |df.rows|
  {
    (df.index[p], f(df.rows[p]))
  }

  function Elementwise<R, V>(df: Frame<R>, f: R -> V): seq<(Label, V)>
    requires df.Valid()
  {
    seq(|df.rows|, p requires 0 <= p < |df.rows| => Cell(df, f, p))
  }

  function Series<V>(index: seq<Label>, result: seq<Emitted<V>>): seq<(Label, V)>
    requires |index| == |result|
  {
    seq(|result|, k requires 0 <= k < |result| => (index[k], result[k].value))
  }

  /**
   The index `eval_expression` gives its series.  An aggregate is computed on the frame as it is,
   and like a row-expanding expression keeps the engine's own index.
   */
  method EvalExpression<R, V>(df: Frame<R>, f: R -> V, isAggregate: bool, isRowExpanding: bool, hasRowId: bool,
                              result: seq<Emitted<V>>)
    returns (index: seq<Label>)
    requires df.Valid() && (!isAggregate ==> Emission(Prepare(df).0, f, result))
    ensures var rowLevel := !isAggregate && !isRowExpanding && |result| == |df.rows|;
            && (rowLevel && hasRowId ==> LabelsFollow(df, result, index))
            && (rowLevel && !hasRowId ==> index == df.index)
            && (!rowLevel ==> index == Range(|result|))
  {
    var saved := NotReset;
    if !isAggregate {
      saved := Prepare(df).1;
      EmissionFollows(df, f, result);
    }
    index := Range(|result|);
    if !isAggregate && !isRowExpanding && |result| == |df.rows| {
      if hasRowId {
        index := Restored(df, saved, result);
      } else {
        index := df.index;
      }
    }
  }

  /**
   Row-level evaluation is element-wise evaluation for every order of emission, duplicate labels
   included: the same labelled values, and in the same order if the row ids come back in order.
   */
  lemma EvaluationIsElementwise<R, V>(df: Frame<R>, f: R -> V, result: seq<Emitted<V>>, index: seq<Label>)
    requires df.Valid() && Emission(Prepare(df).0, f, result)
    requires LabelsFollow(df, result, index) && Permutation(|df.rows|, RowIds(result))
    ensures multiset(Series(index, result)) == multiset(Elementwise(df, f))
    ensures (forall j, k :: 0 <= j < k < |result| ==> result[j].rowId < result[k].rowId) ==>
              Series(index, result) == Elementwise(df, f)
  {
    EmissionFollows(df, f, result);
    if |df.rows| > 0 {
      var n := |df.rows|;
      var g := (p: nat) => if p < n then Cell(df, f, p) else Cell(df, f, 0);
      var ids := RowIds(result);
      PermutationKeepsElements(g, n, ids);
      assert Series(index, result) == Mapped(g, ids);
      assert Elementwise(df, f) == Mapped(g, Counting(n));
      if forall j, k :: 0 <= j < k < |result| ==> result[j].rowId < result[k].rowId {
        IncreasingIsIdentity(n, ids);
      }
    }
  }

  /** What ORDER BY _row_id asks of the engine. */
  ghost predicate InRowIdOrder<V>(result: seq<Emitted<V>>) {
    forall j, k :: 0 <= j < k < |result| ==> result[j].rowId <= result[k].rowId
  }

  /**
   The CASE WHEN evaluator overwrites the restored index with the frame's own, by position.  That
   is right on every frame, duplicate labels included, since its query orders by row id.
   */
  lemma PositionalOverwriteRight<R, V>(df: Frame<R>, f: R -> V, result: seq<Emitted<V>>)
    requires df.Valid() && Emission(Prepare(df).0, f, result)
    requires Permutation(|df.rows|, RowIds(result)) && InRowIdOrder(result)
    ensures LabelsFollow(df, result, df.index) && Series(df.index, result) == Elementwise(df, f)
  {
    var ids := RowIds(result);
    EmissionFollows(df, f, result);
    forall j, k | 0 <= j < k < |ids| ensures ids[j] < ids[k] {
      assert ids[j] != ids[k] && result[j].rowId <= result[k].rowId;
    }
    IncreasingIsIdentity(|df.rows|, ids);
    forall k | 0 <= k < |result| ensures result[k].rowId == k {
      assert ids[k] == Counting(|df.rows|)[k];
    }
  }

  ghost predicate Distinct(index: seq<Label>) {
    forall i, j :: 0 <= i < j < |index| ==> index[i] != index[j]
  }

  /**
   It would be wrong, over distinct labels, for exactly those emissions in which some row is not in
   its place: an engine that does not keep to the ORDER BY.
   */
  lemma PositionalIndexExactlyWhen<R, V>(df: Frame<R>, result: seq<Emitted<V>>)
    requires df.Valid() && Distinct(df.index) && |result| == |df.rows|
    requires forall k :: 0 <= k < |result| ==> result[k].rowId < |df.rows|
    ensures LabelsFollow(df, result, df.index) <==> forall k :: 0 <= k < |result| ==> result[k].rowId == k
  {
    forall k | 0 <= k < |result| ensures df.index[k] == df.index[result[k].rowId] <==> result[k].rowId == k {
      var p := result[k].rowId;
      assert p < k ==> df.index[p] != df.index[k];
      assert k < p ==> df.index[k] != df.index[p];
    }
  }
}
