/**
 The parts of `query_df` together: the order added to the text survives the threading of `_row_id`,
 and the labelled result is the filtered frame in source order, or stably sorted.
 */
module QueryDf {
  import OuterClauses
  import RowLabels
  import opened SqlText
  import StableSort
  import Threading = RowIdThreading

  // ----- the text -----

  const ORDER_BY: string := OuterClauses.ORDER_BY

  /** A gap in front of a FROM: no character that could end an ORDER BY, and no parenthesis. */
  predicate Gap(g: string) {
    forall k :: 0 <= k < |g| ==> g[k] != 'Y' && g[k] != '(' && g[k] != ')'
  }

  /** No ORDER BY reaches into the gap or the FROM behind it. */
  lemma NoOrderAcross(a: string, g: string, b: string, k: nat)
    requires Gap(g) && |a| < k + 8 && k < |a| + |g| + 4
    ensures !OccursAt(a + g + "FROM" + b, ORDER_BY, k)
  {
    var u, f := a + g + "FROM" + b, |a| + |g|;
    assert u[f] == 'F' && u[f + 1] == 'R' && u[f + 2] == 'O' && u[f + 3] == 'M';
    if k + 8 <= f {
      assert u[k + 7] == g[k + 7 - |a|];
      Mismatch(u, ORDER_BY, k, 7);
    } else if k <= f {
      Mismatch(u, ORDER_BY, k, f - k);
    } else if k == f + 2 {
      Mismatch(u, ORDER_BY, k, 1);
    } else {
      Mismatch(u, ORDER_BY, k, 0);
    }
  }

  /** The outer ORDER BY test, told from the text before the gap and the text behind the FROM. */
  predicate OuterOf(a: string, b: string) {
    var p, q := RFind(a, ORDER_BY), RFind(b, ORDER_BY);
    if q != -1 then OuterClauses.Depth(b[q..]) >= 0
    else p != -1 && OuterClauses.Depth(a[p..]) + OuterClauses.Depth(b) >= 0
  }

  lemma LastAcross(a: string, g: string, b: string)
    requires Gap(g)
    ensures var u, p, q := a + g + "FROM" + b, RFind(a, ORDER_BY), RFind(b, ORDER_BY);
            RFind(u, ORDER_BY) == if q != -1 then |a| + |g| + 4 + q else p
  {
    hide RFind, Gap;
    var u, n := a + g + "FROM" + b, |a| + |g| + 4;
    assert u[..|a|] == a && u[0..|a|] == a && u[n..|u|] == b;
    forall k: nat ensures OccursAt(u, ORDER_BY, k) <==> OccursAt(a, ORDER_BY, k) || (n <= k && OccursAt(b, ORDER_BY, k - n)) {
      if |a| < k + 8 && k < n {
        NoOrderAcross(a, g, b, k);
      } else if k < n {
        OccursInSlice(u, ORDER_BY, 0, |a|, k);
      } else {
        OccursInSlice(u, ORDER_BY, n, |u|, k - n);
      }
    }
    var p, q, r := RFind(a, ORDER_BY), RFind(b, ORDER_BY), RFind(u, ORDER_BY);
    if q != -1 {
      assert OccursAt(u, ORDER_BY, n + q);
      assert forall j :: q < j ==> !OccursAt(b, ORDER_BY, j);
    } else if p != -1 {
      assert OccursAt(u, ORDER_BY, p);
    }
    if r != -1 {
      assert OccursAt(u, ORDER_BY, r);
      assert OccursAt(a, ORDER_BY, r) || (n <= r && OccursAt(b, ORDER_BY, r - n));
    }
  }

  lemma OuterAcross(a: string, g: string, b: string)
    requires Gap(g)
    ensures OuterClauses.HasOuterOrderBy(a + g + "FROM" + b) <==> OuterOf(a, b)
  {
    hide RFind, OuterClauses.Depth;
    var u, p, q := a + g + "FROM" + b, RFind(a, ORDER_BY), RFind(b, ORDER_BY);
    LastAcross(a, g, b);
    OuterClauses.OuterIsSuffixDepth(u);
    if q != -1 {
      assert u[|a| + |g| + 4 + q..] == b[q..];
    } else if p != -1 {
      var m := g + "FROM";
      assert u[p..] == a[p..] + m + b;
      OuterClauses.DepthConcat(a[p..] + m, b);
      OuterClauses.DepthConcat(a[p..], m);
      OuterClauses.NoParens(m);
    }
  }

  /** Putting `_row_id` in front of a FROM does not change the answer of the test. */
  lemma InsertionKeepsOuter(a: string, space: string, from: string, b: string)
    requires AllSpace(space) && Upper(from) == "FROM"
    ensures OuterClauses.HasOuterOrderBy(Upper(a + space + from + b)) <==>
            OuterClauses.HasOuterOrderBy(Upper(a + Threading.INSERTION + from + b))
  {
    hide OuterClauses.HasOuterOrderBy, OuterOf;
    forall g: string ensures Upper(a + g + from + b) == Upper(a) + Upper(g) + "FROM" + Upper(b) {
      OuterClauses.UpperConcat(a + g + from, b);
      OuterClauses.UpperConcat(a + g, from);
      OuterClauses.UpperConcat(a, g);
    }
    assert Upper(Threading.INSERTION) == ", _ROW_ID ";
    OuterAcross(Upper(a), Upper(space), Upper(b));
    OuterAcross(Upper(a), Upper(Threading.INSERTION), Upper(b));
  }

  /** What is written so far and what was read so far pass the test together, whatever follows. */
  ghost predicate OuterKept(done: Threading.List<Threading.Piece>) {
    forall rest :: OuterClauses.HasOuterOrderBy(Upper(Threading.Output(done) + rest)) <==>
                   OuterClauses.HasOuterOrderBy(Upper(Threading.Input(done) + rest))
  }

  lemma ExtendKeepsOuter(done: Threading.List<Threading.Piece>, t: Threading.Token, rest: string)
    requires OuterKept(done) && (t.Keyword? ==> Upper(t.Text()) == "FROM")
    ensures OuterClauses.HasOuterOrderBy(Upper(Threading.Output(Threading.Extend(done, t)) + rest)) <==>
            OuterClauses.HasOuterOrderBy(Upper(Threading.Input(done) + t.Text() + rest))
  {
    hide OuterClauses.HasOuterOrderBy, Upper, Threading.NeedsRowId;
    var out := Threading.Output(done);
    assert Threading.Input(done) + t.Text() + rest == Threading.Input(done) + (t.Text() + rest);
    assert out + t.Text() + rest == out + (t.Text() + rest);
    if t.Keyword? && Threading.NeedsRowId(out) {
      var space := Threading.DropSpaceText(done, "");
      var kept := Threading.DropSpace(done);
      Threading.PushFacts(Threading.Written(kept), Threading.INSERTION);
      InsertionKeepsOuter(Threading.Output(kept), space, t.Text(), rest);
      assert out + (t.Text() + rest) == Threading.Output(kept) + space + t.Text() + rest;
      var inserted := Threading.Cons(Threading.Inserted, kept);
      assert Threading.Output(inserted) == Threading.Output(kept) + Threading.INSERTION;
      assert Threading.Extend(done, t) == Threading.Cons(Threading.Kept(t), inserted);
    }
  }

  lemma {:induction false} WeaveKeepsOuter(done: Threading.List<Threading.Piece>, s: string)
    requires OuterKept(done) && Threading.Placed(done, Threading.End) && (done.Cons? ==> done.head.Kept?)
    ensures OuterKept(Threading.Weave(done, s))
    decreases |s|
  {
    hide OuterClauses.HasOuterOrderBy, Upper;
    if s != "" {
      var t := Threading.FirstToken(Threading.LastWord(done), s);
      Threading.FirstTokenOk(Threading.LastWord(done), s);
      KeywordIsFrom(Threading.LastWord(done), s);
      var next := Threading.Extend(done, t);
      Threading.ExtendConserves(done, t);
      forall rest ensures OuterClauses.HasOuterOrderBy(Upper(Threading.Output(next) + rest)) <==>
                          OuterClauses.HasOuterOrderBy(Upper(Threading.Input(next) + rest))
      {
        ExtendKeepsOuter(done, t, rest);
      }
      WeaveKeepsOuter(next, s[|t.Text()|..]);
    }
  }

  lemma KeywordIsFrom(afterWord: bool, s: string)
    requires s != ""
    ensures Threading.FirstToken(afterWord, s).Keyword? ==> Upper(Threading.FirstToken(afterWord, s).Text()) == "FROM"
  {
  }

  /** Threading `_row_id` through a query never changes whether it has an outer ORDER BY. */
  lemma ThreadingKeepsOuter(sql: string)
    ensures OuterClauses.HasOuterOrderBy(Upper(Threading.Threaded(sql))) <==> OuterClauses.HasOuterOrderBy(Upper(sql))
  {
    hide OuterClauses.HasOuterOrderBy, Upper;
    WeaveKeepsOuter(Threading.Nil, sql);
    Threading.OnlyInsertions(sql);
    assert Threading.Threaded(sql) + "" == Threading.Threaded(sql) && sql + "" == sql;
  }

  /** So a balanced query without an order of its own is sent with one, through both edits. */
  lemma SentInOrder(sql: string, cut: int)
    requires -1 <= cut <= |sql| && OuterClauses.IsCut(sql, cut) && OuterClauses.Balanced(sql)
    requires cut != -1 ==> RFind(Upper(sql[cut..]), ORDER_BY) == -1
    ensures OuterClauses.HasOuterOrderBy(Upper(Threading.Threaded(OuterClauses.WithOrder(sql, cut))))
  {
    hide OuterClauses.HasOuterOrderBy, Upper, OuterClauses.WithOrder, Threading.Threaded;
    OuterClauses.AddedOrderIsOuter(sql, cut);
    ThreadingKeepsOuter(OuterClauses.WithOrder(sql, cut));
  }

  // ----- the result -----

  type Labelled<V> = (RowLabels.Label, V)

  /** The frame's rows with their labels. */
  function Zipped<R>(df: RowLabels.Frame<R>): seq<Labelled<R>>
    requires df.Valid()
  {
    seq(|df.rows|, i requires 0 <= i < |df.rows| => (df.index[i], df.rows[i]))
  }

  function Behind<R>(keep: R -> bool): Labelled<R> -> bool {
    (p: Labelled<R>) => keep(p.1)
  }

  function Through<R, V>(project: R -> V): Labelled<R> -> Labelled<V> {
    (p: Labelled<R>) => (p.0, project(p.1))
  }

  /** The sort keys, on labelled rows: labels are not compared. */
  function Lifted<V>(keys: seq<StableSort.Key<V>>): seq<StableSort.Key<Labelled<V>>> {
    if keys == [] then []
    else [StableSort.Key((p: Labelled<V>) => keys[0].of(p.1), keys[0].ascending)] + Lifted(keys[1..])
  }

  lemma {:induction false} LiftedCompares<V>(keys: seq<StableSort.Key<V>>, a: Labelled<V>, b: Labelled<V>)
    ensures StableSort.Compare(Lifted(keys), a, b) == StableSort.Compare(keys, a.1, b.1)
  {
    if keys != [] {
      LiftedCompares(keys[1..], a, b);
      assert Lifted(keys)[1..] == Lifted(keys[1..]);
    }
  }

  /** A row as the engine returns it, with the label its row id stands for. */
  function Label<V>(index: seq<RowLabels.Label>, t: StableSort.Tagged<V>): StableSort.Tagged<Labelled<V>>
    requires t.num < |index|
  {
    StableSort.Tagged(t.num, (index[t.num], t.row))
  }

  function LabelAll<V>(index: seq<RowLabels.Label>, ts: seq<StableSort.Tagged<V>>): seq<StableSort.Tagged<Labelled<V>>>
    requires forall k :: 0 <= k < |ts| ==> ts[k].num < |index|
  {
    seq(|ts|, k requires 0 <= k < |ts| => Label(index, ts[k]))
  }

  /** Labelling the numbered rows is numbering the labelled rows. */
  lemma {:induction false} MiddleLabelled<R, V>(index: seq<RowLabels.Label>, rows: seq<R>, keep: R -> bool, project: R -> V, n: nat)
    requires n <= |rows| == |index|
    ensures forall k :: 0 <= k < |StableSort.Middle(rows[..n], keep, project)| ==> StableSort.Middle(rows[..n], keep, project)[k].num < |index|
    ensures LabelAll(index, StableSort.Middle(rows[..n], keep, project)) ==
            StableSort.Middle(Zipped(RowLabels.Frame(index, rows))[..n], Behind(keep), Through(project))
  {
    if n > 0 {
      var zipped := Zipped(RowLabels.Frame(index, rows));
      MiddleLabelled(index, rows, keep, project, n - 1);
      assert rows[..n][..n - 1] == rows[..n - 1] && zipped[..n][..n - 1] == zipped[..n - 1];
      assert rows[..n][n - 1] == rows[n - 1] && zipped[..n][n - 1] == (index[n - 1], rows[n - 1]);
    }
  }

  lemma Without<T>(t: seq<T>, k: nat)
    requires k < |t|
    ensures multiset(t[..k] + t[k + 1..]) == multiset(t) - multiset{t[k]}
  {
    assert t == t[..k] + [t[k]] + t[k + 1..];
  }

  lemma LabelledWithout<V>(index: seq<RowLabels.Label>, t: seq<StableSort.Tagged<V>>, k: nat)
    requires k < |t| && forall i :: 0 <= i < |t| ==> t[i].num < |index|
    ensures var all := LabelAll(index, t);
            LabelAll(index, t[..k] + t[k + 1..]) == all[..k] + all[k + 1..] && all[k] == Label(index, t[k])
  {
  }

  lemma {:induction false} LabelledElements<V>(index: seq<RowLabels.Label>, s: seq<StableSort.Tagged<V>>, t: seq<StableSort.Tagged<V>>)
    requires multiset(s) == multiset(t)
    requires (forall k :: 0 <= k < |s| ==> s[k].num < |index|) && forall k :: 0 <= k < |t| ==> t[k].num < |index|
    ensures multiset(LabelAll(index, s)) == multiset(LabelAll(index, t))
    decreases |s|
  {
    hide LabelAll, Label;
    assert |multiset(s)| == |s| && |multiset(t)| == |t|;
    if s == [] {
      assert s == t;
    } else {
      assert s[0] in multiset(t);
      var k :| 0 <= k < |t| && t[k] == s[0];
      var rest, tail := t[..k] + t[k + 1..], s[..0] + s[1..];
      Without(t, k);
      Without(s, 0);
      LabelledElements(index, tail, rest);
      LabelledWithout(index, t, k);
      LabelledWithout(index, s, 0);
      LabelledBack(index, s, 0);
      LabelledBack(index, t, k);
    }
  }

  lemma LabelledBack<V>(index: seq<RowLabels.Label>, t: seq<StableSort.Tagged<V>>, k: nat)
    requires k < |t| && forall i :: 0 <= i < |t| ==> t[i].num < |index|
    ensures multiset(LabelAll(index, t)) == multiset(LabelAll(index, t[..k] + t[k + 1..])) + multiset{Label(index, t[k])}
  {
    var all := LabelAll(index, t);
    LabelledWithout(index, t, k);
    assert all == all[..k] + [all[k]] + all[k + 1..];
  }

  lemma LabelledSorted<V>(index: seq<RowLabels.Label>, keys: seq<StableSort.Key<V>>, ts: seq<StableSort.Tagged<V>>)
    requires forall k :: 0 <= k < |ts| ==> ts[k].num < |index|
    requires StableSort.SortedBy(StableSort.Order(keys), ts)
    ensures StableSort.SortedBy(StableSort.Order(Lifted(keys)), LabelAll(index, ts))
  {
    hide StableSort.Compare, Lifted;
    var all := LabelAll(index, ts);
    forall i, j | 0 <= i < j < |all| ensures StableSort.Order(Lifted(keys))(all[i], all[j]) {
      assert StableSort.Order(keys)(ts[i], ts[j]);
      LiftedCompares(keys, all[i].row, all[j].row);
    }
  }

  /** The window of the numbered rows that the engine sends back. */
  function Window<T>(s: seq<T>, limit: StableSort.Bound, offset: StableSort.Bound): seq<T> {
    StableSort.Take(StableSort.Drop(s, offset), limit)
  }

  /** The rows as the engine reads them from the frame it is given, by position. */
  ghost function ReadAll<R>(used: RowLabels.Frame<R>): seq<R>
    requires used.Valid() && forall p :: 0 <= p < |used.rows| ==> RowLabels.Fetchable(used, p)
  {
    seq(|used.rows|, p requires 0 <= p < |used.rows| => RowLabels.Fetch(used, p))
  }

  lemma PreparedRead<R>(df: RowLabels.Frame<R>)
    requires df.Valid()
    ensures var used := RowLabels.Prepare(df).0;
            && used.Valid() && (forall p :: 0 <= p < |used.rows| ==> RowLabels.Fetchable(used, p))
            && ReadAll(used) == df.rows
  {
    var used := RowLabels.Prepare(df).0;
    forall p | 0 <= p < |used.rows| ensures RowLabels.Fetchable(used, p) && RowLabels.Fetch(used, p) == df.rows[p] {
      assert used.index[p] == RowLabels.IntLabel(p);
    }
  }

  /** What the engine may return for the query sent: numbered rows of the prepared frame, filtered, sorted and cut. */
  ghost predicate Returned<R, V>(df: RowLabels.Frame<R>, keep: R -> bool, project: R -> V, keys: seq<StableSort.Key<V>>,
                                 limit: StableSort.Bound, offset: StableSort.Bound, emitted: seq<StableSort.Tagged<V>>,
                                 result: seq<RowLabels.Emitted<V>>)
    requires df.Valid()
  {
    PreparedRead(df);
    && multiset(emitted) == multiset(StableSort.Middle(ReadAll(RowLabels.Prepare(df).0), keep, project))
    && StableSort.SortedBy(StableSort.Order(keys), emitted)
    && |result| == |Window(emitted, limit, offset)|
    && forall k :: 0 <= k < |result| ==>
         result[k] == RowLabels.Emitted(Window(emitted, limit, offset)[k].num, Window(emitted, limit, offset)[k].row)
  }

  lemma ReturnedInRange<R, V>(df: RowLabels.Frame<R>, keep: R -> bool, project: R -> V, keys: seq<StableSort.Key<V>>,
                              limit: StableSort.Bound, offset: StableSort.Bound, emitted: seq<StableSort.Tagged<V>>,
                              result: seq<RowLabels.Emitted<V>>)
    requires df.Valid() && Returned(df, keep, project, keys, limit, offset, emitted, result)
    ensures multiset(emitted) == multiset(StableSort.Middle(df.rows, keep, project))
    ensures forall k :: 0 <= k < |emitted| ==> emitted[k].num < |df.rows|
    ensures forall k :: 0 <= k < |result| ==> result[k].rowId < |df.rows|
  {
    hide StableSort.Middle, StableSort.Order;
    PreparedRead(df);
    StableSort.MiddleIncreasing(df.rows, keep, project);
    var middle := StableSort.Middle(df.rows, keep, project);
    forall k | 0 <= k < |emitted| ensures emitted[k].num < |df.rows| {
      assert emitted[k] in multiset(middle);
    }
  }

  /**
   The whole of `query_df` on rows, from the preparing of the frame to the restoring of its index:
   for every frame, filter, projection, sort keys, window and order of emission, the labelled
   result is that window of the labelled, filtered and projected frame, stably sorted by the keys
   and in source order if there are none.
   */
  lemma ResultIsStableSort<R, V>(df: RowLabels.Frame<R>, keep: R -> bool, project: R -> V, keys: seq<StableSort.Key<V>>,
                                 limit: StableSort.Bound, offset: StableSort.Bound, emitted: seq<StableSort.Tagged<V>>,
                                 result: seq<RowLabels.Emitted<V>>)
    requires df.Valid() && Returned(df, keep, project, keys, limit, offset, emitted, result)
    ensures forall k :: 0 <= k < |result| ==> result[k].rowId < |df.rows|
    ensures var index := RowLabels.Restored(df, RowLabels.Prepare(df).1, result);
            var frame := StableSort.Filtered(Zipped(df), Behind(keep), Through(project));
            && RowLabels.Series(index, result) == Window(StableSort.Sort(Lifted(keys), frame), limit, offset)
            && (keys == [] ==> RowLabels.Series(index, result) == Window(frame, limit, offset))
  {
    hide StableSort.Compare, StableSort.Sort, StableSort.Filtered, StableSort.Middle, StableSort.Order;
    ReturnedInRange(df, keep, project, keys, limit, offset, emitted, result);
    var middle := StableSort.Middle(df.rows, keep, project);
    var index := RowLabels.Restored(df, RowLabels.Prepare(df).1, result);
    assert df.rows[..|df.rows|] == df.rows && Zipped(df)[..|df.rows|] == Zipped(df);
    assert RowLabels.Frame(df.index, df.rows) == df;
    MiddleLabelled(df.index, df.rows, keep, project, |df.rows|);
    LabelledElements(df.index, emitted, middle);
    LabelledSorted(df.index, keys, emitted);
    var all := LabelAll(df.index, emitted);
    StableSort.QueryIsStableSort(Zipped(df), Behind(keep), Through(project), Lifted(keys), limit, offset, all,
                                 Window(StableSort.Rows(all), limit, offset));
    RestoredFollows(df, result);
    SeriesIsWindow(df, emitted, limit, offset, result, index);
    StableSort.NoKeysIsSourceOrder(StableSort.Filtered(Zipped(df), Behind(keep), Through(project)));
  }

  lemma RestoredFollows<R, V>(df: RowLabels.Frame<R>, result: seq<RowLabels.Emitted<V>>)
    requires df.Valid() && forall k :: 0 <= k < |result| ==> result[k].rowId < |df.rows|
    ensures RowLabels.LabelsFollow(df, result, RowLabels.Restored(df, RowLabels.Prepare(df).1, result))
  {
  }

  lemma SeriesIsWindow<R, V>(df: RowLabels.Frame<R>, emitted: seq<StableSort.Tagged<V>>, limit: StableSort.Bound, offset: StableSort.Bound,
                             result: seq<RowLabels.Emitted<V>>, index: seq<RowLabels.Label>)
    requires df.Valid() && forall k :: 0 <= k < |emitted| ==> emitted[k].num < |df.index|
    requires |result| == |Window(emitted, limit, offset)|
    requires forall k :: 0 <= k < |result| ==>
               result[k] == RowLabels.Emitted(Window(emitted, limit, offset)[k].num, Window(emitted, limit, offset)[k].row)
    requires RowLabels.LabelsFollow(df, result, index)
    ensures RowLabels.Series(index, result) == Window(StableSort.Rows(LabelAll(df.index, emitted)), limit, offset)
  {
  }
}
