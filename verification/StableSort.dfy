/**
 Sorting through an engine that gives no order to ties: the query carries the original row number
 as the last sort key, and that makes its result unique and equal to the stable sort.
 */
module StableSort {
  import opened Common

  // ----- sequences sorted by a strict order are determined by their elements -----

  ghost predicate SortedBy<T>(less: (T, T) -> bool, s: seq<T>) {
    forall i, j :: 0 <= i < j < |s| ==> less(s[i], s[j])
  }

  ghost predicate Asymmetric<T>(less: (T, T) -> bool, s: seq<T>) {
    forall a, b :: a in s && b in s && less(a, b) ==> !less(b, a)
  }

  lemma TailElements<T>(s: seq<T>)
    requires s != []
    ensures multiset(s[1..]) == multiset(s) - multiset{s[0]}
  {
    assert s == [s[0]] + s[1..];
  }

  lemma FirstUnique<T>(less: (T, T) -> bool, s: seq<T>, t: seq<T>)
    requires Asymmetric(less, s) && SortedBy(less, s) && SortedBy(less, t)
    requires multiset(s) == multiset(t) && s != [] && t != []
    ensures s[0] == t[0]
  {
    assert s[0] in multiset(t) && t[0] in multiset(s);
    var i, j :| 0 <= i < |t| && t[i] == s[0] && 0 <= j < |s| && s[j] == t[0];
  }

  lemma {:induction false} SortedUnique<T>(less: (T, T) -> bool, s: seq<T>, t: seq<T>)
    requires Asymmetric(less, s) && SortedBy(less, s) && SortedBy(less, t)
    requires multiset(s) == multiset(t)
    ensures s == t
    decreases |s|
  {
    assert |multiset(s)| == |s| && |multiset(t)| == |t|;
    if s != [] {
      FirstUnique(less, s, t);
      TailElements(s);
      TailElements(t);
      SortedUnique(less, s[1..], t[1..]);
      assert s == [s[0]] + s[1..] && t == [t[0]] + t[1..];
    }
  }

  lemma AppendSorted<T>(less: (T, T) -> bool, s: seq<T>, x: T)
    requires SortedBy(less, s) && forall i :: 0 <= i < |s| ==> less(s[i], x)
    ensures SortedBy(less, s + [x])
  {
  }

  // ----- sort keys -----

  datatype Key<!R> = Key(of: R -> Value, ascending: bool)

  /** Negative, zero or positive; missing values come last in either direction. */
  function CompareValues(a: Value, b: Value, ascending: bool): int {
    if a.Null? || b.Null? then (if a.Null? then 1 else 0) - (if b.Null? then 1 else 0)
    else if ascending then a.n - b.n
    else b.n - a.n
  }

  /** Lexicographic comparison by all keys. */
  function Compare<R>(keys: seq<Key<R>>, a: R, b: R): int {
    if keys == [] then 0
    else
      var c := CompareValues(keys[0].of(a), keys[0].of(b), keys[0].ascending);
      if c != 0 then c else Compare(keys[1..], a, b)
  }

  lemma {:induction false} CompareFlips<R>(keys: seq<Key<R>>, a: R, b: R)
    ensures Compare(keys, a, b) < 0 <==> Compare(keys, b, a) > 0
    ensures Compare(keys, a, b) == 0 <==> Compare(keys, b, a) == 0
  {
    if keys != [] {
      CompareFlips(keys[1..], a, b);
    }
  }

  lemma {:induction false} CompareChains<R>(keys: seq<Key<R>>, a: R, b: R, c: R)
    requires Compare(keys, a, b) <= 0 && Compare(keys, b, c) <= 0
    ensures Compare(keys, a, c) <= 0
    ensures Compare(keys, a, b) < 0 || Compare(keys, b, c) < 0 ==> Compare(keys, a, c) < 0
  {
    if keys != [] {
      if CompareValues(keys[0].of(a), keys[0].of(b), keys[0].ascending) == 0
         && CompareValues(keys[0].of(b), keys[0].of(c), keys[0].ascending) == 0 {
        CompareChains(keys[1..], a, b, c);
      }
    }
  }

  // ----- stable sorting -----

  /** Insert `x` behind everything that does not sort after it. */
  function Insert<R>(keys: seq<Key<R>>, x: R, s: seq<R>): seq<R> {
    if s == [] || Compare(keys, s[|s| - 1], x) <= 0 then s + [x]
    else Insert(keys, x, s[..|s| - 1]) + [s[|s| - 1]]
  }

  /** The stable sort of `rows`. */
  function Sort<R>(keys: seq<Key<R>>, rows: seq<R>): seq<R> {
    if rows == [] then [] else Insert(keys, rows[|rows| - 1], Sort(keys, rows[..|rows| - 1]))
  }

  /** The rows that tie with `k`, in order. */
  ghost function Ties<R>(keys: seq<Key<R>>, k: R, s: seq<R>): seq<R> {
    if s == [] then []
    else Ties(keys, k, s[..|s| - 1]) + if Compare(keys, s[|s| - 1], k) == 0 then [s[|s| - 1]] else []
  }

  ghost predicate KeySorted<R>(keys: seq<Key<R>>, s: seq<R>) {
    forall i, j :: 0 <= i < j < |s| ==> Compare(keys, s[i], s[j]) <= 0
  }

  lemma {:induction false} InsertElements<R>(keys: seq<Key<R>>, x: R, s: seq<R>)
    ensures multiset(Insert(keys, x, s)) == multiset(s) + multiset{x}
  {
    hide Compare;
    if s == [] || Compare(keys, s[|s| - 1], x) <= 0 {
    } else {
      InsertElements(keys, x, s[..|s| - 1]);
      assert s == s[..|s| - 1] + [s[|s| - 1]];
    }
  }

  lemma KeySortedSnoc<R>(keys: seq<Key<R>>, s: seq<R>, x: R)
    requires KeySorted(keys, s) && forall i :: 0 <= i < |s| ==> Compare(keys, s[i], x) <= 0
    ensures KeySorted(keys, s + [x])
  {
    hide Compare;
  }

  lemma {:induction false} InsertSorted<R>(keys: seq<Key<R>>, x: R, s: seq<R>)
    requires KeySorted(keys, s)
    ensures KeySorted(keys, Insert(keys, x, s))
  {
    hide Compare;
    if s == [] || Compare(keys, s[|s| - 1], x) <= 0 {
      forall i | 0 <= i < |s| ensures Compare(keys, s[i], x) <= 0 {
        if i < |s| - 1 {
          CompareChains(keys, s[i], s[|s| - 1], x);
        }
      }
      KeySortedSnoc(keys, s, x);
    } else {
      var init, last := s[..|s| - 1], s[|s| - 1];
      InsertSorted(keys, x, init);
      InsertElements(keys, x, init);
      CompareFlips(keys, last, x);
      var r := Insert(keys, x, init);
      forall i | 0 <= i < |r| ensures Compare(keys, r[i], last) <= 0 {
        assert r[i] in multiset(r);
        if r[i] in init {
          var k :| 0 <= k < |init| && init[k] == r[i];
          assert s[k] == r[i];
        }
      }
      KeySortedSnoc(keys, r, last);
    }
  }

  /** A row that sorts strictly behind another does not tie with the same row. */
  lemma NoCommonTie<R>(keys: seq<Key<R>>, k: R, last: R, x: R)
    requires Compare(keys, last, x) > 0
    ensures Compare(keys, last, k) != 0 || Compare(keys, x, k) != 0
  {
    hide Compare;
    CompareFlips(keys, x, k);
    if Compare(keys, last, k) == 0 && Compare(keys, k, x) == 0 {
      CompareChains(keys, last, k, x);
    }
  }

  lemma {:induction false} InsertStable<R>(keys: seq<Key<R>>, x: R, s: seq<R>, k: R)
    ensures Ties(keys, k, Insert(keys, x, s)) == Ties(keys, k, s + [x])
  {
    hide Compare, Ties;
    if s == [] || Compare(keys, s[|s| - 1], x) <= 0 {
    } else {
      var init, last := s[..|s| - 1], s[|s| - 1];
      InsertStable(keys, x, init, k);
      TiesSnoc(keys, k, Insert(keys, x, init), last);
      TiesSnoc(keys, k, init, x);
      TiesSnoc(keys, k, init, last);
      TiesSnoc(keys, k, s, x);
      assert s == init + [last];
      NoCommonTie(keys, k, last, x);
    }
  }

  lemma TiesSnoc<R>(keys: seq<Key<R>>, k: R, s: seq<R>, x: R)
    ensures Ties(keys, k, s + [x]) == Ties(keys, k, s) + if Compare(keys, x, k) == 0 then [x] else []
  {
    assert (s + [x])[..|s|] == s;
  }

  /** `Sort` is a stable sort: ordered by the keys, the same rows, and ties in their original order. */
  lemma {:induction false} SortIsStable<R>(keys: seq<Key<R>>, rows: seq<R>)
    ensures KeySorted(keys, Sort(keys, rows))
    ensures multiset(Sort(keys, rows)) == multiset(rows)
    ensures forall k :: Ties(keys, k, Sort(keys, rows)) == Ties(keys, k, rows)
  {
    hide Compare, Insert;
    if rows != [] {
      var init, last := rows[..|rows| - 1], rows[|rows| - 1];
      assert rows == init + [last];
      SortIsStable(keys, init);
      InsertSorted(keys, last, Sort(keys, init));
      InsertElements(keys, last, Sort(keys, init));
      forall k ensures Ties(keys, k, Sort(keys, rows)) == Ties(keys, k, rows) {
        InsertStable(keys, last, Sort(keys, init), k);
        TiesSnoc(keys, k, Sort(keys, init), last);
        TiesSnoc(keys, k, init, last);
      }
    }
  }

  // ----- the query -----

  /** A row with `__orig_row_num__`. */
  datatype Tagged<R> = Tagged(num: nat, row: R)

  /** ORDER BY the keys, then the row number ascending. */
  predicate Before<R>(keys: seq<Key<R>>, a: Tagged<R>, b: Tagged<R>) {
    Compare(keys, a.row, b.row) < 0 || (Compare(keys, a.row, b.row) == 0 && a.num < b.num)
  }

  function Order<R>(keys: seq<Key<R>>): (Tagged<R>, Tagged<R>) -> bool {
    (a, b) => Before(keys, a, b)
  }

  /**
   The numbered rows that pass the filter, projected to the selected fields.  The numbers are
   those of the source, assigned before filtering.
   */
  function Middle<S, R>(source: seq<S>, keep: S -> bool, project: S -> R): seq<Tagged<R>> {
    if source == [] then []
    else
      var n := |source| - 1;
      Middle(source[..n], keep, project) + if keep(source[n]) then [Tagged(n, project(source[n]))] else []
  }

  function Rows<R>(ts: seq<Tagged<R>>): seq<R> {
    seq(|ts|, i requires 0 <= i < |ts| => ts[i].row)
  }

  datatype Bound = NoBound | Bound(n: nat)

  function Drop<T>(s: seq<T>, offset: Bound): seq<T> {
    if offset.NoBound? then s else if offset.n <= |s| then s[offset.n..] else []
  }

  function Take<T>(s: seq<T>, limit: Bound): seq<T> {
    if limit.NoBound? || |s| <= limit.n then s else s[..limit.n]
  }

  /**
   Any result SQL allows: some order of the rows that is sorted, cut to the window, without the
   number.  The subquery is built for at least one key; without keys this is the plain
   ORDER BY _row_id that `query_df` adds.
   */
  ghost predicate Legal<S, R>(source: seq<S>, keep: S -> bool, project: S -> R, keys: seq<Key<R>>,
                              limit: Bound, offset: Bound, emitted: seq<Tagged<R>>, result: seq<R>)
  {
    && multiset(emitted) == multiset(Middle(source, keep, project))
    && SortedBy(Order(keys), emitted)
    && result == Take(Drop(Rows(emitted), offset), limit)
  }

  lemma {:induction false} OrderAsymmetric<R>(keys: seq<Key<R>>, s: seq<Tagged<R>>)
    ensures Asymmetric(Order(keys), s)
  {
    forall a: Tagged<R>, b: Tagged<R> | a in s && b in s && Order(keys)(a, b) ensures !Order(keys)(b, a) {
      CompareFlips(keys, a.row, b.row);
    }
  }

  /** The stable sort of tagged rows, by insertion. */
  ghost function InsertTagged<R>(keys: seq<Key<R>>, x: Tagged<R>, s: seq<Tagged<R>>): seq<Tagged<R>> {
    if s == [] || Compare(keys, s[|s| - 1].row, x.row) <= 0 then s + [x]
    else InsertTagged(keys, x, s[..|s| - 1]) + [s[|s| - 1]]
  }

  ghost function SortTagged<R>(keys: seq<Key<R>>, ts: seq<Tagged<R>>): seq<Tagged<R>> {
    if ts == [] then [] else InsertTagged(keys, ts[|ts| - 1], SortTagged(keys, ts[..|ts| - 1]))
  }

  lemma {:induction false} InsertTaggedRows<R>(keys: seq<Key<R>>, x: Tagged<R>, s: seq<Tagged<R>>)
    ensures Rows(InsertTagged(keys, x, s)) == Insert(keys, x.row, Rows(s))
  {
    hide Compare;
    if s == [] || Compare(keys, s[|s| - 1].row, x.row) <= 0 {
    } else {
      var init, last := s[..|s| - 1], s[|s| - 1];
      InsertTaggedRows(keys, x, init);
      assert Rows(s)[..|s| - 1] == Rows(init);
      assert Rows(InsertTagged(keys, x, init) + [last]) == Rows(InsertTagged(keys, x, init)) + [last.row];
    }
  }

  lemma {:induction false} SortTaggedRows<R>(keys: seq<Key<R>>, ts: seq<Tagged<R>>)
    ensures Rows(SortTagged(keys, ts)) == Sort(keys, Rows(ts))
  {
    if ts != [] {
      var init, last := ts[..|ts| - 1], ts[|ts| - 1];
      SortTaggedRows(keys, init);
      InsertTaggedRows(keys, last, SortTagged(keys, init));
      assert Rows(ts)[..|ts| - 1] == Rows(init);
    }
  }

  lemma {:induction false} InsertTaggedElements<R>(keys: seq<Key<R>>, x: Tagged<R>, s: seq<Tagged<R>>)
    ensures multiset(InsertTagged(keys, x, s)) == multiset(s) + multiset{x}
  {
    hide Compare;
    if s == [] || Compare(keys, s[|s| - 1].row, x.row) <= 0 {
    } else {
      InsertTaggedElements(keys, x, s[..|s| - 1]);
      assert s == s[..|s| - 1] + [s[|s| - 1]];
    }
  }

  lemma ComesBefore<R>(keys: seq<Key<R>>, s: seq<Tagged<R>>, x: Tagged<R>, i: nat)
    requires SortedBy(Order(keys), s) && i < |s| && s[i].num < x.num
    requires Compare(keys, s[|s| - 1].row, x.row) <= 0
    ensures Order(keys)(s[i], x)
  {
    hide Compare;
    if i < |s| - 1 {
      assert Order(keys)(s[i], s[|s| - 1]);
      CompareChains(keys, s[i].row, s[|s| - 1].row, x.row);
    }
  }

  /** Inserting the row with the highest number keeps the order by keys and number. */
  lemma {:induction false} InsertTaggedSorted<R>(keys: seq<Key<R>>, x: Tagged<R>, s: seq<Tagged<R>>)
    requires SortedBy(Order(keys), s) && forall i :: 0 <= i < |s| ==> s[i].num < x.num
    ensures SortedBy(Order(keys), InsertTagged(keys, x, s))
  {
    hide Compare;
    if s == [] || Compare(keys, s[|s| - 1].row, x.row) <= 0 {
      forall i | 0 <= i < |s| ensures Order(keys)(s[i], x) {
        ComesBefore(keys, s, x, i);
      }
      AppendSorted(Order(keys), s, x);
    } else {
      var init, last := s[..|s| - 1], s[|s| - 1];
      InsertTaggedSorted(keys, x, init);
      InsertTaggedElements(keys, x, init);
      var r := InsertTagged(keys, x, init);
      forall i | 0 <= i < |r| ensures Order(keys)(r[i], last) {
        assert r[i] in multiset(r);
        if r[i] in init {
          var k :| 0 <= k < |init| && init[k] == r[i];
          assert Order(keys)(s[k], s[|s| - 1]);
        } else {
          assert r[i] == x;
          CompareFlips(keys, last.row, x.row);
        }
      }
      AppendSorted(Order(keys), r, last);
    }
  }

  ghost predicate Increasing<R>(ts: seq<Tagged<R>>) {
    forall i, j :: 0 <= i < j < |ts| ==> ts[i].num < ts[j].num
  }

  lemma {:induction false} SortTaggedFacts<R>(keys: seq<Key<R>>, ts: seq<Tagged<R>>)
    requires Increasing(ts)
    ensures SortedBy(Order(keys), SortTagged(keys, ts))
    ensures multiset(SortTagged(keys, ts)) == multiset(ts)
  {
    if ts != [] {
      var init, last := ts[..|ts| - 1], ts[|ts| - 1];
      assert ts == init + [last];
      SortTaggedFacts(keys, init);
      var s := SortTagged(keys, init);
      forall i | 0 <= i < |s| ensures s[i].num < last.num {
        assert s[i] in multiset(s);
        assert s[i] in init;
      }
      InsertTaggedSorted(keys, last, s);
      InsertTaggedElements(keys, last, s);
    }
  }

  lemma {:induction false} MiddleIncreasing<S, R>(source: seq<S>, keep: S -> bool, project: S -> R)
    ensures Increasing(Middle(source, keep, project))
    ensures forall i :: 0 <= i < |Middle(source, keep, project)| ==> Middle(source, keep, project)[i].num < |source|
  {
    if source != [] {
      MiddleIncreasing(source[..|source| - 1], keep, project);
    }
  }

  /** The rows pandas would sort: the filtered source, projected, in source order. */
  function Filtered<S, R>(source: seq<S>, keep: S -> bool, project: S -> R): seq<R> {
    if source == [] then []
    else
      var n := |source| - 1;
      Filtered(source[..n], keep, project) + if keep(source[n]) then [project(source[n])] else []
  }

  lemma {:induction false} MiddleRows<S, R>(source: seq<S>, keep: S -> bool, project: S -> R)
    ensures Rows(Middle(source, keep, project)) == Filtered(source, keep, project)
  {
    if source != [] {
      MiddleRows(source[..|source| - 1], keep, project);
    }
  }

  /**
   Whatever order the engine emits rows in, the query has one result: the requested window of
   the stable sort of the filtered source.
   */
  lemma QueryIsStableSort<S, R>(source: seq<S>, keep: S -> bool, project: S -> R, keys: seq<Key<R>>,
                                limit: Bound, offset: Bound, emitted: seq<Tagged<R>>, result: seq<R>)
    requires Legal(source, keep, project, keys, limit, offset, emitted, result)
    ensures result == Take(Drop(Sort(keys, Filtered(source, keep, project)), offset), limit)
  {
    var middle := Middle(source, keep, project);
    MiddleIncreasing(source, keep, project);
    SortTaggedFacts(keys, middle);
    OrderAsymmetric(keys, emitted);
    SortedUnique(Order(keys), emitted, SortTagged(keys, middle));
    SortTaggedRows(keys, middle);
    MiddleRows(source, keep, project);
  }

  /** Ordering by the row number alone gives the rows back in source order. */
  lemma {:induction false} NoKeysIsSourceOrder<R>(rows: seq<R>)
    ensures Sort([], rows) == rows
  {
    if rows != [] {
      NoKeysIsSourceOrder(rows[..|rows| - 1]);
    }
  }

  /** There is such a result: sorting the numbered rows is one. */
  lemma LegalExists<S, R>(source: seq<S>, keep: S -> bool, project: S -> R, keys: seq<Key<R>>, limit: Bound, offset: Bound)
    ensures var emitted := SortTagged(keys, Middle(source, keep, project));
            Legal(source, keep, project, keys, limit, offset, emitted, Take(Drop(Rows(emitted), offset), limit))
  {
    MiddleIncreasing(source, keep, project);
    SortTaggedFacts(keys, Middle(source, keep, project));
  }

  // ----- without the row number -----

  /** Sorted by the keys only, as a plain ORDER BY would be. */
  ghost predicate LegalWithoutNumber<R>(keys: seq<Key<R>>, rows: seq<R>, result: seq<R>) {
    multiset(result) == multiset(rows) && KeySorted(keys, result)
  }

  /** Without it the result is not determined as soon as two different rows tie. */
  lemma TiesAreAmbiguous<R>(keys: seq<Key<R>>, a: R, b: R)
    requires a != b && Compare(keys, a, b) == 0
    ensures LegalWithoutNumber(keys, [a, b], [a, b]) && LegalWithoutNumber(keys, [a, b], [b, a])
    ensures Sort(keys, [a, b]) == [a, b] != [b, a]
  {
    CompareFlips(keys, a, b);
    assert multiset([a, b]) == multiset([b, a]);
    assert [a, b][..1] == [a] && [a][..0] == [];
    assert Sort(keys, [a]) == [a];
  }

  // ----- the order, said without the comparison -----

  /** `x` sorts before `y` on one key: a value before a missing one, numbers in the direction asked for. */
  predicate KeyPrecedes(x: Value, y: Value, ascending: bool) {
    match (x, y)
    case (Num(_), Null) => true
    case (Num(m), Num(n)) => if ascending then m < n else m > n
    case _ => false
  }

  ghost predicate AgreeBelow<R>(keys: seq<Key<R>>, a: R, b: R, p: nat)
    requires p <= |keys|
  {
    forall q :: 0 <= q < p ==> keys[q].of(a) == keys[q].of(b)
  }

  /** At the first key where they differ, `a` comes first. */
  ghost predicate Precedes<R>(keys: seq<Key<R>>, a: R, b: R) {
    exists p :: 0 <= p < |keys| && AgreeBelow(keys, a, b, p) && KeyPrecedes(keys[p].of(a), keys[p].of(b), keys[p].ascending)
  }

  lemma {:induction false} AgreeTail<R>(keys: seq<Key<R>>, a: R, b: R, p: nat)
    requires keys != [] && p < |keys| && keys[0].of(a) == keys[0].of(b)
    ensures AgreeBelow(keys, a, b, p + 1) <==> AgreeBelow(keys[1..], a, b, p)
  {
    if AgreeBelow(keys[1..], a, b, p) {
      forall q | 0 <= q < p + 1 ensures keys[q].of(a) == keys[q].of(b) {
        if q > 0 {
          assert keys[1..][q - 1] == keys[q];
        }
      }
    }
    if AgreeBelow(keys, a, b, p + 1) {
      forall q | 0 <= q < p ensures keys[1..][q].of(a) == keys[1..][q].of(b) {
        assert keys[1..][q] == keys[q + 1];
      }
    }
  }

  lemma PrecedesTail<R>(keys: seq<Key<R>>, a: R, b: R)
    requires keys != []
    ensures Precedes(keys, a, b) <==>
            || KeyPrecedes(keys[0].of(a), keys[0].of(b), keys[0].ascending)
            || (keys[0].of(a) == keys[0].of(b) && Precedes(keys[1..], a, b))
  {
    if KeyPrecedes(keys[0].of(a), keys[0].of(b), keys[0].ascending) {
      assert AgreeBelow(keys, a, b, 0);
    } else if keys[0].of(a) == keys[0].of(b) {
      if Precedes(keys[1..], a, b) {
        var p :| 0 <= p < |keys[1..]| && AgreeBelow(keys[1..], a, b, p)
                 && KeyPrecedes(keys[1..][p].of(a), keys[1..][p].of(b), keys[1..][p].ascending);
        AgreeTail(keys, a, b, p);
        assert keys[p + 1] == keys[1..][p];
      }
      if Precedes(keys, a, b) {
        var p :| 0 <= p < |keys| && AgreeBelow(keys, a, b, p) && KeyPrecedes(keys[p].of(a), keys[p].of(b), keys[p].ascending);
        assert p > 0;
        AgreeTail(keys, a, b, p - 1);
        assert keys[p] == keys[1..][p - 1];
      }
    } else {
      assert forall p :: 0 < p <= |keys| ==> !AgreeBelow(keys, a, b, p);
    }
  }

  /** The comparison is that order. */
  lemma {:induction false} CompareIsOrder<R>(keys: seq<Key<R>>, a: R, b: R)
    ensures Compare(keys, a, b) < 0 <==> Precedes(keys, a, b)
    ensures Compare(keys, a, b) == 0 <==> AgreeBelow(keys, a, b, |keys|)
  {
    hide Precedes;
    if keys == [] {
      assert !Precedes(keys, a, b) by {
        NoKeysPrecede(keys, a, b);
      }
    } else {
      CompareIsOrder(keys[1..], a, b);
      PrecedesTail(keys, a, b);
      if keys[0].of(a) == keys[0].of(b) {
        AgreeTail(keys, a, b, |keys| - 1);
      } else {
        assert !AgreeBelow(keys, a, b, |keys|);
      }
    }
  }

  lemma NoKeysPrecede<R>(keys: seq<Key<R>>, a: R, b: R)
    requires keys == []
    ensures !Precedes(keys, a, b)
  {
  }

  /** The reference sort puts no row behind one that it precedes, and keeps rows that agree on all keys in order. */
  lemma SortOrders<R>(keys: seq<Key<R>>, rows: seq<R>, i: nat, j: nat)
    requires i < j < |Sort(keys, rows)|
    ensures var s := Sort(keys, rows);
            Precedes(keys, s[i], s[j]) || AgreeBelow(keys, s[i], s[j], |keys|)
  {
    hide Compare, Precedes, Sort;
    SortIsStable(keys, rows);
    CompareIsOrder(keys, Sort(keys, rows)[i], Sort(keys, rows)[j]);
  }

  function OffsetOf(offset: Bound): nat {
    if offset.NoBound? then 0 else offset.n
  }

  /** LIMIT and OFFSET: `limit` elements at most, from `offset` on. */
  lemma WindowElements<T>(s: seq<T>, limit: Bound, offset: Bound)
    ensures var w := Take(Drop(s, offset), limit);
            && |w| == (var left := if OffsetOf(offset) <= |s| then |s| - OffsetOf(offset) else 0;
                       if limit.Bound? && limit.n < left then limit.n else left)
            && forall k :: 0 <= k < |w| ==> OffsetOf(offset) + k < |s| && w[k] == s[OffsetOf(offset) + k]
  {
  }

  lemma {:induction false} MiddleFrom<S, R>(source: seq<S>, keep: S -> bool, project: S -> R)
    ensures forall t :: t in Middle(source, keep, project) ==>
                          t.num < |source| && keep(source[t.num]) && t.row == project(source[t.num])
    ensures forall n :: 0 <= n < |source| && keep(source[n]) ==> Tagged(n, project(source[n])) in Middle(source, keep, project)
  {
    if source != [] {
      MiddleFrom(source[..|source| - 1], keep, project);
    }
  }

  /**
   What the query returns, said of the result itself: each row is a row of the source that passes
   the filter, and of two rows the first comes first by the first key where they differ, in the
   direction asked for and missing values last, or by its place in the source if they agree on all.
   */
  lemma QueryOrders<S, R>(source: seq<S>, keep: S -> bool, project: S -> R, keys: seq<Key<R>>,
                          limit: Bound, offset: Bound, emitted: seq<Tagged<R>>, result: seq<R>, i: nat, j: nat)
    returns (m: nat, n: nat)
    requires Legal(source, keep, project, keys, limit, offset, emitted, result) && i < j < |result|
    ensures m < |source| && keep(source[m]) && result[i] == project(source[m])
    ensures n < |source| && keep(source[n]) && result[j] == project(source[n])
    ensures Precedes(keys, result[i], result[j]) || (AgreeBelow(keys, result[i], result[j], |keys|) && m < n)
  {
    hide Compare, Precedes, Middle, Take, Drop;
    WindowElements(Rows(emitted), limit, offset);
    var a, b := emitted[OffsetOf(offset) + i], emitted[OffsetOf(offset) + j];
    MiddleFrom(source, keep, project);
    assert a in multiset(emitted) && b in multiset(emitted);
    assert a in Middle(source, keep, project) && b in Middle(source, keep, project);
    assert Order(keys)(a, b);
    CompareIsOrder(keys, a.row, b.row);
    m, n := a.num, b.num;
  }
}
