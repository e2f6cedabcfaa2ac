/**
 `value_counts` through SQL: the engine groups in any order, and Python orders the groups by count
 and by the position where each value first appears.
 */
module ValueCounts {
  import opened Common
  import opened StableSort

  datatype Cell<T> = Missing | Present(v: T)

  /** A group the engine returns. */
  datatype Group<T> = Group(value: T, count: nat)

  /** `dropna` and the WHERE clause: the cells that are not missing. */
  function DropMissing<T>(column: seq<Cell<T>>): seq<T> {
    if column == [] then []
    else (if column[0].Missing? then [] else [column[0].v]) + DropMissing(column[1..])
  }

  ghost function Occurrences<T>(xs: seq<T>, x: T): nat {
    multiset(xs)[x]
  }

  /** GROUP BY: each value that occurs, once, with its count, in any order. */
  ghost predicate GroupsOf<T>(xs: seq<T>, gs: seq<Group<T>>) {
    && (forall i, j :: 0 <= i < j < |gs| ==> gs[i].value != gs[j].value)
    && (forall i :: 0 <= i < |gs| ==> gs[i].value in xs && gs[i].count == Occurrences(xs, gs[i].value))
    && (forall x :: x in xs ==> Group(x, Occurrences(xs, x)) in gs)
  }

  // ----- first appearance -----

  /** Position `k` is the first with its value. */
  ghost predicate IsFirst<T>(xs: seq<T>, k: nat) {
    k < |xs| && forall i :: 0 <= i < k ==> xs[i] != xs[k]
  }

  ghost predicate FirstPositions<T>(xs: seq<T>, n: nat, first: map<T, nat>)
    requires n <= |xs|
  {
    && first.Keys == (set x | x in xs[..n])
    && (forall x :: x in first ==> first[x] < n && IsFirst(xs, first[x]) && xs[first[x]] == x)
  }

  method FirstAppearance<T(==)>(xs: seq<T>) returns (first: map<T, nat>)
    ensures FirstPositions(xs, |xs|, first)
  {
    first := map[];
    for i := 0 to |xs|
      invariant FirstPositions(xs, i, first)
    {
      assert xs[..i + 1] == xs[..i] + [xs[i]];
      if xs[i] !in first {
        first := first[xs[i] := i];
      }
    }
  }

  // ----- the order -----

  function CountKey<T>(ascending: bool): Key<Group<T>> {
    Key((g: Group<T>) => Num(g.count), ascending)
  }

  function SortKeys<T>(sort: bool, ascending: bool): seq<Key<Group<T>>> {
    if sort then [CountKey(ascending)] else []
  }

  /** The frame handed to `sort_values`: each group with its `first_pos`. */
  ghost function WithPositions<T>(first: map<T, nat>, gs: seq<Group<T>>): seq<Tagged<Group<T>>>
    requires forall i :: 0 <= i < |gs| ==> gs[i].value in first
  {
    seq(|gs|, i requires 0 <= i < |gs| => Tagged(first[gs[i].value], gs[i]))
  }

  /** What `sort_values` promises: the same rows, none before one that sorts strictly earlier. */
  ghost predicate Arranged<T>(keys: seq<Key<Group<T>>>, given: seq<Tagged<Group<T>>>, sorted: seq<Tagged<Group<T>>>) {
    && multiset(sorted) == multiset(given)
    && forall i, j :: 0 <= i < j < |sorted| ==> !Before(keys, sorted[j], sorted[i])
  }

  ghost function GroupAt<T>(xs: seq<T>, k: nat): Group<T>
    requires k < |xs|
  {
    Group(xs[k], Occurrences(xs, xs[k]))
  }

  /** The groups in order of first appearance. */
  ghost function InOrder<T>(xs: seq<T>, n: nat): seq<Tagged<Group<T>>>
    requires n <= |xs|
  {
    if n == 0 then []
    else if IsFirst(xs, n - 1) then InOrder(xs, n - 1) + [Tagged(n - 1, GroupAt(xs, n - 1))]
    else InOrder(xs, n - 1)
  }

  /** What pandas gives: by first appearance, or that stably sorted by count. */
  ghost function Reference<T>(xs: seq<T>, sort: bool, ascending: bool): seq<Group<T>> {
    var groups := Rows(InOrder(xs, |xs|));
    if sort then Sort([CountKey(ascending)], groups) else groups
  }

  // ----- sequences without repetition -----

  ghost predicate NoRepeats<T>(s: seq<T>) {
    forall i, j :: 0 <= i < j < |s| ==> s[i] != s[j]
  }

  lemma {:induction false} OnceEach<T>(s: seq<T>, x: T)
    requires NoRepeats(s)
    ensures multiset(s)[x] == if x in s then 1 else 0
  {
    if s != [] {
      var init, last := s[..|s| - 1], s[|s| - 1];
      assert s == init + [last];
      OnceEach(init, x);
    }
  }

  lemma SameElements<T>(s: seq<T>, t: seq<T>)
    requires NoRepeats(s) && NoRepeats(t) && forall x :: x in s <==> x in t
    ensures multiset(s) == multiset(t)
  {
    forall x ensures multiset(s)[x] == multiset(t)[x] {
      OnceEach(s, x);
      OnceEach(t, x);
    }
  }

  lemma RepeatsCount<T>(s: seq<T>, i: nat, j: nat)
    requires i < j < |s| && s[i] == s[j]
    ensures multiset(s)[s[i]] >= 2
  {
    assert s == s[..i] + [s[i]] + s[i + 1..j] + [s[j]] + s[j + 1..];
  }

  // ----- groups -----

  ghost predicate Fits<T>(xs: seq<T>, t: Tagged<Group<T>>) {
    IsFirst(xs, t.num) && t.row == GroupAt(xs, t.num)
  }

  lemma {:induction false} InOrderFacts<T>(xs: seq<T>, n: nat)
    requires n <= |xs|
    ensures Increasing(InOrder(xs, n))
    ensures forall i :: 0 <= i < |InOrder(xs, n)| ==>
                          InOrder(xs, n)[i].num < n && Fits(xs, InOrder(xs, n)[i])
    ensures forall k :: 0 <= k < n && IsFirst(xs, k) ==> Tagged(k, GroupAt(xs, k)) in InOrder(xs, n)
  {
    hide IsFirst, GroupAt;
    if n > 0 {
      InOrderFacts(xs, n - 1);
    }
  }

  /** The engine's groups, positioned, are the groups by first appearance, rearranged. */
  lemma GroupsPositioned<T>(xs: seq<T>, first: map<T, nat>, gs: seq<Group<T>>)
    requires FirstPositions(xs, |xs|, first) && GroupsOf(xs, gs)
    ensures forall i :: 0 <= i < |gs| ==> gs[i].value in first
    ensures multiset(WithPositions(first, gs)) == multiset(InOrder(xs, |xs|))
  {
    hide Occurrences, InOrder;
    assert xs[..|xs|] == xs;
    InOrderFacts(xs, |xs|);
    var given, ordered := WithPositions(first, gs), InOrder(xs, |xs|);
    forall t | t in given ensures t in ordered {
      assert Fits(xs, t);
    }
    forall t | t in ordered ensures t in given {
      assert Fits(xs, t);
      FitsOnce(xs, first, gs, t);
    }
    SameElements(given, ordered);
  }

  lemma FitsOnce<T>(xs: seq<T>, first: map<T, nat>, gs: seq<Group<T>>, t: Tagged<Group<T>>)
    requires FirstPositions(xs, |xs|, first) && GroupsOf(xs, gs) && Fits(xs, t)
    requires forall i :: 0 <= i < |gs| ==> gs[i].value in first
    ensures t in WithPositions(first, gs)
  {
    hide Occurrences;
    assert xs[..|xs|] == xs;
    assert t.row.value in xs;
    var i :| 0 <= i < |gs| && gs[i] == t.row;
    assert first[t.row.value] == t.num;
    assert WithPositions(first, gs)[i] == t;
  }

  lemma ArrangedIsSorted<T>(keys: seq<Key<Group<T>>>, ordered: seq<Tagged<Group<T>>>, sorted: seq<Tagged<Group<T>>>)
    requires Increasing(ordered) && Arranged(keys, ordered, sorted)
    ensures SortedBy(Order(keys), sorted)
  {
    hide Compare;
    forall i, j | 0 <= i < j < |sorted| ensures Order(keys)(sorted[i], sorted[j]) {
      var a, b := sorted[i], sorted[j];
      assert a in multiset(ordered) && b in multiset(ordered);
      var p, q :| 0 <= p < |ordered| && ordered[p] == a && 0 <= q < |ordered| && ordered[q] == b;
      OnceEach(ordered, a);
      assert a != b by {
        if a == b {
          RepeatsCount(sorted, i, j);
        }
      }
      assert a.num != b.num;
      CompareFlips(keys, a.row, b.row);
    }
  }

  /**
   `value_counts` of a column gives one answer, the one pandas gives, for every order in which
   the engine returns the groups and every way to sort them.
   */
  lemma CountsMatchPandas<T>(xs: seq<T>, gs: seq<Group<T>>, first: map<T, nat>, sort: bool, ascending: bool,
                             sorted: seq<Tagged<Group<T>>>)
    requires FirstPositions(xs, |xs|, first) && GroupsOf(xs, gs)
    requires (forall i :: 0 <= i < |gs| ==> gs[i].value in first) && Arranged(SortKeys(sort, ascending), WithPositions(first, gs), sorted)
    ensures Rows(sorted) == Reference(xs, sort, ascending)
  {
    hide GroupsOf, FirstPositions;
    var keys := SortKeys<T>(sort, ascending);
    var ordered := InOrder(xs, |xs|);
    GroupsPositioned(xs, first, gs);
    InOrderFacts(xs, |xs|);
    ArrangedIsSorted(keys, ordered, sorted);
    SortTaggedFacts(keys, ordered);
    OrderAsymmetric(keys, sorted);
    SortedUnique(Order(keys), sorted, SortTagged(keys, ordered));
    SortTaggedRows(keys, ordered);
    NoKeysIsSourceOrder(Rows(ordered));
  }

  // ----- conservation -----

  lemma Rearranged<T>(xs: seq<T>, gs: seq<Group<T>>, hs: seq<Group<T>>)
    requires GroupsOf(xs, gs) && multiset(hs) == multiset(gs)
    ensures GroupsOf(xs, hs)
  {
    hide Occurrences;
    forall i | 0 <= i < |hs| ensures hs[i] in gs {
      assert hs[i] in multiset(gs);
    }
    forall i, j | 0 <= i < j < |hs| ensures hs[i].value != hs[j].value {
      OnceEach(gs, hs[i]);
      assert hs[i] != hs[j] by {
        if hs[i] == hs[j] {
          RepeatsCount(hs, i, j);
        }
      }
    }
    forall x | x in xs ensures Group(x, Occurrences(xs, x)) in hs {
      assert Group(x, Occurrences(xs, x)) in multiset(gs);
    }
  }

  lemma InOrderGroups<T>(xs: seq<T>)
    ensures GroupsOf(xs, Rows(InOrder(xs, |xs|)))
  {
    hide Occurrences, InOrder, IsFirst;
    var ordered := InOrder(xs, |xs|);
    var gs := Rows(ordered);
    InOrderFacts(xs, |xs|);
    forall i, j | 0 <= i < j < |gs| ensures gs[i].value != gs[j].value {
      FirstsDiffer(xs, ordered[i], ordered[j]);
    }
    forall i | 0 <= i < |gs| ensures gs[i].value in xs && gs[i].count == Occurrences(xs, gs[i].value) {
      assert Fits(xs, ordered[i]);
    }
    forall x | x in xs ensures Group(x, Occurrences(xs, x)) in gs {
      EveryValueHasGroup(xs, x);
    }
  }

  lemma EveryValueHasGroup<T>(xs: seq<T>, x: T)
    requires x in xs
    ensures Group(x, Occurrences(xs, x)) in Rows(InOrder(xs, |xs|))
  {
    hide Occurrences, InOrder, IsFirst;
    var ordered := InOrder(xs, |xs|);
    InOrderFacts(xs, |xs|);
    var k := FirstIndex(xs, x);
    var i :| 0 <= i < |ordered| && ordered[i] == Tagged(k, GroupAt(xs, k));
    assert Rows(ordered)[i] == Group(x, Occurrences(xs, x));
  }

  lemma FirstsDiffer<T>(xs: seq<T>, s: Tagged<Group<T>>, t: Tagged<Group<T>>)
    requires Fits(xs, s) && Fits(xs, t) && s.num < t.num
    ensures s.row.value != t.row.value
  {
  }

  ghost function FirstIndex<T>(xs: seq<T>, x: T): (k: nat)
    requires x in xs
    ensures k < |xs| && IsFirst(xs, k) && xs[k] == x
  {
    if x in xs[..|xs| - 1] then FirstIndex(xs[..|xs| - 1], x) else |xs| - 1
  }

  ghost function Total<T>(gs: seq<Group<T>>): nat {
    if gs == [] then 0 else gs[0].count + Total(gs[1..])
  }

  lemma {:induction false} TotalIsSize<T>(gs: seq<Group<T>>, m: multiset<T>)
    requires forall i, j :: 0 <= i < j < |gs| ==> gs[i].value != gs[j].value
    requires forall i :: 0 <= i < |gs| ==> gs[i].count == m[gs[i].value]
    requires forall x :: x in m ==> exists i :: 0 <= i < |gs| && gs[i].value == x
    ensures Total(gs) == |m|
  {
    if gs == [] {
      assert m == multiset{};
    } else {
      var rest := m[gs[0].value := 0];
      forall x | x in rest ensures exists i :: 0 <= i < |gs[1..]| && gs[1..][i].value == x {
        var i :| 0 <= i < |gs| && gs[i].value == x;
        assert gs[1..][i - 1].value == x;
      }
      TotalIsSize(gs[1..], rest);
    }
  }

  ghost function PresentRows<T>(column: seq<Cell<T>>): set<nat> {
    set i: nat | i < |column| && column[i].Present?
  }

  lemma {:induction false} DropMissingSize<T>(column: seq<Cell<T>>)
    ensures |DropMissing(column)| == |PresentRows(column)|
  {
    if column != [] {
      var init, n := column[..|column| - 1], |column| - 1;
      DropMissingSize(init);
      DropMissingSnoc(init, column[n]);
      assert column == init + [column[n]];
      assert PresentRows(column) == PresentRows(init) + if column[n].Present? then {n} else {};
    } else {
      assert PresentRows(column) == {};
    }
  }

  lemma {:induction false} DropMissingSnoc<T>(column: seq<Cell<T>>, c: Cell<T>)
    ensures DropMissing(column + [c]) == DropMissing(column) + if c.Missing? then [] else [c.v]
  {
    if column != [] {
      DropMissingSnoc(column[1..], c);
      assert (column + [c])[1..] == column[1..] + [c];
    }
  }

  /** Every cell that is not missing is kept, as often as it occurs. */
  lemma {:induction false} DropMissingKeeps<T>(column: seq<Cell<T>>, x: T)
    ensures multiset(DropMissing(column))[x] == multiset(column)[Present(x)]
  {
    hide DropMissing;
    if column == [] {
      assert DropMissing(column) == [] by { NothingDropped(column); }
    } else {
      var init, last := column[..|column| - 1], column[|column| - 1];
      DropMissingKeeps(init, x);
      DropMissingSnoc(init, last);
      assert column == init + [last];
      CountSnoc(init, last, Present(x));
      if last.Present? {
        CountSnoc(DropMissing(init), last.v, x);
      } else {
        assert DropMissing(init) + [] == DropMissing(init);
      }
    }
  }

  lemma NothingDropped<T>(column: seq<Cell<T>>)
    requires column == []
    ensures DropMissing(column) == []
  {
  }

  lemma CountSnoc<T>(s: seq<T>, last: T, x: T)
    ensures multiset(s + [last])[x] == multiset(s)[x] + if last == x then 1 else 0
  {
  }

  /** Conservation: the answer names no value twice, and its counts add up to the rows not missing. */
  lemma CountsConserve<T>(column: seq<Cell<T>>, xs: seq<T>, sort: bool, ascending: bool)
    requires xs == DropMissing(column)
    ensures GroupsOf(xs, Reference(xs, sort, ascending))
    ensures Total(Reference(xs, sort, ascending)) == |xs| == |PresentRows(column)|
  {
    hide GroupsOf, InOrder, Sort, Total, Rows;
    DropMissingSize(column);
    var groups := Rows(InOrder(xs, |xs|));
    InOrderGroups(xs);
    SortIsStable([CountKey<T>(ascending)], groups);
    Rearranged(xs, groups, Reference(xs, sort, ascending));
    GroupsTotal(xs, Reference(xs, sort, ascending));
  }

  lemma GroupsTotal<T>(xs: seq<T>, gs: seq<Group<T>>)
    requires GroupsOf(xs, gs)
    ensures Total(gs) == |xs|
  {
    forall x | x in multiset(xs) ensures exists i :: 0 <= i < |gs| && gs[i].value == x {
      assert Group(x, Occurrences(xs, x)) in gs;
    }
    TotalIsSize(gs, multiset(xs));
  }

  // ----- normalize -----

  ghost function Shares<T>(gs: seq<Group<T>>, n: nat): real
    requires n > 0
  {
    if gs == [] then 0.0 else gs[0].count as real / n as real + Shares(gs[1..], n)
  }

  lemma DivisionAdds(a: real, b: real, n: real)
    requires n > 0.0
    ensures a / n + b / n == (a + b) / n
  {
    var x, y := a / n, b / n;
    assert (x + y) * n == x * n + y * n == a + b;
  }

  lemma Cancels(n: real)
    requires n > 0.0
    ensures n / n == 1.0
  {
  }

  lemma DivisionOrder(a: real, b: real, n: real)
    requires n > 0.0 && a < b
    ensures a / n < b / n
  {
    var x, y := a / n, b / n;
    assert x * n == a && y * n == b;
    assert (y - x) * n > 0.0;
  }

  lemma {:induction false} SharesOfTotal<T>(gs: seq<Group<T>>, n: nat)
    requires n > 0
    ensures Shares(gs, n) == Total(gs) as real / n as real
  {
    if gs != [] {
      SharesOfTotal(gs[1..], n);
      DivisionAdds(gs[0].count as real, Total(gs[1..]) as real, n as real);
    }
  }

  /** Proportions add up to one. */
  lemma NormalizedSumsToOne<T>(column: seq<Cell<T>>, xs: seq<T>, sort: bool, ascending: bool)
    requires xs == DropMissing(column) && xs != []
    ensures Shares(Reference(xs, sort, ascending), |xs|) == 1.0
  {
    hide Reference, DropMissing, Shares, Total;
    CountsConserve(column, xs, sort, ascending);
    SharesOfTotal(Reference(xs, sort, ascending), |xs|);
    Cancels(|xs| as real);
  }

  /** Sorting by proportion is sorting by count. */
  lemma ProportionOrder<T>(a: Group<T>, b: Group<T>, n: nat)
    requires n > 0
    ensures a.count as real / n as real < b.count as real / n as real <==> a.count < b.count
  {
    if a.count < b.count {
      DivisionOrder(a.count as real, b.count as real, n as real);
    } else if b.count < a.count {
      DivisionOrder(b.count as real, a.count as real, n as real);
    }
  }

  // ----- which way an answer is computed -----

  /** What `value_counts` is asked of: a column, an expression with its SQL text, or neither. */
  datatype Source = NoExpression | Column(name: string) | Expression(sql: string)

  datatype Route = ByPandas | ByColumn | ByEngineOrder

  /**
   With bins or on the pandas engine everything is left to pandas, and so is what cannot be named:
   an expression reaches SQL only if its text is the name of a column of the frame.  A column that
   the frame lacks makes the query fail, and pandas takes over.
   */
  function RouteOf(source: Source, bins: bool, pandasEngine: bool, columns: set<string>): Route {
    if bins || pandasEngine then ByPandas
    else
      match source
      case NoExpression => ByPandas
      case Column(name) => if name in columns then ByColumn else ByPandas
      case Expression(sql) => if sql in columns then ByEngineOrder else ByPandas
  }

  /**
   On the last route there is no column to look values up in, and the position used is the one in
   the engine's own answer: the groups come out stably sorted from the order they arrived in.
   */
  ghost function OfExpression<T>(gs: seq<Group<T>>, sort: bool, ascending: bool): seq<Group<T>> {
    Sort(SortKeys(sort, ascending), gs)
  }

  /** Two values the sort does not tell apart. */
  ghost predicate Tied<T>(xs: seq<T>, sort: bool, x: T, y: T) {
    x in xs && y in xs && x != y && (sort ==> Occurrences(xs, x) == Occurrences(xs, y))
  }

  lemma {:induction false} TiesStart<R>(keys: seq<Key<R>>, k: R, s: seq<R>)
    requires s != [] && Compare(keys, s[0], k) == 0
    ensures Ties(keys, k, s) != [] && Ties(keys, k, s)[0] == s[0]
  {
    hide Compare;
    if |s| > 1 {
      TiesStart(keys, k, s[..|s| - 1]);
    }
  }

  lemma TiedKeys<T>(a: Group<T>, b: Group<T>, sort: bool, ascending: bool)
    ensures Compare(SortKeys(sort, ascending), a, b) == 0 <==> (sort ==> a.count == b.count)
  {
  }

  /** Two tied groups up front stay in the order they arrived in. */
  lemma TiedKeepOrder<T>(a: Group<T>, b: Group<T>, rest: seq<Group<T>>, sort: bool, ascending: bool)
    requires a != b && (sort ==> a.count == b.count)
    ensures OfExpression([a, b] + rest, sort, ascending) != OfExpression([b, a] + rest, sort, ascending)
  {
    hide Compare, SortKeys, Sort;
    var keys := SortKeys<T>(sort, ascending);
    TiedKeys(a, a, sort, ascending);
    TiedKeys(b, a, sort, ascending);
    TiesStart(keys, a, [a, b] + rest);
    TiesStart(keys, a, [b, a] + rest);
    SortIsStable(keys, [a, b] + rest);
    SortIsStable(keys, [b, a] + rest);
  }

  lemma TakeOut<T>(s: seq<T>, p: nat, q: nat) returns (rest: seq<T>)
    requires p < q < |s|
    ensures multiset([s[p], s[q]] + rest) == multiset(s) == multiset([s[q], s[p]] + rest)
  {
    rest := s[..p] + s[p + 1..q] + s[q + 1..];
    assert s == s[..p] + [s[p]] + s[p + 1..q] + [s[q]] + s[q + 1..];
    assert multiset([s[p], s[q]]) == multiset([s[q], s[p]]) == multiset{s[p], s[q]};
  }

  /** Any two groups can arrive first, in either order. */
  lemma BroughtForward<T>(xs: seq<T>, x: T, y: T) returns (rest: seq<Group<T>>)
    requires x in xs && y in xs && x != y
    ensures var a, b := Group(x, Occurrences(xs, x)), Group(y, Occurrences(xs, y));
            GroupsOf(xs, [a, b] + rest) && GroupsOf(xs, [b, a] + rest)
  {
    hide InOrder, Occurrences;
    var gs := Rows(InOrder(xs, |xs|));
    InOrderGroups(xs);
    var a, b := Group(x, Occurrences(xs, x)), Group(y, Occurrences(xs, y));
    var i, j :| 0 <= i < |gs| && gs[i] == a && 0 <= j < |gs| && gs[j] == b;
    rest := TakeOut(gs, if i < j then i else j, if i < j then j else i);
    Rearranged(xs, gs, [a, b] + rest);
    Rearranged(xs, gs, [b, a] + rest);
  }

  lemma SameGroups<T>(xs: seq<T>, gs: seq<Group<T>>, hs: seq<Group<T>>)
    requires GroupsOf(xs, gs) && GroupsOf(xs, hs)
    ensures multiset(gs) == multiset(hs)
  {
    hide Occurrences;
    forall g: Group<T> ensures g in gs <==> g.value in xs && g == Group(g.value, Occurrences(xs, g.value)) {
    }
    forall g: Group<T> ensures g in hs <==> g.value in xs && g == Group(g.value, Occurrences(xs, g.value)) {
    }
    SameElements(gs, hs);
  }

  ghost function Strictly<R>(keys: seq<Key<R>>): (R, R) -> bool {
    (a, b) => Compare(keys, a, b) < 0
  }

  lemma StrictlyAsymmetric<R>(keys: seq<Key<R>>, s: seq<R>)
    ensures Asymmetric(Strictly(keys), s)
  {
    forall a, b | a in s && b in s && Strictly(keys)(a, b) ensures !Strictly(keys)(b, a) {
      CompareFlips(keys, a, b);
    }
  }

  lemma OneOrder<T>(xs: seq<T>, gs: seq<Group<T>>, hs: seq<Group<T>>, sort: bool, ascending: bool)
    requires GroupsOf(xs, gs) && GroupsOf(xs, hs) && forall x, y :: !Tied(xs, sort, x, y)
    ensures OfExpression(gs, sort, ascending) == OfExpression(hs, sort, ascending)
  {
    hide Compare, SortKeys, Sort;
    var keys := SortKeys<T>(sort, ascending);
    SameGroups(xs, gs, hs);
    StrictlySorted(xs, gs, sort, ascending);
    StrictlySorted(xs, hs, sort, ascending);
    SortIsStable(keys, gs);
    SortIsStable(keys, hs);
    StrictlyAsymmetric(keys, Sort(keys, gs));
    SortedUnique(Strictly(keys), Sort(keys, gs), Sort(keys, hs));
  }

  lemma StrictlySorted<T>(xs: seq<T>, gs: seq<Group<T>>, sort: bool, ascending: bool)
    requires GroupsOf(xs, gs) && forall x, y :: !Tied(xs, sort, x, y)
    ensures var keys, s := SortKeys(sort, ascending), OfExpression(gs, sort, ascending);
            SortedBy(Strictly(keys), s)
  {
    hide Compare, SortKeys, Sort, Occurrences;
    var keys, s := SortKeys<T>(sort, ascending), OfExpression(gs, sort, ascending);
    SortIsStable(keys, gs);
    Rearranged(xs, gs, s);
    forall i, j | 0 <= i < j < |s| ensures Strictly(keys)(s[i], s[j]) {
      TiedKeys(s[i], s[j], sort, ascending);
      assert !Tied(xs, sort, s[i].value, s[j].value);
    }
  }

  /**
   On that route the answer is the same for every order of the groups exactly when no two values
   tie: no two equal counts if sorted, and at most one value if not.
   */
  lemma ExpressionDeterministicExactlyWhen<T(!new)>(xs: seq<T>, sort: bool, ascending: bool)
    ensures (forall gs, hs :: GroupsOf(xs, gs) && GroupsOf(xs, hs) ==>
                                OfExpression(gs, sort, ascending) == OfExpression(hs, sort, ascending)) <==>
            (forall x, y :: !Tied(xs, sort, x, y))
  {
    hide GroupsOf, OfExpression;
    if forall x, y :: !Tied(xs, sort, x, y) {
      forall gs, hs | GroupsOf(xs, gs) && GroupsOf(xs, hs)
        ensures OfExpression(gs, sort, ascending) == OfExpression(hs, sort, ascending)
      {
        OneOrder(xs, gs, hs, sort, ascending);
      }
    } else {
      var x, y :| Tied(xs, sort, x, y);
      var rest := BroughtForward(xs, x, y);
      var a, b := Group(x, Occurrences(xs, x)), Group(y, Occurrences(xs, y));
      TiedKeepOrder(a, b, rest, sort, ascending);
    }
  }

  /** The answers a route may give, over the orders in which the engine may return the groups. */
  ghost predicate Possible<T(!new)>(route: Route, xs: seq<T>, sort: bool, ascending: bool, out: seq<Group<T>>) {
    match route
    case ByPandas => out == Reference(xs, sort, ascending)
    case ByColumn => exists gs, first, sorted :: SortedFrom(xs, gs, first, sort, ascending, sorted) && out == Rows(sorted)
    case ByEngineOrder => exists gs :: GroupsOf(xs, gs) && out == OfExpression(gs, sort, ascending)
  }

  ghost predicate SortedFrom<T>(xs: seq<T>, gs: seq<Group<T>>, first: map<T, nat>, sort: bool, ascending: bool,
                                sorted: seq<Tagged<Group<T>>>)
  {
    && FirstPositions(xs, |xs|, first) && GroupsOf(xs, gs)
    && (forall i :: 0 <= i < |gs| ==> gs[i].value in first)
    && Arranged(SortKeys(sort, ascending), WithPositions(first, gs), sorted)
  }

  /** In order of first appearance the last route gives what pandas gives. */
  lemma FirstAppearanceOrderIsRight<T>(xs: seq<T>, sort: bool, ascending: bool)
    ensures GroupsOf(xs, Rows(InOrder(xs, |xs|)))
    ensures OfExpression(Rows(InOrder(xs, |xs|)), sort, ascending) == Reference(xs, sort, ascending)
  {
    hide Sort, InOrder;
    InOrderGroups(xs);
    NoKeysIsSourceOrder(Rows(InOrder(xs, |xs|)));
  }

  /**
   Every answer is the one pandas gives, whatever the engine does, exactly when it is not asked of
   an expression whose text names a column, or no two values tie.
   */
  lemma AnswerRightExactlyWhen<T(!new)>(source: Source, bins: bool, pandasEngine: bool, columns: set<string>,
                                        xs: seq<T>, sort: bool, ascending: bool)
    ensures (forall out :: Possible(RouteOf(source, bins, pandasEngine, columns), xs, sort, ascending, out) ==>
                             out == Reference(xs, sort, ascending)) <==>
            || bins || pandasEngine || !source.Expression? || source.sql !in columns
            || (forall x, y :: !Tied(xs, sort, x, y))
  {
    hide GroupsOf, OfExpression, Reference, Tied;
    var route := RouteOf(source, bins, pandasEngine, columns);
    if route.ByColumn? {
      forall out | Possible(route, xs, sort, ascending, out) ensures out == Reference(xs, sort, ascending) {
        var gs, first, sorted :| SortedFrom(xs, gs, first, sort, ascending, sorted) && out == Rows(sorted);
        CountsMatchPandas(xs, gs, first, sort, ascending, sorted);
      }
    }
    if route.ByEngineOrder? {
      EngineOrderRightExactlyWhen(xs, sort, ascending);
    }
  }

  lemma EngineOrderRightExactlyWhen<T(!new)>(xs: seq<T>, sort: bool, ascending: bool)
    ensures (forall out :: Possible(ByEngineOrder, xs, sort, ascending, out) ==> out == Reference(xs, sort, ascending)) <==>
            (forall x, y :: !Tied(xs, sort, x, y))
  {
    hide GroupsOf, OfExpression, Reference, Tied;
    ExpressionDeterministicExactlyWhen(xs, sort, ascending);
    FirstAppearanceOrderIsRight(xs, sort, ascending);
    if forall out :: Possible(ByEngineOrder, xs, sort, ascending, out) ==> out == Reference(xs, sort, ascending) {
      forall gs, hs | GroupsOf(xs, gs) && GroupsOf(xs, hs)
        ensures OfExpression(gs, sort, ascending) == OfExpression(hs, sort, ascending)
      {
        assert Possible(ByEngineOrder, xs, sort, ascending, OfExpression(gs, sort, ascending));
        assert Possible(ByEngineOrder, xs, sort, ascending, OfExpression(hs, sort, ascending));
      }
    }
  }

  /**
   On a frame with columns `s` and `upper(s)`, the counts of the expression `upper(s)`, each value
   occurring once, come out in the order the engine gave them.
   */
  lemma TieGoesEitherWay(sort: bool, ascending: bool) returns (p: seq<Group<string>>, q: seq<Group<string>>)
    ensures var route := RouteOf(Expression("upper(\"s\")"), false, false, {"s", "upper(\"s\")"});
            p != q && Possible(route, ["A", "B"], sort, ascending, p) && Possible(route, ["A", "B"], sort, ascending, q)
  {
    var a, b, xs := Group("A", 1), Group("B", 1), ["A", "B"];
    assert "A" != "B" by {
      assert "A"[0] != "B"[0];
    }
    assert xs[0] == "A" && xs[1] == "B";
    assert Occurrences(xs, "A") == 1 && Occurrences(xs, "B") == 1;
    assert [a, b][0] == a && [a, b][1] == b && [b, a][0] == b && [b, a][1] == a;
    assert GroupsOf(xs, [a, b]) && GroupsOf(xs, [b, a]);
    TiedKeepOrder(a, b, [], sort, ascending);
    assert [a, b] + [] == [a, b] && [b, a] + [] == [b, a];
    p, q := OfExpression([a, b], sort, ascending), OfExpression([b, a], sort, ascending);
    assert Possible(ByEngineOrder, xs, sort, ascending, p) && Possible(ByEngineOrder, xs, sort, ascending, q);
    assert RouteOf(Expression("upper(\"s\")"), false, false, {"s", "upper(\"s\")"}) == ByEngineOrder;
  }

  // ----- the order asked for -----

  /** `a` may stand before `b`: by count in the direction asked for if sorted, and by first position otherwise. */
  ghost predicate InDirection<T>(xs: seq<T>, sort: bool, ascending: bool, a: Group<T>, b: Group<T>)
    requires a.value in xs && b.value in xs
  {
    if sort && a.count != b.count then (if ascending then a.count < b.count else a.count > b.count)
    else FirstIndex(xs, a.value) < FirstIndex(xs, b.value)
  }

  lemma OneKeyOrder<T>(sort: bool, ascending: bool, a: Group<T>, b: Group<T>)
    ensures Compare(SortKeys(sort, ascending), a, b) < 0 <==>
            sort && if ascending then a.count < b.count else a.count > b.count
    ensures Compare(SortKeys(sort, ascending), a, b) == 0 <==> (sort ==> a.count == b.count)
  {
    hide Compare;
    var keys := SortKeys<T>(sort, ascending);
    CompareIsOrder(keys, a, b);
    if sort {
      assert AgreeBelow(keys, a, b, 0);
      assert Precedes(keys, a, b) <==> KeyPrecedes(Num(a.count), Num(b.count), ascending) by {
        assert keys[0].of(a) == Num(a.count) && keys[0].of(b) == Num(b.count) && keys[0].ascending == ascending;
      }
      assert AgreeBelow(keys, a, b, 1) <==> keys[0].of(a) == keys[0].of(b);
    }
  }

  lemma FirstIndexIs<T>(xs: seq<T>, k: nat)
    requires IsFirst(xs, k)
    ensures FirstIndex(xs, xs[k]) == k
  {
    hide FirstIndex;
    var f := FirstIndex(xs, xs[k]);
    assert xs[f] == xs[k] && IsFirst(xs, f);
  }

  /** The answer pandas gives is in that order. */
  lemma ReferenceInDirection<T>(xs: seq<T>, sort: bool, ascending: bool, i: nat, j: nat)
    requires i < j < |Reference(xs, sort, ascending)|
    ensures var out := Reference(xs, sort, ascending);
            out[i].value in xs && out[j].value in xs && InDirection(xs, sort, ascending, out[i], out[j])
  {
    hide Compare, Sort, InOrder, FirstIndex;
    var keys, ordered := SortKeys<T>(sort, ascending), InOrder(xs, |xs|);
    InOrderFacts(xs, |xs|);
    SortTaggedFacts(keys, ordered);
    SortTaggedRows(keys, ordered);
    NoKeysIsSourceOrder(Rows(ordered));
    var sorted := SortTagged(keys, ordered);
    assert Rows(sorted) == Reference(xs, sort, ascending);
    var a, b := sorted[i], sorted[j];
    assert a in multiset(ordered) && b in multiset(ordered);
    assert Fits(xs, a) && Fits(xs, b) && Order(keys)(a, b);
    FirstIndexIs(xs, a.num);
    FirstIndexIs(xs, b.num);
    OneKeyOrder(sort, ascending, a.row, b.row);
  }

  /** So is every answer for a column, whatever the engine does. */
  lemma ColumnInDirection<T(!new)>(xs: seq<T>, sort: bool, ascending: bool, out: seq<Group<T>>, i: nat, j: nat)
    requires Possible(ByColumn, xs, sort, ascending, out) && i < j < |out|
    ensures out[i].value in xs && out[j].value in xs && InDirection(xs, sort, ascending, out[i], out[j])
  {
    hide Reference, InDirection;
    var gs, first, sorted :| SortedFrom(xs, gs, first, sort, ascending, sorted) && out == Rows(sorted);
    CountsMatchPandas(xs, gs, first, sort, ascending, sorted);
    ReferenceInDirection(xs, sort, ascending, i, j);
  }
}
