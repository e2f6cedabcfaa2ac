/**
 The dictionary `_computed_columns` as an object: `assign` works on its own copy of it and stores
 resolved expressions, item assignment writes raw expressions in place, and a copied DataStore
 shares it until then.
 */
module ColumnDictionary {
  import opened ComputedColumns

  // ----- what a write to the dictionary changes -----

  /** The columns the resolver looks up while it expands `e`. */
  function Reached(E: Columns, e: Expr, visited: set<string>): set<string>
    decreases E.Keys - visited, e
  {
    match e
    case Field(c) =>
      if c in visited then {}
      else if c in E then
        assert c in E.Keys - visited && c !in E.Keys - (visited + {c});
        {c} + Reached(E, E[c], visited + {c})
      else {c}
    case Literal(_) => {}
    case Node(Other(_), _) => {}
    case Node(_, args) => set i, c | 0 <= i < |args| && c in Reached(E, args[i], visited) :: c
  }

  lemma {:induction false} UnreachedUnchanged(E: Columns, e: Expr, visited: set<string>, key: string, v: Expr)
    requires key !in visited && key !in Reached(E, e, visited)
    ensures Resolve(E[key := v], e, visited) == Resolve(E, e, visited)
    decreases E.Keys - visited, e
  {
    match e
    case Field(c) =>
      if c in E && c !in visited {
        assert c in E.Keys - visited && c !in E.Keys - (visited + {c});
        UnreachedUnchanged(E, E[c], visited + {c}, key, v);
      }
    case Literal(_) =>
    case Node(Other(_), _) =>
    case Node(sym, args) =>
      forall i | 0 <= i < |args| ensures Resolve(E[key := v], args[i], visited) == Resolve(E, args[i], visited) {
        assert forall c :: c in Reached(E, args[i], visited) ==> c in Reached(E, e, visited);
        UnreachedUnchanged(E, args[i], visited, key, v);
      }
      assert seq(|args|, i requires 0 <= i < |args| => Resolve(E[key := v], args[i], visited))
          == seq(|args|, i requires 0 <= i < |args| => Resolve(E, args[i], visited));
  }

  /** The literals of an expression. */
  function Literals(e: Expr): set<string> {
    match e
    case Field(_) => {}
    case Literal(t) => {t}
    case Node(_, args) => set i, t | 0 <= i < |args| && t in Literals(args[i]) :: t
  }

  lemma {:induction false} ReachedShows(E: Columns, e: Expr, visited: set<string>, key: string, t: string)
    requires key !in visited && key in Reached(E, e, visited)
    ensures t in Literals(Resolve(E[key := Literal(t)], e, visited))
    decreases E.Keys - visited, e
  {
    var E' := E[key := Literal(t)];
    match e
    case Field(c) =>
      if c != key {
        assert c in E.Keys - visited && c !in E.Keys - (visited + {c});
        ReachedShows(E, E[c], visited + {c}, key, t);
      }
    case Literal(_) =>
    case Node(Other(_), _) =>
    case Node(sym, args) =>
      var i :| 0 <= i < |args| && key in Reached(E, args[i], visited);
      ReachedShows(E, args[i], visited, key, t);
      var resolved := seq(|args|, i requires 0 <= i < |args| => Resolve(E', args[i], visited));
      assert Resolve(E', e, visited) == Node(sym, resolved) && t in Literals(resolved[i]);
  }

  /** There is always one more literal. */
  lemma {:induction false} AnotherText(s: set<string>) returns (t: string)
    ensures t !in s && forall u :: u in s ==> |u| < |t|
  {
    if s == {} {
      t := "";
    } else {
      var u :| u in s;
      var shorter := AnotherText(s - {u});
      t := (if |u| < |shorter| then shorter else u) + "0";
    }
  }

  function Written(E: Columns, key: string, v: Expr): Columns {
    E[key := v]
  }

  /**
   Writing to the dictionary leaves the expansion of `x` alone, whatever is written, exactly when
   the resolver does not look the key up.
   */
  lemma WriteHarmlessExactlyWhen(E: Columns, x: Expr, key: string)
    ensures (forall v :: Resolve(Written(E, key, v), x, {}) == Resolve(E, x, {})) <==> key !in Reached(E, x, {})
  {
    if key in Reached(E, x, {}) {
      var t := AnotherText(Literals(Resolve(E, x, {})));
      ReachedShows(E, x, {}, key, t);
      assert Resolve(Written(E, key, Literal(t)), x, {}) != Resolve(E, x, {});
    } else {
      forall v ensures Resolve(Written(E, key, v), x, {}) == Resolve(E, x, {}) {
        UnreachedUnchanged(E, x, {}, key, v);
      }
    }
  }

  /**
   The original has `b := a + 1`; item assignment `copy["b"] = copy["a"] * 2` makes the original
   expand `b` to `a * 2`.
   */
  lemma WriteOnCopyShows()
    ensures var sum := Node(Arithmetic("+"), [Field("a"), Literal("1")]);
            var product := Node(Arithmetic("*"), [Field("a"), Literal("2")]);
            var E := Stored([Assign("b", sum)]);
            && Resolve(E, Field("b"), {}) == sum
            && Resolve(E["b" := product], Field("b"), {}) == product
            && "b" in Reached(E, Field("b"), {})
  {
    var sum := Node(Arithmetic("+"), [Field("a"), Literal("1")]);
    var product := Node(Arithmetic("*"), [Field("a"), Literal("2")]);
    var none: Columns := map[];
    var run := [Assign("b", sum)];
    assert run[..0] == [] && Stored(run[..0]) == none;
    Pair(none, Arithmetic("+"), Field("a"), Literal("1"), {});
    var E := Stored(run);
    assert E == map["b" := sum];
    Pair(E, Arithmetic("+"), Field("a"), Literal("1"), {"b"});
    Pair(E["b" := product], Arithmetic("*"), Field("a"), Literal("2"), {"b"});
    assert {} + {"b"} == {"b"};
  }

  // ----- item assignment -----

  /**
   What item assignment of `e` to `c` needs to be read back as sequential assignment would have
   it: `c` itself was not computed before if `e` reads it, and the other computed columns it reads
   expand to what is stored for them, `c` being under expansion.
   */
  predicate ItemSettled(E: Columns, c: string, e: Expr, within: Columns) {
    && (forall d :: d in Hidden(e) && d in E ==> E[d] == Field(d))
    && (c in Walked(e) && c in E ==> E[c] == Field(c))
    && (forall d :: d in Walked(e) && d in E && d != c ==> Unmoved(within, E[d], {c, d}))
  }

  lemma ItemSettledNode(E: Columns, c: string, sym: Symbol, args: seq<Expr>, within: Columns)
    requires !sym.Other?
    ensures ItemSettled(E, c, Node(sym, args), within) <==> forall i :: 0 <= i < |args| ==> ItemSettled(E, c, args[i], within)
  {
    hide Unmoved;
    if ItemSettled(E, c, Node(sym, args), within) {
      forall i | 0 <= i < |args| ensures ItemSettled(E, c, args[i], within) {
        assert forall d :: d in Walked(args[i]) ==> d in Walked(Node(sym, args));
        assert forall d :: d in Hidden(args[i]) ==> d in Hidden(Node(sym, args));
      }
    }
  }

  lemma {:induction false} ItemExpandsExactlyWhen(E: Columns, c: string, whole: Expr, e: Expr)
    ensures Resolve(E[c := whole], e, {c}) == Subst(E, e) <==> ItemSettled(E, c, e, E[c := whole])
  {
    var within := E[c := whole];
    match e
    case Field(d) =>
      if d in E && d != c {
        assert {c} + {d} == {c, d};
        StaysPut(within, E[d], {c, d});
      }
    case Literal(_) =>
    case Node(Other(_), args) =>
      SubstFixed(E, e);
      assert Hidden(e) == Reads(e) && Walked(e) == {};
    case Node(sym, args) =>
      var resolved := seq(|args|, i requires 0 <= i < |args| => Resolve(within, args[i], {c}));
      var substituted := seq(|args|, i requires 0 <= i < |args| => Subst(E, args[i]));
      forall i | 0 <= i < |args| ensures resolved[i] == substituted[i] <==> ItemSettled(E, c, args[i], within) {
        ItemExpandsExactlyWhen(E, c, whole, args[i]);
      }
      assert Resolve(within, e, {c}) == Node(sym, resolved) && Subst(E, e) == Node(sym, substituted);
      assert resolved == substituted <==> forall i :: 0 <= i < |args| ==> resolved[i] == substituted[i];
      ItemSettledNode(E, c, sym, args, within);
  }

  /**
   After any settled run of `assign`, a column written by item assignment reads as sequential
   assignment would have it exactly under that condition.
   */
  lemma ItemAssignRightExactlyWhen(run: seq<Assignment>, c: string, e: Expr)
    requires SettledRun(run)
    ensures ItemSettled(Stored(run), c, e, Stored(run)[c := e]) <==>
            Eval(Free(), Resolve(Stored(run)[c := e], Field(c), {}), FreeRow()) == Eval(Free(), e, After(Free(), run, FreeRow()))
  {
    hide ItemSettled, SettledRun;
    var E := Stored(run);
    ItemExpandsExactlyWhen(E, c, e, e);
    assert {} + {c} == {c};
    assert Resolve(E[c := e], Field(c), {}) == Resolve(E[c := e], e, {c});
    RunMeaning(Free(), run, FreeRow());
    SubstMeaning(Free(), E, e, FreeRow());
    EvalAgrees(Free(), e, Current(Free(), E, FreeRow()), After(Free(), run, FreeRow()));
    FreeMeaning(Subst(E, e));
    FreeMeaning(Resolve(E[c := e], e, {c}));
  }

  /** The dictionary after the item assignments `a = fs[0]`, `a = fs[1]`, ...: the last one only. */
  function ItemChain(E: Columns, a: string, fs: seq<Expr>): Columns {
    if fs == [] then E else ItemChain(E, a, fs[..|fs| - 1])[a := fs[|fs| - 1]]
  }

  lemma {:induction false} ItemChainIsLast(E: Columns, a: string, fs: seq<Expr>)
    ensures fs != [] ==> ItemChain(E, a, fs) == E[a := fs[|fs| - 1]]
  {
    if |fs| > 1 {
      ItemChainIsLast(E, a, fs[..|fs| - 1]);
    }
  }

  /** The value of `a` is still the source column: nothing was stored, or copies of it only. */
  predicate StillSource(E: Columns, a: string, fs: seq<Expr>) {
    if fs == [] then a in E ==> E[a] == Field(a)
    else
      var last := fs[|fs| - 1];
      && last.Field?
      && if last.name == a then StillSource(E, a, fs[..|fs| - 1]) else last.name in E && E[last.name] == Field(a)
  }

  /** The row after a settled run, over source columns as expressions. */
  lemma RowIsCurrent(run: seq<Assignment>, c: string)
    requires SettledRun(run)
    ensures After(Free(), run, FreeRow())(c) == if c in Stored(run) then Stored(run)[c] else Field(c)
  {
    RunMeaning(Free(), run, FreeRow());
    assert Current(Free(), Stored(run), FreeRow())(c) == After(Free(), run, FreeRow())(c);
    if c in Stored(run) {
      FreeMeaning(Stored(run)[c]);
    }
  }

  lemma IterateIsSubst(run: seq<Assignment>, a: string, fs: seq<Expr>)
    requires SettledRun(run) && fs != []
    ensures var row := After(Free(), run, FreeRow());
            Iterate(Free(), a, fs, row) == Subst(Stored(run)[a := Iterate(Free(), a, fs[..|fs| - 1], row)], fs[|fs| - 1])
  {
    hide SettledRun, Stored, After;
    var row := After(Free(), run, FreeRow());
    var v, last := Iterate(Free(), a, fs[..|fs| - 1], row), fs[|fs| - 1];
    var E := Stored(run)[a := v];
    SubstMeaning(Free(), E, last, FreeRow());
    FreeMeaning(Subst(E, last));
    FreeMeaning(v);
    forall c | c in Reads(last) ensures Current(Free(), E, FreeRow())(c) == With(row, a, v)(c) {
      RowIsCurrent(run, c);
      if c in E {
        FreeMeaning(E[c]);
      }
    }
    EvalAgrees(Free(), last, Current(Free(), E, FreeRow()), With(row, a, v));
  }

  lemma {:induction false} IterateIsSource(run: seq<Assignment>, a: string, fs: seq<Expr>)
    requires SettledRun(run)
    ensures Iterate(Free(), a, fs, After(Free(), run, FreeRow())) == Field(a) <==> StillSource(Stored(run), a, fs)
  {
    hide SettledRun, Stored, After;
    if fs == [] {
      RowIsCurrent(run, a);
    } else {
      IterateIsSource(run, a, fs[..|fs| - 1]);
      IterateIsSubst(run, a, fs);
    }
  }

  /** What the last item assignment needs, the ones before it being `earlier`. */
  predicate ChainSettled(E: Columns, a: string, earlier: seq<Expr>, last: Expr) {
    && (a in Hidden(last) || a in Walked(last) ==> StillSource(E, a, earlier))
    && (forall d :: d in Hidden(last) && d in E && d != a ==> E[d] == Field(d))
    && (forall d :: d in Walked(last) && d in E && d != a ==> Unmoved(E[a := last], E[d], {a, d}))
  }

  /**
   Overwriting a column by item assignment, behind any settled run of `assign`, composes exactly
   when the column was still the source column if the last expression reads it, and the other
   computed columns it reads expand to what is stored for them.
   */
  lemma ItemChainComposesExactlyWhen(run: seq<Assignment>, a: string, fs: seq<Expr>)
    requires SettledRun(run) && fs != []
    ensures Resolve(ItemChain(Stored(run), a, fs), Field(a), {}) == Iterate(Free(), a, fs, After(Free(), run, FreeRow())) <==>
            ChainSettled(Stored(run), a, fs[..|fs| - 1], fs[|fs| - 1])
  {
    hide *;
    var E, earlier, last := Stored(run), fs[..|fs| - 1], fs[|fs| - 1];
    var value := Iterate(Free(), a, earlier, After(Free(), run, FreeRow()));
    ItemChainIsLast(E, a, fs);
    assert E[a := value][a := last] == E[a := last];
    ExpandsField(E[a := last], a);
    IterateIsSubst(run, a, fs);
    IterateIsSource(run, a, earlier);
    ItemExpandsExactlyWhen(E[a := value], a, last, last);
    SettledSame(E, a, value, earlier, last);
  }

  lemma ExpandsField(E: Columns, a: string)
    requires a in E
    ensures Resolve(E, Field(a), {}) == Resolve(E, E[a], {a})
  {
    assert {} + {a} == {a};
  }

  lemma SettledSame(E: Columns, a: string, value: Expr, earlier: seq<Expr>, last: Expr)
    requires value == Field(a) <==> StillSource(E, a, earlier)
    ensures ItemSettled(E[a := value], a, last, E[a := last]) <==> ChainSettled(E, a, earlier, last)
  {
    hide StillSource, Unmoved, Hidden, Walked;
  }

  /** `ds["a"] = ds["a"] + 1` and `ds["a"] = ds["a"] * 2` leave `a * 2`, not `(a + 1) * 2`. */
  lemma ItemOverwriteLost()
    ensures var sum := Node(Arithmetic("+"), [Field("a"), Literal("1")]);
            var product := Node(Arithmetic("*"), [Field("a"), Literal("2")]);
            && Resolve(ItemChain(map[], "a", [sum, product]), Field("a"), {}) == product
            && Iterate(Free(), "a", [sum, product], After(Free(), [], FreeRow())) == Node(Arithmetic("*"), [sum, Literal("2")])
  {
    var sum := Node(Arithmetic("+"), [Field("a"), Literal("1")]);
    var product := Node(Arithmetic("*"), [Field("a"), Literal("2")]);
    var fs := [sum, product];
    assert fs[..1] == [sum] && [sum][..0] == [];
    ItemChainIsLast(map[], "a", fs);
    var E: Columns := map["a" := product];
    assert {} + {"a"} == {"a"};
    Pair(E, Arithmetic("*"), Field("a"), Literal("2"), {"a"});
    IterateIsSubst([], "a", fs);
    IterateIsSubst([], "a", [sum]);
    assert Iterate(Free(), "a", [], FreeRow()) == Field("a");
    Pair(map["a" := Field("a")], Arithmetic("+"), Field("a"), Literal("1"), {});
    Pair(map["a" := sum], Arithmetic("*"), Field("a"), Literal("2"), {});
  }

  // ----- both kinds of assignment -----

  datatype Write = BySql(name: string, expr: Expr) | ByItem(name: string, expr: Expr)

  /** The dictionary after any mixture of the two, from any dictionary. */
  function Mixed(E: Columns, writes: seq<Write>): Columns {
    if writes == [] then E
    else
      var before, last := Mixed(E, writes[..|writes| - 1]), writes[|writes| - 1];
      before[last.name := if last.BySql? then Resolve(before, last.expr, {}) else last.expr]
  }

  function Assignments(writes: seq<Write>): seq<Assignment> {
    seq(|writes|, i requires 0 <= i < |writes| => Assign(writes[i].name, writes[i].expr))
  }

  lemma MixedSnoc(E: Columns, init: seq<Write>, last: Write)
    ensures Mixed(E, init + [last]) ==
            Mixed(E, init)[last.name := if last.BySql? then Resolve(Mixed(E, init), last.expr, {}) else last.expr]
    ensures Assignments(init + [last]) == Assignments(init) + [Assign(last.name, last.expr)]
  {
    assert (init + [last])[..|init|] == init;
  }

  /** With SQL assignments only, from an empty dictionary, it is the one `assign` stores. */
  lemma {:induction false} SqlOnlyIsStored(writes: seq<Write>)
    requires forall i :: 0 <= i < |writes| ==> writes[i].BySql?
    ensures Mixed(map[], writes) == Stored(Assignments(writes))
  {
    if writes != [] {
      var init, last := writes[..|writes| - 1], writes[|writes| - 1];
      assert writes == init + [last];
      SqlOnlyIsStored(init);
      MixedSnoc(map[], init, last);
      StoredSnoc(Assignments(init), Assign(last.name, last.expr));
    }
  }

  /** On an acyclic dictionary an expanded expression reads no computed column any more. */
  lemma {:induction false} ExpandedReadsSource(E: Columns, rank: map<string, nat>, e: Expr, visited: set<string>)
    requires Acyclic(E, rank) && AllWalked(E, e) && visited <= E.Keys
    requires forall v, d :: v in visited && d in Reads(e) && d in E ==> rank[d] < rank[v]
    ensures Reads(Resolve(E, e, visited)) !! E.Keys
    decreases E.Keys - visited, e
  {
    match e
    case Field(c) =>
      if c in E {
        assert c in E.Keys - visited && c !in E.Keys - (visited + {c});
        ExpandedReadsSource(E, rank, E[c], visited + {c});
      }
    case Literal(_) =>
    case Node(Other(_), args) =>
      assert Hidden(e) == Reads(e);
    case Node(sym, args) =>
      var resolved := seq(|args|, i requires 0 <= i < |args| => Resolve(E, args[i], visited));
      forall i | 0 <= i < |args| ensures Reads(resolved[i]) !! E.Keys {
        assert forall d :: d in Reads(args[i]) ==> d in Reads(e);
        assert forall d :: d in Hidden(args[i]) ==> d in Hidden(e);
        ExpandedReadsSource(E, rank, args[i], visited);
      }
      assert Resolve(E, e, visited) == Node(sym, resolved);
  }

  lemma {:induction false} HiddenIsRead(e: Expr)
    ensures Hidden(e) <= Reads(e)
  {
    match e
    case Field(_) =>
    case Literal(_) =>
    case Node(sym, args) =>
      if !sym.Other? {
        forall c | c in Hidden(e) ensures c in Reads(e) {
          var i :| 0 <= i < |args| && c in Hidden(args[i]);
          HiddenIsRead(args[i]);
          assert c in Reads(args[i]);
        }
      }
  }

  lemma {:induction false} ExpandedReadsWithin(E: Columns, e: Expr, visited: set<string>, known: set<string>)
    requires Reads(e) <= known && forall c :: c in E ==> Reads(E[c]) <= known
    ensures Reads(Resolve(E, e, visited)) <= known
    decreases E.Keys - visited, e
  {
    match e
    case Field(c) =>
      if c in E && c !in visited {
        assert c in E.Keys - visited && c !in E.Keys - (visited + {c});
        ExpandedReadsWithin(E, E[c], visited + {c}, known);
      }
    case Literal(_) =>
    case Node(Other(_), args) =>
    case Node(sym, args) =>
      var resolved := seq(|args|, i requires 0 <= i < |args| => Resolve(E, args[i], visited));
      forall i | 0 <= i < |args| ensures Reads(resolved[i]) <= known {
        assert forall d :: d in Reads(args[i]) ==> d in Reads(e);
        ExpandedReadsWithin(E, args[i], visited, known);
      }
      assert Resolve(E, e, visited) == Node(sym, resolved);
  }

  /** The dictionary is acyclic, reads what is known, and hides no computed column. */
  ghost predicate Layered(E: Columns, rank: map<string, nat>, n: nat, known: set<string>) {
    && Acyclic(E, rank)
    && (forall c :: c in E ==> rank[c] < n)
    && (forall c :: c in E ==> Reads(E[c]) <= known)
    && (forall c :: c in E ==> Hidden(E[c]) !! E.Keys)
  }

  lemma LayeredStep(E: Columns, rank: map<string, nat>, n: nat, known: set<string>, w: Write, stored: Expr)
    requires Layered(E, rank, n, known) && w.name !in E && w.name !in known && w.name !in Reads(w.expr)
    requires Hidden(w.expr) !! E.Keys && stored == if w.BySql? then Resolve(E, w.expr, {}) else w.expr
    ensures Layered(E[w.name := stored], rank[w.name := n], n + 1, known + Reads(w.expr))
    ensures w.BySql? ==> Reads(stored) !! E.Keys
  {
    ExpandedReadsWithin(E, w.expr, {}, known + Reads(w.expr));
    ExpandedReadsSource(E, rank, w.expr, {});
    HiddenIsRead(stored);
    hide Resolve;
    forall c | c in E ensures Hidden(E[c]) !! E.Keys + {w.name} {
      HiddenIsRead(E[c]);
    }
  }

  lemma ExtensionStep<V>(I: Interp<V>, E: Columns, rank: map<string, nat>, n: nat, known: set<string>,
                         base: string -> V, row: string -> V, w: Write, stored: Expr)
    requires Layered(E, rank, n, known) && w.name !in E && w.name !in known && w.name !in Reads(w.expr)
    requires Hidden(w.expr) !! E.Keys && stored == if w.BySql? then Resolve(E, w.expr, {}) else w.expr
    requires IsExtension(I, E, base, row)
    ensures IsExtension(I, E[w.name := stored], base, With(row, w.name, Eval(I, w.expr, row)))
  {
    var next := With(row, w.name, Eval(I, w.expr, row));
    LayeredStep(E, rank, n, known, w, stored);
    AcyclicExpansion(I, E, rank, base, row, w.expr, {});
    ExpandedReadsWithin(E, w.expr, {}, known + Reads(w.expr));
    hide Eval, Resolve;
    if w.BySql? {
      EvalAgrees(I, stored, base, next);
    } else {
      EvalAgrees(I, stored, row, next);
    }
    forall c | c in E ensures Eval(I, E[c], row) == Eval(I, E[c], next) {
      EvalAgrees(I, E[c], row, next);
    }
  }

  lemma {:induction false} MixedFreshLayered<V>(I: Interp<V>, writes: seq<Write>, base: string -> V) returns (rank: map<string, nat>)
    requires FreshRun(Assignments(writes))
    ensures Layered(Mixed(map[], writes), rank, |writes|, AllReads(Assignments(writes)))
    ensures Mixed(map[], writes).Keys == Names(Assignments(writes))
    ensures IsExtension(I, Mixed(map[], writes), base, After(I, Assignments(writes), base))
  {
    hide Eval, Resolve, Hidden, Reads;
    if writes == [] {
      rank := map[];
    } else {
      var init, last := writes[..|writes| - 1], writes[|writes| - 1];
      var run, next := Assignments(init), Assign(last.name, last.expr);
      assert writes == init + [last];
      MixedSnoc(map[], init, last);
      Snoc(run, next);
      assert (run + [next])[..|run|] == run;
      var before := MixedFreshLayered(I, init, base);
      var E := Mixed(map[], init);
      var stored := if last.BySql? then Resolve(E, last.expr, {}) else last.expr;
      hide Layered;
      LayeredStep(E, before, |init|, AllReads(run), last, stored);
      ExtensionStep(I, E, before, |init|, AllReads(run), base, After(I, run, base), last, stored);
      rank := before[last.name := |init|];
      SameExtension(I, E[last.name := stored], base, With(After(I, run, base), last.name, Eval(I, last.expr, After(I, run, base))),
                    After(I, run + [next], base));
    }
  }

  lemma SameExtension<V>(I: Interp<V>, E: Columns, base: string -> V, ext: string -> V, other: string -> V)
    requires IsExtension(I, E, base, ext) && forall c :: ext(c) == other(c)
    ensures IsExtension(I, E, base, other)
  {
    hide Eval;
    forall c | c in E ensures Eval(I, E[c], ext) == Eval(I, E[c], other) {
      EvalAgrees(I, E[c], ext, other);
    }
  }

  /**
   For fresh names any mixture of `assign` and item assignment is sequential assignment, although
   one stores resolved and the other raw expressions.
   */
  lemma MixedFreshMeaning<V>(I: Interp<V>, writes: seq<Write>, e: Expr, base: string -> V)
    requires FreshRun(Assignments(writes)) && Hidden(e) !! Names(Assignments(writes))
    ensures Eval(I, Resolve(Mixed(map[], writes), e, {}), base) == Eval(I, e, After(I, Assignments(writes), base))
  {
    hide FreshRun, Eval, Resolve, Mixed, After;
    var rank := MixedFreshLayered(I, writes, base);
    ExpansionPreservesMeaning(I, Mixed(map[], writes), rank, base, After(I, Assignments(writes), base), e);
  }

  // ----- the objects -----

  datatype Item = NotAnExpression | Expression(expr: Expr)

  /** The object in `_computed_columns`: a dictionary, or the empty set a column insert leaves there. */
  class ColumnTable {
    const isDict: bool
    var entries: Columns

    constructor (isDict: bool, entries: Columns)
      ensures this.isDict == isDict && this.entries == entries
    {
      this.isDict, this.entries := isDict, entries;
    }
  }

  /** The part of a DataStore that tracks computed columns. */
  class ColumnTracker {
    var columns: ColumnTable

    constructor (columns: ColumnTable)
      ensures this.columns == columns
    {
      this.columns := columns;
    }

    /** `__copy__` shares the dictionary with the copy. */
    method Copy() returns (copy: ColumnTracker)
      ensures fresh(copy) && copy.columns == columns
    {
      copy := new ColumnTracker(columns);
    }

    /** `insert` of a column puts an empty set in its place. */
    method InsertColumn()
      modifies this
      ensures fresh(columns) && !columns.isDict && columns.entries == map[]
    {
      columns := new ColumnTable(false, map[]);
    }

    /** `ds[key] = value` records the raw expression, in place; a set takes no item. */
    method SetItem(key: string, value: Item) returns (raised: bool)
      modifies columns
      ensures raised <==> value.Expression? && !columns.isDict
      ensures columns.entries ==
              if value.Expression? && !raised then Mixed(old(columns.entries), [ByItem(key, value.expr)]) else old(columns.entries)
    {
      if value.Expression? {
        if !columns.isDict {
          return true;
        }
        MixedSnoc(columns.entries, [], ByItem(key, value.expr));
        assert [] + [ByItem(key, value.expr)] == [ByItem(key, value.expr)];
        columns.entries := columns.entries[key := value.expr];
      }
      return false;
    }

    /** The SQL part of `assign`: works on its own copy, one keyword after the other. */
    method AssignSql(kwargs: seq<Assignment>) returns (raised: bool)
      modifies this
      ensures fresh(columns) && columns.isDict == old(columns).isDict
      ensures raised <==> kwargs != [] && !columns.isDict
      ensures !raised ==> columns.entries == Mixed(old(columns.entries), SqlWrites(kwargs))
      ensures raised ==> columns.entries == old(columns.entries)
    {
      ghost var before := columns.entries;
      columns := new ColumnTable(columns.isDict, columns.entries);
      for k := 0 to |kwargs|
        invariant fresh(columns) && columns.isDict == old(columns).isDict
        invariant k > 0 ==> columns.isDict
        invariant columns.entries == Mixed(before, SqlWrites(kwargs[..k]))
      {
        var visited := new VisitedSet();
        var resolved := ResolveExprDependencies(columns.entries, kwargs[k].expr, visited);
        if !columns.isDict {
          return true;
        }
        columns.entries := columns.entries[kwargs[k].name := resolved];
        MixedSnoc(before, SqlWrites(kwargs[..k]), BySql(kwargs[k].name, kwargs[k].expr));
        assert SqlWrites(kwargs[..k]) + [BySql(kwargs[k].name, kwargs[k].expr)] == SqlWrites(kwargs[..k + 1]);
      }
      assert kwargs[..|kwargs|] == kwargs;
      return false;
    }
  }

  function SqlWrites(kwargs: seq<Assignment>): seq<Write> {
    seq(|kwargs|, i requires 0 <= i < |kwargs| => BySql(kwargs[i].name, kwargs[i].expr))
  }

  /** After a column insert the next `assign` raises as soon as it has an expression to record. */
  method AssignAfterInsert(tracker: ColumnTracker, kwargs: seq<Assignment>) returns (raised: bool)
    modifies tracker
    ensures raised <==> kwargs != []
  {
    tracker.InsertColumn();
    raised := tracker.AssignSql(kwargs);
  }

  /** `assign` on a copy leaves the original's dictionary alone: nothing that existed is modified. */
  method AssignOnCopy(original: ColumnTracker, kwargs: seq<Assignment>) returns (copy: ColumnTracker, raised: bool)
    ensures fresh(copy) && (raised <==> kwargs != [] && !original.columns.isDict)
    ensures !raised ==> copy.columns.entries == Mixed(original.columns.entries, SqlWrites(kwargs))
  {
    copy := original.Copy();
    raised := copy.AssignSql(kwargs);
  }

  /**
   Item assignment on a copy is seen by the original: whatever it expands stays the same if the
   resolver does not look the key up, and otherwise depends on what the copy wrote.
   */
  method SetItemOnCopy(original: ColumnTracker, key: string, e: Expr) returns (copy: ColumnTracker, raised: bool)
    modifies original.columns
    ensures original.columns == old(original.columns) && (raised <==> !original.columns.isDict)
    ensures original.columns.entries == if raised then old(original.columns.entries) else Written(old(original.columns.entries), key, e)
    ensures forall x :: key !in Reached(old(original.columns.entries), x, {}) ==>
                          Resolve(original.columns.entries, x, {}) == Resolve(old(original.columns.entries), x, {})
  {
    copy := original.Copy();
    raised := copy.SetItem(key, Expression(e));
    ghost var E := old(original.columns.entries);
    assert [ByItem(key, e)] == [] + [ByItem(key, e)];
    MixedSnoc(E, [], ByItem(key, e));
    forall x | key !in Reached(E, x, {}) ensures Resolve(E[key := e], x, {}) == Resolve(E, x, {}) {
      UnreachedUnchanged(E, x, {}, key, e);
    }
  }
}
