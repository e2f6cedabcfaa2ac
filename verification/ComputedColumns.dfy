/**
 Computed columns: `assign` stores, for each column it defines, an expression in terms of the
 source columns, and `_resolve_expr_dependencies` expands references to such columns.

 Expressions are trees of fields, literals and operator nodes.  The resolver walks arithmetic,
 function, comparison and AND/OR/XOR nodes and returns every other node as it is.
 */
module ComputedColumns {

  datatype Symbol =
    | Arithmetic(op: string)
    | Function(name: string)
    | Comparison(op: string)   // BinaryCondition
    | Compound(op: string)     // CompoundCondition
    | Other(kind: string)      // NOT, IN, BETWEEN, IS NULL, CASE, ...: not walked by the resolver

  datatype Expr =
    | Field(name: string)
    | Literal(text: string)
    | Node(sym: Symbol, args: seq<Expr>)

  type Columns = map<string, Expr>

  // ----- meaning -----

  /** What literals and operators mean, over any type of column values. */
  datatype Interp<!V> = Interp(literal: string -> V, apply: (Symbol, seq<V>) -> V)

  ghost function Eval<V>(I: Interp<V>, e: Expr, row: string -> V): V {
    match e
    case Field(c) => row(c)
    case Literal(t) => I.literal(t)
    case Node(sym, args) => I.apply(sym, seq(|args|, i requires 0 <= i < |args| => Eval(I, args[i], row)))
  }

  /** The columns read anywhere in `e`. */
  function Reads(e: Expr): set<string> {
    match e
    case Field(c) => {c}
    case Literal(_) => {}
    case Node(_, args) => set i, c | 0 <= i < |args| && c in Reads(args[i]) :: c
  }

  /** An expression only depends on the columns it reads. */
  lemma {:induction false} EvalAgrees<V>(I: Interp<V>, e: Expr, r: string -> V, s: string -> V)
    requires forall c :: c in Reads(e) ==> r(c) == s(c)
    ensures Eval(I, e, r) == Eval(I, e, s)
  {
    match e
    case Field(_) =>
    case Literal(_) =>
    case Node(_, args) =>
      forall i | 0 <= i < |args| ensures Eval(I, args[i], r) == Eval(I, args[i], s) {
        assert forall c :: c in Reads(args[i]) ==> c in Reads(e);
        EvalAgrees(I, args[i], r, s);
      }
      assert seq(|args|, i requires 0 <= i < |args| => Eval(I, args[i], r))
          == seq(|args|, i requires 0 <= i < |args| => Eval(I, args[i], s));
  }

  // ----- _resolve_expr_dependencies -----

  /**
   Expand computed columns in `e`.  A column that is being expanded further up is left alone.
   Terminates on every map, cyclic or not: either a new column is visited or `e` gets smaller.
   */
  function Resolve(E: Columns, e: Expr, visited: set<string>): Expr
    decreases E.Keys - visited, e
  {
    match e
    case Field(c) =>
      if c in E && c !in visited then
        assert c in E.Keys - visited && c !in E.Keys - (visited + {c});
        Resolve(E, E[c], visited + {c})
      else e
    case Literal(_) => e
    case Node(Other(_), _) => e
    case Node(sym, args) => Node(sym, seq(|args|, i requires 0 <= i < |args| => Resolve(E, args[i], visited)))
  }

  /** The mutable set of columns under expansion that all recursive calls share. */
  class VisitedSet {
    var names: set<string>

    constructor ()
      ensures names == {}
    {
      names := {};
    }
  }

  /** The recursive calls of the source, sharing one set; every call leaves it as it found it. */
  method ResolveExprDependencies(E: Columns, e: Expr, visited: VisitedSet) returns (r: Expr)
    modifies visited
    ensures r == Resolve(E, e, old(visited.names))
    ensures visited.names == old(visited.names)
    decreases E.Keys - visited.names, e
  {
    match e {
      case Field(c) =>
        if c in E {
          if c in visited.names {
            return e;
          }
          assert c in E.Keys - visited.names && c !in E.Keys - (visited.names + {c});
          visited.names := visited.names + {c};
          r := ResolveExprDependencies(E, E[c], visited);
          visited.names := visited.names - {c};
          return r;
        }
        return e;
      case Literal(_) =>
        return e;
      case Node(Other(_), _) =>
        return e;
      case Node(sym, args) =>
        var resolved: seq<Expr> := [];
        for k := 0 to |args|
          invariant visited.names == old(visited.names)
          invariant |resolved| == k
          invariant forall i :: 0 <= i < k ==> resolved[i] == Resolve(E, args[i], old(visited.names))
        {
          var next := ResolveExprDependencies(E, args[k], visited);
          resolved := resolved + [next];
        }
        assert resolved == seq(|args|, i requires 0 <= i < |args| => Resolve(E, args[i], old(visited.names)));
        r := Node(sym, resolved);
    }
  }

  // ----- substitution -----

  /** Replace every computed column by its stored expression, once and everywhere. */
  function Subst(E: Columns, e: Expr): Expr {
    match e
    case Field(c) => if c in E then E[c] else e
    case Literal(_) => e
    case Node(sym, args) => Node(sym, seq(|args|, i requires 0 <= i < |args| => Subst(E, args[i])))
  }

  /** The row in which each computed column has the value of its stored expression on `base`. */
  ghost function Current<V>(I: Interp<V>, E: Columns, base: string -> V): string -> V {
    c => if c in E then Eval(I, E[c], base) else base(c)
  }

  /** Substituting in the expression is evaluating it on the current row. */
  lemma {:induction false} SubstMeaning<V>(I: Interp<V>, E: Columns, e: Expr, base: string -> V)
    ensures Eval(I, Subst(E, e), base) == Eval(I, e, Current(I, E, base))
  {
    match e
    case Field(_) =>
    case Literal(_) =>
    case Node(_, args) =>
      var substituted := seq(|args|, i requires 0 <= i < |args| => Subst(E, args[i]));
      forall i | 0 <= i < |args|
        ensures Eval(I, substituted[i], base) == Eval(I, args[i], Current(I, E, base))
      {
        SubstMeaning(I, E, args[i], base);
      }
      assert seq(|args|, i requires 0 <= i < |args| => Eval(I, substituted[i], base))
          == seq(|args|, i requires 0 <= i < |args| => Eval(I, args[i], Current(I, E, base)));
  }

  // ----- equal meaning is equal expressions -----

  /** The interpretation in which every expression means itself. */
  ghost function Free(): Interp<Expr> {
    Interp(t => Literal(t), (sym, args) => Node(sym, args))
  }

  ghost function FreeRow(): string -> Expr {
    c => Field(c)
  }

  lemma {:induction false} FreeMeaning(e: Expr)
    ensures Eval(Free(), e, FreeRow()) == e
  {
    match e
    case Field(_) =>
    case Literal(_) =>
    case Node(_, args) =>
      forall i | 0 <= i < |args| ensures Eval(Free(), args[i], FreeRow()) == args[i] {
        FreeMeaning(args[i]);
      }
      assert seq(|args|, i requires 0 <= i < |args| => Eval(Free(), args[i], FreeRow())) == args;
  }

  // ----- when expansion is substitution -----

  /** The columns the resolver reaches in `e`. */
  function Walked(e: Expr): set<string> {
    match e
    case Field(c) => {c}
    case Literal(_) => {}
    case Node(Other(_), _) => {}
    case Node(_, args) => set i, c | 0 <= i < |args| && c in Walked(args[i]) :: c
  }

  /** The columns read below nodes the resolver does not walk. */
  function Hidden(e: Expr): set<string> {
    match e
    case Field(_) => {}
    case Literal(_) => {}
    case Node(Other(_), args) => Reads(e)
    case Node(_, args) => set i, c | 0 <= i < |args| && c in Hidden(args[i]) :: c
  }

  /** Following plain column copies from `t` ends at the column `d`. */
  predicate CopyOf(E: Columns, d: string, t: Expr, visited: set<string>)
    decreases E.Keys - visited
  {
    && t.Field?
    && if t.name in E && t.name !in visited then
         assert t.name in E.Keys - visited && t.name !in E.Keys - (visited + {t.name});
         CopyOf(E, d, E[t.name], visited + {t.name})
       else t.name == d
  }

  lemma {:induction false} ResolvesToField(E: Columns, d: string, t: Expr, visited: set<string>)
    ensures Resolve(E, t, visited) == Field(d) <==> CopyOf(E, d, t, visited)
    decreases E.Keys - visited, t
  {
    match t
    case Field(c) =>
      if c in E && c !in visited {
        assert c in E.Keys - visited && c !in E.Keys - (visited + {c});
        ResolvesToField(E, d, E[c], visited + {c});
      }
    case Literal(_) =>
    case Node(_, _) =>
  }

  /** Every computed column reached in `t` that may be expanded is a copy of itself. */
  predicate Unmoved(E: Columns, t: Expr, visited: set<string>) {
    forall d :: d in Walked(t) && d in E && d !in visited ==> CopyOf(E, d, E[d], visited + {d})
  }

  lemma {:induction false} StaysPut(E: Columns, t: Expr, visited: set<string>)
    ensures Resolve(E, t, visited) == t <==> Unmoved(E, t, visited)
  {
    match t
    case Field(c) =>
      ResolvesToField(E, c, t, visited);
    case Literal(_) =>
    case Node(Other(_), _) =>
    case Node(sym, args) =>
      forall i | 0 <= i < |args| ensures Resolve(E, args[i], visited) == args[i] <==> Unmoved(E, args[i], visited) {
        StaysPut(E, args[i], visited);
      }
      var resolved := seq(|args|, i requires 0 <= i < |args| => Resolve(E, args[i], visited));
      assert resolved == args <==> forall i :: 0 <= i < |args| ==> resolved[i] == args[i];
      UnmovedNode(E, sym, args, visited);
  }

  lemma UnmovedNode(E: Columns, sym: Symbol, args: seq<Expr>, visited: set<string>)
    requires !sym.Other?
    ensures Unmoved(E, Node(sym, args), visited) <==> forall i :: 0 <= i < |args| ==> Unmoved(E, args[i], visited)
  {
    hide CopyOf;
    if Unmoved(E, Node(sym, args), visited) {
      forall i | 0 <= i < |args| ensures Unmoved(E, args[i], visited) {
        assert forall d :: d in Walked(args[i]) ==> d in Walked(Node(sym, args));
      }
    }
  }

  lemma {:induction false} SubstFixed(E: Columns, t: Expr)
    ensures Subst(E, t) == t <==> forall d :: d in Reads(t) && d in E ==> E[d] == Field(d)
  {
    match t
    case Field(_) =>
    case Literal(_) =>
    case Node(sym, args) =>
      forall i | 0 <= i < |args|
        ensures Subst(E, args[i]) == args[i] <==> forall d :: d in Reads(args[i]) && d in E ==> E[d] == Field(d)
      {
        SubstFixed(E, args[i]);
      }
      var substituted := seq(|args|, i requires 0 <= i < |args| => Subst(E, args[i]));
      assert substituted == args <==> forall i :: 0 <= i < |args| ==> substituted[i] == args[i];
      assert forall i, d :: 0 <= i < |args| && d in Reads(args[i]) ==> d in Reads(t);
  }

  /**
   What a caller can check before `assign`: computed columns below unwalked nodes are plain
   copies of themselves, and the stored expression of each computed column read by `e` reaches
   no other computed column that would be expanded a second time.
   */
  predicate Settled(E: Columns, e: Expr) {
    && (forall c :: c in Hidden(e) && c in E ==> E[c] == Field(c))
    && (forall c :: c in Walked(e) && c in E ==> Unmoved(E, E[c], {c}))
  }

  /** Expansion is substitution exactly on settled expressions. */
  lemma {:induction false} ExpandsExactlyWhen(E: Columns, e: Expr)
    ensures Resolve(E, e, {}) == Subst(E, e) <==> Settled(E, e)
  {
    match e
    case Field(c) =>
      if c in E {
        assert {} + {c} == {c};
        StaysPut(E, E[c], {c});
      }
    case Literal(_) =>
    case Node(Other(_), args) =>
      SubstFixed(E, e);
      assert Hidden(e) == Reads(e) && Walked(e) == {};
    case Node(sym, args) =>
      forall i | 0 <= i < |args|
        ensures Resolve(E, args[i], {}) == Subst(E, args[i]) <==> Settled(E, args[i])
      {
        ExpandsExactlyWhen(E, args[i]);
      }
      var resolved := seq(|args|, i requires 0 <= i < |args| => Resolve(E, args[i], {}));
      var substituted := seq(|args|, i requires 0 <= i < |args| => Subst(E, args[i]));
      assert Resolve(E, e, {}) == Node(sym, resolved) && Subst(E, e) == Node(sym, substituted);
      assert resolved == substituted <==> forall i :: 0 <= i < |args| ==> resolved[i] == substituted[i];
      assert forall i :: 0 <= i < |args| ==> (resolved[i] == substituted[i] <==> Settled(E, args[i]));
      SettledNode(E, sym, args);
  }

  lemma SettledNode(E: Columns, sym: Symbol, args: seq<Expr>)
    requires !sym.Other?
    ensures Settled(E, Node(sym, args)) <==> forall i :: 0 <= i < |args| ==> Settled(E, args[i])
  {
    hide Unmoved;
    if Settled(E, Node(sym, args)) {
      forall i | 0 <= i < |args| ensures Settled(E, args[i]) {
        assert forall d :: d in Walked(args[i]) ==> d in Walked(Node(sym, args));
        assert forall d :: d in Hidden(args[i]) ==> d in Hidden(Node(sym, args));
      }
    }
  }

  // ----- runs of assign -----

  datatype Assignment = Assign(name: string, expr: Expr)

  /** `_computed_columns` after a run of `assign`: each expression is stored resolved. */
  function Stored(run: seq<Assignment>): Columns {
    if run == [] then map[]
    else
      var E, last := Stored(run[..|run| - 1]), run[|run| - 1];
      E[last.name := Resolve(E, last.expr, {})]
  }

  /** The row after the same assignments, made one after the other as pandas makes them. */
  ghost function After<V>(I: Interp<V>, run: seq<Assignment>, base: string -> V): string -> V {
    if run == [] then base
    else
      var row, last := After(I, run[..|run| - 1], base), run[|run| - 1];
      c => if c == last.name then Eval(I, last.expr, row) else row(c)
  }

  lemma StoredSnoc(run: seq<Assignment>, next: Assignment)
    ensures Stored(run + [next]) == Stored(run)[next.name := Resolve(Stored(run), next.expr, {})]
  {
    assert (run + [next])[..|run|] == run;
  }

  /** Each assignment of the run was settled when it was made. */
  predicate SettledRun(run: seq<Assignment>) {
    run == [] || (SettledRun(run[..|run| - 1]) && Settled(Stored(run[..|run| - 1]), run[|run| - 1].expr))
  }

  /** After a settled run every stored expression denotes the column's current value. */
  lemma {:induction false} RunMeaning<V>(I: Interp<V>, run: seq<Assignment>, base: string -> V)
    requires SettledRun(run)
    ensures forall c :: Current(I, Stored(run), base)(c) == After(I, run, base)(c)
    decreases |run|
  {
    if run != [] {
      var init, last := run[..|run| - 1], run[|run| - 1];
      var E := Stored(init);
      RunMeaning(I, init, base);
      ExpandsExactlyWhen(E, last.expr);
      SubstMeaning(I, E, last.expr, base);
      EvalAgrees(I, last.expr, Current(I, E, base), After(I, init, base));
    }
  }

  /** On a settled expression the next `assign` stores the right value, whatever the operators mean. */
  lemma AssignIsRight<V>(I: Interp<V>, run: seq<Assignment>, e: Expr, base: string -> V)
    requires SettledRun(run) && Settled(Stored(run), e)
    ensures Eval(I, Resolve(Stored(run), e, {}), base) == Eval(I, e, After(I, run, base))
  {
    RunMeaning(I, run, base);
    ExpandsExactlyWhen(Stored(run), e);
    SubstMeaning(I, Stored(run), e, base);
    EvalAgrees(I, e, Current(I, Stored(run), base), After(I, run, base));
  }

  /** And only then: with operators that keep their arguments apart, any other expression goes wrong. */
  lemma AssignRightExactlyWhen(run: seq<Assignment>, e: Expr)
    requires SettledRun(run)
    ensures Settled(Stored(run), e) <==>
            Eval(Free(), Resolve(Stored(run), e, {}), FreeRow()) == Eval(Free(), e, After(Free(), run, FreeRow()))
  {
    var E := Stored(run);
    RunMeaning(Free(), run, FreeRow());
    SubstMeaning(Free(), E, e, FreeRow());
    EvalAgrees(Free(), e, Current(Free(), E, FreeRow()), After(Free(), run, FreeRow()));
    FreeMeaning(Subst(E, e));
    FreeMeaning(Resolve(E, e, {}));
    ExpandsExactlyWhen(E, e);
  }

  // ----- kinds of runs that are always settled -----

  /** No stored expression reads a computed column other than its own. */
  predicate SelfOnly(E: Columns) {
    forall c, d :: c in E && d in Reads(E[c]) && d in E ==> d == c
  }

  /**
   Column `c` may be assigned `e`: `e` hides no computed column below an unwalked node, nothing
   stored reads `c`, and the other computed columns that `e` reads do not read themselves.
   */
  predicate Safe(E: Columns, c: string, e: Expr) {
    && (forall d :: d in Hidden(e) ==> d !in E)
    && (forall d :: d in E && d != c ==> c !in Reads(E[d]))
    && (forall d :: d in Reads(e) && d in E && d != c ==> d !in Reads(E[d]))
  }

  lemma {:induction false} WalkedIsRead(e: Expr)
    ensures Walked(e) <= Reads(e)
  {
    match e
    case Field(_) =>
    case Literal(_) =>
    case Node(sym, args) =>
      if !sym.Other? {
        forall c | c in Walked(e) ensures c in Reads(e) {
          var i :| 0 <= i < |args| && c in Walked(args[i]);
          WalkedIsRead(args[i]);
          assert c in Reads(args[i]);
        }
      }
  }

  lemma SelfOnlySettled(E: Columns, e: Expr)
    requires SelfOnly(E) && forall d :: d in Hidden(e) ==> d !in E
    ensures Settled(E, e)
  {
    forall c | c in Walked(e) && c in E ensures Unmoved(E, E[c], {c}) {
      WalkedIsRead(E[c]);
    }
  }

  /** What a substituted expression reads. */
  lemma {:induction false} SubstReads(E: Columns, e: Expr, d: string)
    requires d in Reads(Subst(E, e))
    ensures (d in Reads(e) && d !in E) || exists c :: c in Reads(e) && c in E && d in Reads(E[c])
  {
    match e
    case Field(_) =>
    case Literal(_) =>
    case Node(sym, args) =>
      var substituted := seq(|args|, i requires 0 <= i < |args| => Subst(E, args[i]));
      var i :| 0 <= i < |args| && d in Reads(substituted[i]);
      SubstReads(E, args[i], d);
      assert forall c :: c in Reads(args[i]) ==> c in Reads(e);
  }

  lemma SafeKeepsSelfOnly(E: Columns, c: string, e: Expr)
    requires SelfOnly(E) && Safe(E, c, e)
    ensures Settled(E, e) && SelfOnly(E[c := Resolve(E, e, {})])
  {
    SelfOnlySettled(E, e);
    ExpandsExactlyWhen(E, e);
    var stored := Subst(E, e);
    forall d | d in Reads(stored) && (d in E || d == c) ensures d == c {
      SubstReads(E, e, d);
    }
  }

  /** Every assignment of the run is safe when it is made. */
  predicate SafeRun(run: seq<Assignment>) {
    run == [] ||
    (var init, last := run[..|run| - 1], run[|run| - 1];
     SafeRun(init) && Safe(Stored(init), last.name, last.expr))
  }

  lemma {:induction false} SafeRunSettled(run: seq<Assignment>)
    requires SafeRun(run)
    ensures SettledRun(run) && SelfOnly(Stored(run))
  {
    if run != [] {
      var init, last := run[..|run| - 1], run[|run| - 1];
      SafeRunSettled(init);
      SafeKeepsSelfOnly(Stored(init), last.name, last.expr);
    }
  }

  function Names(run: seq<Assignment>): set<string> {
    set k | 0 <= k < |run| :: run[k].name
  }

  function AllReads(run: seq<Assignment>): set<string> {
    set k, c | 0 <= k < |run| && c in Reads(run[k].expr) :: c
  }

  /**
   A run with fresh names: no column is assigned twice or read before it exists, and none is read
   below an unwalked node.
   */
  predicate FreshRun(run: seq<Assignment>) {
    run == [] ||
    (var init, last := run[..|run| - 1], run[|run| - 1];
     && FreshRun(init)
     && last.name !in Names(init) && last.name !in AllReads(run)
     && Hidden(last.expr) !! Names(init))
  }

  lemma Snoc(init: seq<Assignment>, last: Assignment)
    ensures Names(init + [last]) == Names(init) + {last.name}
    ensures AllReads(init + [last]) == AllReads(init) + Reads(last.expr)
    ensures (init + [last])[..|init|] == init
  {
    var run := init + [last];
    assert forall k :: 0 <= k < |init| ==> run[k] == init[k];
    assert run[|init|] == last;
    forall c | c in Names(init) + {last.name} ensures c in Names(run) {
      if c in Names(init) {
        var k :| 0 <= k < |init| && init[k].name == c;
        assert run[k].name == c;
      }
    }
    forall c | c in AllReads(init) + Reads(last.expr) ensures c in AllReads(run) {
      if c in AllReads(init) {
        var k :| 0 <= k < |init| && c in Reads(init[k].expr);
        assert c in Reads(run[k].expr);
      } else {
        assert c in Reads(run[|init|].expr);
      }
    }
  }

  /** With fresh names the stored expressions read source columns only. */
  lemma {:induction false} FreshRunSafe(run: seq<Assignment>)
    requires FreshRun(run)
    ensures SafeRun(run) && Stored(run).Keys == Names(run)
    ensures forall c :: c in Stored(run) ==> Reads(Stored(run)[c]) <= AllReads(run) - Names(run)
    decreases |run|
  {
    if run != [] {
      var init, last := run[..|run| - 1], run[|run| - 1];
      assert run == init + [last];
      Snoc(init, last);
      FreshRunSafe(init);
      FreshStep(Stored(init), last, AllReads(init));
    }
  }

  lemma FreshStep(E: Columns, last: Assignment, known: set<string>)
    requires forall c :: c in E ==> Reads(E[c]) <= known - E.Keys
    requires last.name !in E && last.name !in known && last.name !in Reads(last.expr)
    requires Hidden(last.expr) !! E.Keys
    ensures Safe(E, last.name, last.expr)
    ensures Reads(Resolve(E, last.expr, {})) <= (known + Reads(last.expr)) - E.Keys - {last.name}
  {
    SelfOnlySettled(E, last.expr);
    ExpandsExactlyWhen(E, last.expr);
    forall d | d in Reads(Subst(E, last.expr)) ensures d in (known + Reads(last.expr)) - E.Keys - {last.name} {
      SubstReads(E, last.expr, d);
    }
  }

  /** Any run of `assign` with fresh names is sequential assignment. */
  lemma FreshRunMeaning<V>(I: Interp<V>, run: seq<Assignment>, base: string -> V)
    requires FreshRun(run)
    ensures forall c :: c in Stored(run) ==> Eval(I, Stored(run)[c], base) == After(I, run, base)(c)
  {
    FreshRunSafe(run);
    SafeRunSettled(run);
    RunMeaning(I, run, base);
  }

  // ----- overwriting one column again and again -----

  /** The assignments `a := fs[0]`, `a := fs[1]`, ... */
  function Chain(a: string, fs: seq<Expr>): seq<Assignment> {
    seq(|fs|, i requires 0 <= i < |fs| => Assign(a, fs[i]))
  }

  /** The row with the value of column `a` replaced. */
  ghost function With<V>(row: string -> V, a: string, v: V): string -> V {
    c => if c == a then v else row(c)
  }

  /** The value of `a` after applying each expression to the value left by the one before. */
  ghost function Iterate<V>(I: Interp<V>, a: string, fs: seq<Expr>, base: string -> V): V {
    if fs == [] then base(a)
    else
      var v := Iterate(I, a, fs[..|fs| - 1], base);
      Eval(I, fs[|fs| - 1], With(base, a, v))
  }

  /**
   Column `a` may be overwritten by `f` in a store of other computed columns: none of those reads
   `a`, `f` hides no computed column, and the others that `f` reads do not read themselves.
   */
  predicate Overwrites(E: Columns, a: string, f: Expr) {
    && Hidden(f) !! E.Keys + {a}
    && (forall d :: d in E && d != a ==> a !in Reads(E[d]))
    && (forall d :: d in Reads(f) && d in E && d != a ==> d !in Reads(E[d]))
  }

  lemma ChainSplit(prior: seq<Assignment>, a: string, fs: seq<Expr>)
    requires fs != []
    ensures prior + Chain(a, fs) == prior + Chain(a, fs[..|fs| - 1]) + [Assign(a, fs[|fs| - 1])]
  {
  }

  lemma SafeRunSnoc(run: seq<Assignment>, next: Assignment)
    requires SafeRun(run) && Safe(Stored(run), next.name, next.expr)
    ensures SafeRun(run + [next])
  {
    hide Safe, Stored;
    assert (run + [next])[..|run|] == run;
  }

  lemma {:induction false} ChainSafe(prior: seq<Assignment>, a: string, fs: seq<Expr>)
    requires SafeRun(prior) && forall i :: 0 <= i < |fs| ==> Overwrites(Stored(prior), a, fs[i])
    ensures SafeRun(prior + Chain(a, fs))
    ensures Stored(prior + Chain(a, fs)).Keys == Stored(prior).Keys + if fs == [] then {} else {a}
    ensures forall d :: d in Stored(prior) && d != a ==> Stored(prior + Chain(a, fs))[d] == Stored(prior)[d]
  {
    hide Hidden, Reads, Stored, SafeRun, Resolve;
    if fs == [] {
      assert prior + Chain(a, fs) == prior;
    } else {
      var init, last := fs[..|fs| - 1], fs[|fs| - 1];
      ChainSafe(prior, a, init);
      ChainSplit(prior, a, fs);
      hide Chain;
      var run := prior + Chain(a, init);
      assert Overwrites(Stored(prior), a, last);
      assert Safe(Stored(run), a, last);
      StoredSnoc(run, Assign(a, last));
      SafeRunSnoc(run, Assign(a, last));
    }
  }

  lemma {:induction false} ChainRow<V>(I: Interp<V>, prior: seq<Assignment>, a: string, fs: seq<Expr>, base: string -> V)
    ensures forall c :: After(I, prior + Chain(a, fs), base)(c) ==
                        if c == a then Iterate(I, a, fs, After(I, prior, base)) else After(I, prior, base)(c)
  {
    if fs == [] {
      assert prior + Chain(a, fs) == prior;
    } else {
      var init, last := fs[..|fs| - 1], fs[|fs| - 1];
      var run, row := prior + Chain(a, init), After(I, prior, base);
      ChainRow(I, prior, a, init, base);
      ChainSplit(prior, a, fs);
      assert (run + [Assign(a, last)])[..|run|] == run;
      var v := Iterate(I, a, init, row);
      EvalAgrees(I, last, After(I, run, base), With(row, a, v));
    }
  }

  /**
   Overwriting a column that no other computed column reads composes, any number of times and
   beside any other computed columns: the stored expression denotes the last expression applied to
   the one before, down to the row before the first, however often each reads `a`.
   */
  lemma ChainComposes<V>(I: Interp<V>, prior: seq<Assignment>, a: string, fs: seq<Expr>, base: string -> V)
    requires SafeRun(prior) && fs != [] && forall i :: 0 <= i < |fs| ==> Overwrites(Stored(prior), a, fs[i])
    ensures a in Stored(prior + Chain(a, fs))
    ensures Eval(I, Stored(prior + Chain(a, fs))[a], base) == Iterate(I, a, fs, After(I, prior, base))
  {
    hide Eval, Iterate, Chain, After, Stored, SafeRun, SettledRun, SelfOnly, Overwrites;
    var run := prior + Chain(a, fs);
    ChainSafe(prior, a, fs);
    SafeRunSettled(run);
    RunMeaning(I, run, base);
    ChainRow(I, prior, a, fs, base);
    assert Current(I, Stored(run), base)(a) == After(I, run, base)(a);
  }

  // ----- where it goes wrong -----

  lemma Pair(E: Columns, sym: Symbol, l: Expr, r: Expr, visited: set<string>)
    requires !sym.Other?
    ensures Resolve(E, Node(sym, [l, r]), visited) == Node(sym, [Resolve(E, l, visited), Resolve(E, r, visited)])
    ensures Subst(E, Node(sym, [l, r])) == Node(sym, [Subst(E, l), Subst(E, r)])
  {
    var args := [l, r];
    assert args[0] == l && args[1] == r;
  }

  /** After `b := a + 1` and `a := a * 2`, `c := b` gets `a * 2 + 1` where pandas gives the old `a + 1`. */
  lemma ReexpansionGoesWrong()
    ensures var one, two := Literal("1"), Literal("2");
            var run := [Assign("b", Node(Arithmetic("+"), [Field("a"), one])),
                        Assign("a", Node(Arithmetic("*"), [Field("a"), two]))];
            && SettledRun(run) && !Settled(Stored(run), Field("b"))
            && Resolve(Stored(run), Field("b"), {}) ==
               Node(Arithmetic("+"), [Node(Arithmetic("*"), [Field("a"), two]), one])
            && Subst(Stored(run), Field("b")) == Node(Arithmetic("+"), [Field("a"), one])
  {
    hide Settled;
    var plus, times, one, two := Arithmetic("+"), Arithmetic("*"), Literal("1"), Literal("2");
    var eb, ea := Node(plus, [Field("a"), one]), Node(times, [Field("a"), two]);
    var run := [Assign("b", eb), Assign("a", ea)];
    assert run[..1] == [Assign("b", eb)] && run[..1][..0] == [];
    var E0: Columns, E1: Columns := map[], map["b" := eb];
    Pair(E0, plus, Field("a"), one, {});
    assert Stored(run[..1]) == E1;
    Pair(E1, times, Field("a"), two, {});
    var E := E1["a" := ea];
    assert Stored(run) == E;
    Pair(E, plus, Field("a"), one, {"b"});
    Pair(E, times, Field("a"), two, {"b", "a"});
    assert {} + {"b"} == {"b"} && {"b"} + {"a"} == {"b", "a"};
    ExpandsExactlyWhen(E, Field("b"));
    ExpandsExactlyWhen(E1, ea);
    ExpandsExactlyWhen(E0, eb);
    assert Stored([]) == E0 && Settled(E0, eb) && SettledRun(run[..1]);
    assert Resolve(E, Field("b"), {}) == Node(plus, [ea, one]);
    assert Node(plus, [ea, one]).args[0] != eb.args[0];
  }

  /** A computed column below NOT is not expanded, so the query reads a column the source lacks. */
  lemma HiddenColumnGoesWrong()
    ensures var E: Columns := map["b" := Field("a")];
            var e := Node(Other("NOT"), [Field("b")]);
            !Settled(E, e) && "b" in Reads(Resolve(E, e, {})) && "b" !in Reads(Subst(E, e))
  {
    var E: Columns := map["b" := Field("a")];
    var e := Node(Other("NOT"), [Field("b")]);
    assert "b" in Reads(e.args[0]);
    assert "b" in Hidden(e);
    var args := [Field("a")];
    assert Subst(E, e) == Node(Other("NOT"), args);
    assert forall i :: 0 <= i < |args| ==> Reads(args[i]) == {"a"};
  }

  /** The operators below which a computed column is expanded: these four kinds and no other. */
  lemma ExpandedBelow(sym: Symbol, c: string, stored: Expr)
    ensures var E: Columns := map[c := stored];
            Resolve(E, Node(sym, [Field(c)]), {}) ==
            if sym.Arithmetic? || sym.Function? || sym.Comparison? || sym.Compound? then Node(sym, [stored])
            else Node(sym, [Field(c)])
  {
    var E: Columns := map[c := stored];
    var args := [Field(c)];
    StaysPut(E, stored, {c});
    assert {} + {c} == {c};
    assert Resolve(E, args[0], {}) == stored;
    if !sym.Other? {
      var resolved := seq(|args|, i requires 0 <= i < |args| => Resolve(E, args[i], {}));
      assert resolved == [stored];
    }
  }

  // ----- acyclic maps of unresolved expressions -----

  /** Every computed column only reads computed columns of lower rank. */
  ghost predicate Acyclic(E: Columns, rank: map<string, nat>) {
    E.Keys <= rank.Keys &&
    forall c, d :: c in E && d in Reads(E[c]) && d in E ==> rank[d] < rank[c]
  }

  /** `ext` is `base` extended with every computed column, each computed from the columns it reads. */
  ghost predicate IsExtension<V>(I: Interp<V>, E: Columns, base: string -> V, ext: string -> V) {
    forall c :: ext(c) == if c in E then Eval(I, E[c], ext) else base(c)
  }

  /** No expression of the map, and not `e`, reads a computed column below an unwalked node. */
  predicate AllWalked(E: Columns, e: Expr) {
    Hidden(e) !! E.Keys && forall c :: c in E ==> Hidden(E[c]) !! E.Keys
  }

  lemma {:induction false} AcyclicExpansion<V>(I: Interp<V>, E: Columns, rank: map<string, nat>,
                                               base: string -> V, ext: string -> V, e: Expr, visited: set<string>)
    requires Acyclic(E, rank) && IsExtension(I, E, base, ext) && AllWalked(E, e)
    requires visited <= E.Keys
    requires forall v, d :: v in visited && d in Reads(e) && d in E ==> rank[d] < rank[v]
    ensures Eval(I, Resolve(E, e, visited), base) == Eval(I, e, ext)
    decreases E.Keys - visited, e
  {
    match e
    case Field(c) =>
      if c in E {
        assert c in E.Keys - visited && c !in E.Keys - (visited + {c});
        AcyclicExpansion(I, E, rank, base, ext, E[c], visited + {c});
      }
    case Literal(_) =>
    case Node(Other(_), args) =>
      EvalAgrees(I, e, base, ext);
    case Node(sym, args) =>
      var resolved := seq(|args|, i requires 0 <= i < |args| => Resolve(E, args[i], visited));
      forall i | 0 <= i < |args| ensures Eval(I, resolved[i], base) == Eval(I, args[i], ext) {
        assert forall d :: d in Reads(args[i]) ==> d in Reads(e);
        assert forall d :: d in Hidden(args[i]) ==> d in Hidden(e);
        AcyclicExpansion(I, E, rank, base, ext, args[i], visited);
      }
      assert seq(|args|, i requires 0 <= i < |args| => Eval(I, resolved[i], base))
          == seq(|args|, i requires 0 <= i < |args| => Eval(I, args[i], ext));
  }

  /**
   For every acyclic map, expanding an expression and evaluating it on the source row is
   evaluating it on the row extended with all computed columns.
   */
  lemma ExpansionPreservesMeaning<V>(I: Interp<V>, E: Columns, rank: map<string, nat>,
                                     base: string -> V, ext: string -> V, e: Expr)
    requires Acyclic(E, rank) && IsExtension(I, E, base, ext) && AllWalked(E, e)
    ensures Eval(I, Resolve(E, e, {}), base) == Eval(I, e, ext)
  {
    AcyclicExpansion(I, E, rank, base, ext, e, {});
  }

  /** The value of column `c` in the extended row, by recursion on the rank. */
  ghost function Extended<V>(I: Interp<V>, E: Columns, rank: map<string, nat>, base: string -> V, c: string): V
    requires Acyclic(E, rank)
    decreases if c in E then rank[c] + 1 else 0, 1
  {
    if c in E then EvalBelow(I, E, rank, base, E[c], rank[c]) else base(c)
  }

  ghost function EvalBelow<V>(I: Interp<V>, E: Columns, rank: map<string, nat>, base: string -> V, e: Expr, bound: nat): V
    requires Acyclic(E, rank) && forall d :: d in Reads(e) && d in E ==> rank[d] < bound
    decreases bound, 2, e
  {
    match e
    case Field(c) => Extended(I, E, rank, base, c)
    case Literal(t) => I.literal(t)
    case Node(sym, args) =>
      assert forall i, d :: 0 <= i < |args| && d in Reads(args[i]) ==> d in Reads(e);
      I.apply(sym, seq(|args|, i requires 0 <= i < |args| => EvalBelow(I, E, rank, base, args[i], bound)))
  }

  ghost function ExtendedRow<V>(I: Interp<V>, E: Columns, rank: map<string, nat>, base: string -> V): string -> V
    requires Acyclic(E, rank)
  {
    c => Extended(I, E, rank, base, c)
  }

  lemma {:induction false} EvalBelowIsEval<V>(I: Interp<V>, E: Columns, rank: map<string, nat>, base: string -> V, e: Expr, bound: nat)
    requires Acyclic(E, rank) && forall d :: d in Reads(e) && d in E ==> rank[d] < bound
    ensures EvalBelow(I, E, rank, base, e, bound) == Eval(I, e, ExtendedRow(I, E, rank, base))
  {
    match e
    case Field(_) =>
    case Literal(_) =>
    case Node(sym, args) =>
      assert forall i, d :: 0 <= i < |args| && d in Reads(args[i]) ==> d in Reads(e);
      var ext := ExtendedRow(I, E, rank, base);
      forall i | 0 <= i < |args|
        ensures EvalBelow(I, E, rank, base, args[i], bound) == Eval(I, args[i], ext)
      {
        EvalBelowIsEval(I, E, rank, base, args[i], bound);
      }
      assert seq(|args|, i requires 0 <= i < |args| => EvalBelow(I, E, rank, base, args[i], bound))
          == seq(|args|, i requires 0 <= i < |args| => Eval(I, args[i], ext));
  }

  /** Every acyclic map has an extended row. */
  lemma ExtensionExists<V>(I: Interp<V>, E: Columns, rank: map<string, nat>, base: string -> V)
    requires Acyclic(E, rank)
    ensures IsExtension(I, E, base, ExtendedRow(I, E, rank, base))
  {
    forall c | c in E
      ensures Extended(I, E, rank, base, c) == Eval(I, E[c], ExtendedRow(I, E, rank, base))
    {
      EvalBelowIsEval(I, E, rank, base, E[c], rank[c]);
    }
  }

  // ----- after a checkpoint -----

  /**
   A checkpoint materialises the computed columns in the source frame but keeps
   `_computed_columns`, so that the next `assign` expands them on top of the new source row.
   That is right, whatever the operators mean, exactly when no computed column read by `e` is
   stored in terms of a computed column that changes.
   */
  predicate SurvivesCheckpoint(E: Columns, e: Expr) {
    forall c, d :: c in Reads(e) && c in E && d in Reads(E[c]) && d in E ==> E[d] == Field(d)
  }

  lemma {:induction false} SubstTwice(E: Columns, e: Expr)
    ensures Subst(E, Subst(E, e)) == Subst(E, e) <==> SurvivesCheckpoint(E, e)
  {
    match e
    case Field(c) =>
      if c in E {
        SubstFixed(E, E[c]);
      }
    case Literal(_) =>
    case Node(sym, args) =>
      var once := seq(|args|, i requires 0 <= i < |args| => Subst(E, args[i]));
      var twice := seq(|args|, i requires 0 <= i < |args| => Subst(E, once[i]));
      forall i | 0 <= i < |args| ensures twice[i] == once[i] <==> SurvivesCheckpoint(E, args[i]) {
        SubstTwice(E, args[i]);
      }
      assert Subst(E, e) == Node(sym, once) && Subst(E, Subst(E, e)) == Node(sym, twice);
      assert twice == once <==> forall i :: 0 <= i < |args| ==> twice[i] == once[i];
      SurvivesNode(E, sym, args);
  }

  lemma SurvivesNode(E: Columns, sym: Symbol, args: seq<Expr>)
    ensures SurvivesCheckpoint(E, Node(sym, args)) <==> forall i :: 0 <= i < |args| ==> SurvivesCheckpoint(E, args[i])
  {
    if SurvivesCheckpoint(E, Node(sym, args)) {
      forall i | 0 <= i < |args| ensures SurvivesCheckpoint(E, args[i]) {
        assert forall d :: d in Reads(args[i]) ==> d in Reads(Node(sym, args));
      }
    }
  }

  /** After a checkpoint the expansion is right if the expression survives it. */
  lemma RightAfterCheckpoint<V>(I: Interp<V>, E: Columns, e: Expr, base: string -> V)
    requires Settled(E, e) && SurvivesCheckpoint(E, e)
    ensures Eval(I, Resolve(E, e, {}), Current(I, E, base)) == Eval(I, e, Current(I, E, base))
  {
    ExpandsExactlyWhen(E, e);
    SubstTwice(E, e);
    SubstMeaning(I, E, Subst(E, e), base);
    SubstMeaning(I, E, e, base);
  }

  /** The stored expression of `f`, or `f` itself if it has none, is the column `d`. */
  predicate BackTo(E: Columns, f: string, d: string) {
    if f in E then E[f] == Field(d) else f == d
  }

  /** Expanding `d` only follows copies, and applying the map to where they end gives `d` again. */
  ghost predicate ComesBack(E: Columns, d: string, visited: set<string>) {
    exists f :: CopyOf(E, f, Field(d), visited) && BackTo(E, f, d)
  }

  ghost predicate PutBack(E: Columns, t: Expr, visited: set<string>) {
    && (forall d :: d in Hidden(t) && d in E ==> E[d] == Field(d))
    && (forall d :: d in Walked(t) ==> ComesBack(E, d, visited))
  }

  lemma PutBackNode(E: Columns, sym: Symbol, args: seq<Expr>, visited: set<string>)
    requires !sym.Other?
    ensures PutBack(E, Node(sym, args), visited) <==> forall i :: 0 <= i < |args| ==> PutBack(E, args[i], visited)
  {
    hide ComesBack;
    if PutBack(E, Node(sym, args), visited) {
      forall i | 0 <= i < |args| ensures PutBack(E, args[i], visited) {
        assert forall d :: d in Walked(args[i]) ==> d in Walked(Node(sym, args));
        assert forall d :: d in Hidden(args[i]) ==> d in Hidden(Node(sym, args));
      }
    }
  }

  lemma FieldPutBack(E: Columns, d: string, visited: set<string>)
    ensures Subst(E, Resolve(E, Field(d), visited)) == Field(d) <==> ComesBack(E, d, visited)
  {
    var r := Resolve(E, Field(d), visited);
    forall f ensures r == Field(f) <==> CopyOf(E, f, Field(d), visited) {
      ResolvesToField(E, f, Field(d), visited);
    }
    if r.Field? {
      assert Subst(E, r) == Field(d) <==> BackTo(E, r.name, d);
      assert CopyOf(E, r.name, Field(d), visited);
    }
  }

  /** Expanding and then applying the map once more gives the expression back. */
  lemma {:induction false} PutBackExactlyWhen(E: Columns, t: Expr, visited: set<string>)
    ensures Subst(E, Resolve(E, t, visited)) == t <==> PutBack(E, t, visited)
  {
    match t
    case Field(d) =>
      FieldPutBack(E, d, visited);
    case Literal(_) =>
    case Node(Other(_), args) =>
      SubstFixed(E, t);
      assert Hidden(t) == Reads(t) && Walked(t) == {};
    case Node(sym, args) =>
      var resolved := seq(|args|, i requires 0 <= i < |args| => Resolve(E, args[i], visited));
      var again := seq(|args|, i requires 0 <= i < |args| => Subst(E, resolved[i]));
      forall i | 0 <= i < |args| ensures again[i] == args[i] <==> PutBack(E, args[i], visited) {
        PutBackExactlyWhen(E, args[i], visited);
      }
      assert Subst(E, Resolve(E, t, visited)) == Node(sym, again);
      assert again == args <==> forall i :: 0 <= i < |args| ==> again[i] == args[i];
      PutBackNode(E, sym, args, visited);
  }

  /** Each computed column the resolver expands in `e` comes back to its stored expression. */
  ghost predicate RightTwice(E: Columns, e: Expr) {
    forall c :: c in Walked(e) && c in E ==> PutBack(E, E[c], {c})
  }

  lemma RightTwiceNode(E: Columns, sym: Symbol, args: seq<Expr>)
    requires !sym.Other?
    ensures RightTwice(E, Node(sym, args)) <==> forall i :: 0 <= i < |args| ==> RightTwice(E, args[i])
  {
    hide PutBack;
    if RightTwice(E, Node(sym, args)) {
      forall i | 0 <= i < |args| ensures RightTwice(E, args[i]) {
        assert forall d :: d in Walked(args[i]) ==> d in Walked(Node(sym, args));
      }
    }
  }

  lemma {:induction false} ResolvedThenApplied(E: Columns, e: Expr)
    ensures Subst(E, Resolve(E, e, {})) == Subst(E, e) <==> RightTwice(E, e)
  {
    hide PutBack;
    match e
    case Field(c) =>
      if c in E {
        assert {} + {c} == {c};
        PutBackExactlyWhen(E, E[c], {c});
      }
    case Literal(_) =>
    case Node(Other(_), args) =>
    case Node(sym, args) =>
      var resolved := seq(|args|, i requires 0 <= i < |args| => Resolve(E, args[i], {}));
      var once := seq(|args|, i requires 0 <= i < |args| => Subst(E, args[i]));
      var twice := seq(|args|, i requires 0 <= i < |args| => Subst(E, resolved[i]));
      forall i | 0 <= i < |args| ensures twice[i] == once[i] <==> RightTwice(E, args[i]) {
        ResolvedThenApplied(E, args[i]);
      }
      assert Subst(E, e) == Node(sym, once) && Subst(E, Resolve(E, e, {})) == Node(sym, twice);
      assert twice == once <==> forall i :: 0 <= i < |args| ==> twice[i] == once[i];
      RightTwiceNode(E, sym, args);
  }

  /** The exact condition, for every map and every expression, settled or not. */
  lemma RightAfterCheckpointExactlyWhen(E: Columns, e: Expr)
    ensures RightTwice(E, e) <==>
            Eval(Free(), Resolve(E, e, {}), Current(Free(), E, FreeRow())) == Eval(Free(), e, Current(Free(), E, FreeRow()))
  {
    ResolvedThenApplied(E, e);
    SubstMeaning(Free(), E, Resolve(E, e, {}), FreeRow());
    SubstMeaning(Free(), E, e, FreeRow());
    FreeMeaning(Subst(E, Resolve(E, e, {})));
    FreeMeaning(Subst(E, e));
  }

  /** With fresh names a checkpoint is harmless. */
  lemma FreshSurvives(run: seq<Assignment>, e: Expr)
    requires FreshRun(run)
    ensures SurvivesCheckpoint(Stored(run), e)
  {
    FreshRunSafe(run);
  }

  /** An overwritten column is computed again: `a := a + 1`, a checkpoint, and `a` reads as `a + 1 + 1`. */
  lemma OverwriteAppliedTwice()
    ensures var once := Node(Arithmetic("+"), [Field("a"), Literal("1")]);
            var E := Stored([Assign("a", once)]);
            && Resolve(E, Field("a"), {}) == once
            && Eval(Free(), Field("a"), Current(Free(), E, FreeRow())) == once
            && Eval(Free(), Resolve(E, Field("a"), {}), Current(Free(), E, FreeRow())) ==
               Node(Arithmetic("+"), [once, Literal("1")])
  {
    var ea := Node(Arithmetic("+"), [Field("a"), Literal("1")]);
    var run := [Assign("a", ea)];
    assert run[..0] == [];
    var E0: Columns := map[];
    Pair(E0, Arithmetic("+"), Field("a"), Literal("1"), {});
    assert Stored(run[..0]) == E0 && Resolve(E0, ea, {}) == ea;
    var E := Stored(run);
    assert E == map["a" := ea];
    assert {} + {"a"} == {"a"};
    Pair(E, Arithmetic("+"), Field("a"), Literal("1"), {"a"});
    SubstMeaning(Free(), E, ea, FreeRow());
    FreeMeaning(Subst(E, ea));
    FreeMeaning(ea);
  }
}
