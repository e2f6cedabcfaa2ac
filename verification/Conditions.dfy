/**
 Filter conditions under two engines: the SQL that `to_sql` emits, evaluated in the three-valued
 logic of SQL, and the boolean evaluation of `ExpressionEvaluator`, in which a comparison with a
 missing value is False (True for `!=`).
 */
module Conditions {
  import opened Common

  datatype Operand = Column(name: string) | Constant(v: Value)

  type Row = string -> Value

  function ValueOf(o: Operand, row: Row): Value {
    match o
    case Column(c) => row(c)
    case Constant(v) => v
  }

  datatype CompareOp = Eq | Ne | NeAlt | Lt | Le | Gt | Ge   // NeAlt is spelled <>

  /** `_NULL_TO_FALSE_OPS`; the other two are `_NULL_TO_TRUE_OPS`. */
  predicate NullToFalse(op: CompareOp) {
    !op.Ne? && !op.NeAlt?
  }

  datatype Logic = And | Or | Xor

  datatype Inclusive = Both | Neither | Left | Right

  datatype Condition =
    | Binary(op: CompareOp, l: Operand, r: Operand)
    | Compound(logic: Logic, left: Condition, right: Condition)
    | Not(inner: Condition)
    | IsNull(o: Operand)
    | IsNotNull(o: Operand)
    | Between(o: Operand, lower: Operand, upper: Operand, inclusive: Inclusive)
    | In(o: Operand, values: seq<Value>, negate: bool)
    | NullSafe(inner: Condition)

  // ----- the emitted SQL -----

  datatype Sql =
    | SqlCompare(op: CompareOp, l: Operand, r: Operand)
    | SqlLogic(logic: Logic, left: Sql, right: Sql)
    | SqlNot(inner: Sql)
    | IfNull(inner: Sql, default: bool)
    | SqlIsNull(o: Operand, negate: bool)
    | SqlBetween(o: Operand, lower: Operand, upper: Operand)
    | SqlIn(o: Operand, values: seq<Value>, negate: bool)

  datatype Default = NoWrapping | Wrap(b: bool)

  /** `_get_null_default`. */
  function NullDefault(c: Condition): Default {
    match c
    case Binary(op, _, _) => if NullToFalse(op) then Wrap(false) else Wrap(true)
    case Compound(_, _, _) => Wrap(false)
    case _ => NoWrapping
  }

  /** The `to_sql` methods of the condition classes. */
  function ToSql(c: Condition): Sql {
    match c
    case Binary(op, l, r) => SqlCompare(op, l, r)
    case Compound(logic, l, r) => SqlLogic(logic, ToSql(l), ToSql(r))
    case Not(d) => IfNull(SqlNot(ToSql(d)), true)
    case IsNull(o) => SqlIsNull(o, false)
    case IsNotNull(o) => SqlIsNull(o, true)
    case Between(o, lo, hi, Both) => SqlBetween(o, lo, hi)
    case Between(o, lo, hi, Neither) => SqlLogic(And, SqlCompare(Gt, o, lo), SqlCompare(Lt, o, hi))
    case Between(o, lo, hi, Left) => SqlLogic(And, SqlCompare(Ge, o, lo), SqlCompare(Lt, o, hi))
    case Between(o, lo, hi, Right) => SqlLogic(And, SqlCompare(Gt, o, lo), SqlCompare(Le, o, hi))
    case In(o, values, negate) => SqlIn(o, values, negate)
    case NullSafe(d) =>
      match NullDefault(d)
      case NoWrapping => ToSql(d)
      case Wrap(b) => IfNull(ToSql(d), b)
  }

  // ----- three-valued evaluation -----

  datatype Tri = False | True | Unknown

  function Known(b: bool): Tri {
    if b then True else False
  }

  predicate Holds(op: CompareOp, a: int, b: int) {
    match op
    case Eq => a == b
    case Ne => a != b
    case NeAlt => a != b
    case Lt => a < b
    case Le => a <= b
    case Gt => a > b
    case Ge => a >= b
  }

  function SqlCompareValues(op: CompareOp, a: Value, b: Value): Tri {
    if a.Num? && b.Num? then Known(Holds(op, a.n, b.n)) else Unknown
  }

  function NotTri(t: Tri): Tri {
    match t
    case False => True
    case True => False
    case Unknown => Unknown
  }

  function LogicTri(logic: Logic, a: Tri, b: Tri): Tri {
    match logic
    case And => if a == False || b == False then False else if a == True && b == True then True else Unknown
    case Or => if a == True || b == True then True else if a == False && b == False then False else Unknown
    case Xor => if a == Unknown || b == Unknown then Unknown else Known(a != b)
  }

  /** `v IN (values)`: no verdict when a NULL is involved and nothing matches. */
  function InTri(v: Value, values: seq<Value>): Tri {
    if v.Num? && v in values then True
    else if v.Null? || Null in values then Unknown
    else False
  }

  function EvalSql(s: Sql, row: Row): Tri {
    match s
    case SqlCompare(op, l, r) => SqlCompareValues(op, ValueOf(l, row), ValueOf(r, row))
    case SqlLogic(logic, l, r) => LogicTri(logic, EvalSql(l, row), EvalSql(r, row))
    case SqlNot(d) => NotTri(EvalSql(d, row))
    case IfNull(d, b) => if EvalSql(d, row) == Unknown then Known(b) else EvalSql(d, row)
    case SqlIsNull(o, negate) => Known(ValueOf(o, row).Null? != negate)
    case SqlBetween(o, lo, hi) =>
      LogicTri(And, SqlCompareValues(Ge, ValueOf(o, row), ValueOf(lo, row)),
                    SqlCompareValues(Le, ValueOf(o, row), ValueOf(hi, row)))
    case SqlIn(o, values, negate) =>
      if negate then NotTri(InTri(ValueOf(o, row), values)) else InTri(ValueOf(o, row), values)
  }

  // ----- pandas evaluation -----

  predicate PandasCompare(op: CompareOp, a: Value, b: Value) {
    if a.Num? && b.Num? then Holds(op, a.n, b.n) else !NullToFalse(op)
  }

  /** The `_evaluate_*_condition` methods; a null-safe wrapper only exists in SQL. */
  predicate EvalPandas(c: Condition, row: Row) {
    match c
    case Binary(op, l, r) => PandasCompare(op, ValueOf(l, row), ValueOf(r, row))
    case Compound(And, l, r) => EvalPandas(l, row) && EvalPandas(r, row)
    case Compound(Or, l, r) => EvalPandas(l, row) || EvalPandas(r, row)
    case Compound(Xor, l, r) => EvalPandas(l, row) != EvalPandas(r, row)
    case Not(d) => !EvalPandas(d, row)
    case IsNull(o) => ValueOf(o, row).Null?
    case IsNotNull(o) => ValueOf(o, row).Num?
    case Between(o, lo, hi, inclusive) =>
      var v, a, b := ValueOf(o, row), ValueOf(lo, row), ValueOf(hi, row);
      PandasCompare(LowerOp(inclusive), v, a) && PandasCompare(UpperOp(inclusive), v, b)
    case In(o, values, negate) => (ValueOf(o, row) in values) != negate
    case NullSafe(d) => EvalPandas(d, row)
  }

  // ----- agreement -----

  /** The row passes the SQL filter exactly when it passes the pandas filter. */
  predicate Agrees(c: Condition, row: Row) {
    (EvalSql(ToSql(c), row) == True) == EvalPandas(c, row)
  }

  /** The two engines compute the same truth value, and it is not NULL. */
  predicate SameValue(c: Condition, row: Row) {
    EvalSql(ToSql(c), row) == Known(EvalPandas(c, row))
  }

  /** Conditions on which the engines agree as filters, whatever the row. */
  predicate Filterable(c: Condition)
    decreases c, 1
  {
    Definite(c) ||
    match c
    case Binary(op, _, _) => NullToFalse(op)
    case Compound(logic, l, r) => !logic.Xor? && Filterable(l) && Filterable(r)
    case Between(_, _, _, _) => true
    case In(_, values, negate) => !negate && Null !in values
    case NullSafe(d) => Filterable(d)
    case _ => false
  }

  /** Conditions on which they agree as values: every comparison is null-safe or below a NOT or a wrapper. */
  predicate Definite(c: Condition)
    decreases c, 0
  {
    match c
    case Binary(_, _, _) => false
    case Compound(_, l, r) => Definite(l) && Definite(r)
    case Not(d) => Filterable(d)
    case IsNull(_) => true
    case IsNotNull(_) => true
    case Between(_, _, _, _) => false
    case In(_, _, _) => false
    case NullSafe(d) => d.Binary? || (d.Compound? && Filterable(d)) || Definite(d)
  }

  /** When a connective is true, and what it is on known inputs. */
  lemma LogicFacts(logic: Logic, a: Tri, b: Tri)
    ensures logic.And? ==> (LogicTri(logic, a, b) == True <==> a == True && b == True)
    ensures logic.Or? ==> (LogicTri(logic, a, b) == True <==> a == True || b == True)
    ensures logic.Xor? ==> (LogicTri(logic, a, b) == True <==>
              (a == True) != (b == True) && !(a == Unknown && b == True) && !(b == Unknown && a == True))
    ensures a != Unknown && b != Unknown ==> LogicTri(logic, a, b) != Unknown
  {
    match a {
      case False => match b { case False => case True => case Unknown => }
      case True => match b { case False => case True => case Unknown => }
      case Unknown => match b { case False => case True => case Unknown => }
    }
  }

  /** The emitted SQL of a composite node, evaluated from its parts. */
  lemma SqlOfParts(c: Condition, row: Row)
    ensures match c
      case Compound(logic, l, r) =>
        EvalSql(ToSql(c), row) == LogicTri(logic, EvalSql(ToSql(l), row), EvalSql(ToSql(r), row))
      case Not(d) =>
        EvalSql(ToSql(c), row) == Known(EvalSql(ToSql(d), row) != True)
      case NullSafe(d) =>
        EvalSql(ToSql(c), row) ==
          if EvalSql(ToSql(d), row) == Unknown && NullDefault(d).Wrap? then Known(NullDefault(d).b)
          else EvalSql(ToSql(d), row)
      case _ => true
  {
  }

  /** `ifNull` with the operator's default is the pandas comparison. */
  lemma NullSafeComparison(op: CompareOp, l: Operand, r: Operand, row: Row)
    ensures SameValue(NullSafe(Binary(op, l, r)), row)
  {
    var d := Binary(op, l, r);
    SqlOfParts(NullSafe(d), row);
    assert EvalSql(ToSql(d), row) == SqlCompareValues(op, ValueOf(l, row), ValueOf(r, row));
    assert EvalPandas(NullSafe(d), row) == EvalPandas(d, row);
  }

  function LowerOp(i: Inclusive): CompareOp {
    if i.Both? || i.Left? then Ge else Gt
  }

  function UpperOp(i: Inclusive): CompareOp {
    if i.Both? || i.Right? then Le else Lt
  }

  /** All four BETWEEN modes are a conjunction of two comparisons. */
  lemma SqlOfBetween(o: Operand, lo: Operand, hi: Operand, i: Inclusive, row: Row)
    ensures EvalSql(ToSql(Between(o, lo, hi, i)), row) ==
            LogicTri(And, SqlCompareValues(LowerOp(i), ValueOf(o, row), ValueOf(lo, row)),
                          SqlCompareValues(UpperOp(i), ValueOf(o, row), ValueOf(hi, row)))
  {
    var s := ToSql(Between(o, lo, hi, i));
    if !i.Both? {
      assert s == SqlLogic(And, SqlCompare(LowerOp(i), o, lo), SqlCompare(UpperOp(i), o, hi));
      assert EvalSql(s.left, row) == SqlCompareValues(LowerOp(i), ValueOf(o, row), ValueOf(lo, row));
      assert EvalSql(s.right, row) == SqlCompareValues(UpperOp(i), ValueOf(o, row), ValueOf(hi, row));
    }
  }

  lemma PandasOfCompound(logic: Logic, l: Condition, r: Condition, row: Row)
    ensures EvalPandas(Compound(logic, l, r), row) == match logic
      case And => EvalPandas(l, row) && EvalPandas(r, row)
      case Or => EvalPandas(l, row) || EvalPandas(r, row)
      case Xor => EvalPandas(l, row) != EvalPandas(r, row)
  {
  }

  lemma {:induction false} FragmentsAgree(c: Condition, row: Row)
    ensures Filterable(c) ==> Agrees(c, row)
    ensures Definite(c) ==> SameValue(c, row)
  {
    SqlOfParts(c, row);
    match c
    case Binary(_, _, _) =>
      assert !Definite(c);
      AgreesExactlyWhen(c, row);
    case Compound(logic, l, r) =>
      FragmentsAgree(l, row);
      FragmentsAgree(r, row);
      if Definite(c) {
        assert Definite(l) && Definite(r);
      } else if Filterable(c) {
        assert Filterable(l) && Filterable(r);
      }
      PandasOfCompound(logic, l, r, row);
      LogicFacts(logic, EvalSql(ToSql(l), row), EvalSql(ToSql(r), row));
      match logic { case And => case Or => case Xor => }
    case Not(d) =>
      FragmentsAgree(d, row);
      assert Filterable(c) == Definite(c) == Filterable(d);
    case IsNull(_) =>
    case IsNotNull(_) =>
    case Between(o, lo, hi, i) =>
      assert !Definite(c);
      SqlOfBetween(o, lo, hi, i, row);
    case In(o, values, negate) =>
      assert !Definite(c);
      AgreesExactlyWhen(c, row);
    case NullSafe(d) =>
      FragmentsAgree(d, row);
      if d.Binary? {
        NullSafeComparison(d.op, d.l, d.r, row);
      } else {
        assert Definite(d) ==> Filterable(d);
        assert Definite(c) == ((d.Compound? && Filterable(d)) || Definite(d));
        assert Filterable(c) ==> Filterable(d);
        WrappersAreTransparent(d, row);
      }
  }

  /**
   Two engines agree on filters: a row passes the emitted SQL exactly when pandas evaluates the
   condition to True, for every row with missing values.
   */
  lemma FiltersAgree(c: Condition, row: Row)
    requires Filterable(c)
    ensures EvalSql(ToSql(c), row) == True <==> EvalPandas(c, row)
  {
    FragmentsAgree(c, row);
  }

  /** Null-safe leaves give full agreement, also below XOR and `!=`, and never NULL. */
  lemma ValuesAgree(c: Condition, row: Row)
    requires Definite(c)
    ensures EvalSql(ToSql(c), row) == Known(EvalPandas(c, row))
  {
    FragmentsAgree(c, row);
  }

  /** NOT as emitted is never NULL. */
  lemma NotIsNeverNull(c: Condition, row: Row)
    ensures EvalSql(ToSql(Not(c)), row) != Unknown
  {
  }

  // ----- what the conditions mean -----

  ghost predicate IsNumber(o: Operand, row: Row, n: int) {
    o == Constant(Num(n)) || (o.Column? && row(o.name) == Num(n))
  }

  ghost predicate IsMissing(o: Operand, row: Row) {
    o == Constant(Null) || (o.Column? && row(o.name) == Null)
  }

  /** Both engines give the truth value `b`. */
  ghost predicate Decided(c: Condition, row: Row, b: bool) {
    EvalPandas(c, row) == b && EvalSql(ToSql(c), row) == if b then True else False
  }

  /** The operators, the four intervals and the lists are those of the integers, in either engine. */
  lemma ComparisonMeaning(l: Operand, r: Operand, m: int, n: int, row: Row)
    requires IsNumber(l, row, m) && IsNumber(r, row, n)
    ensures Decided(Binary(Eq, l, r), row, m == n)
    ensures Decided(Binary(Ne, l, r), row, m != n) && Decided(Binary(NeAlt, l, r), row, m != n)
    ensures Decided(Binary(Lt, l, r), row, m < n) && Decided(Binary(Le, l, r), row, m <= n)
    ensures Decided(Binary(Gt, l, r), row, m > n) && Decided(Binary(Ge, l, r), row, m >= n)
  {
    assert ValueOf(l, row) == Num(m) && ValueOf(r, row) == Num(n);
  }

  lemma IntervalMeaning(o: Operand, lo: Operand, hi: Operand, x: int, a: int, b: int, row: Row)
    requires IsNumber(o, row, x) && IsNumber(lo, row, a) && IsNumber(hi, row, b)
    ensures Decided(Between(o, lo, hi, Both), row, a <= x <= b)
    ensures Decided(Between(o, lo, hi, Neither), row, a < x < b)
    ensures Decided(Between(o, lo, hi, Left), row, a <= x < b)
    ensures Decided(Between(o, lo, hi, Right), row, a < x <= b)
  {
    SqlOfBetween(o, lo, hi, Both, row);
    SqlOfBetween(o, lo, hi, Neither, row);
    SqlOfBetween(o, lo, hi, Left, row);
    SqlOfBetween(o, lo, hi, Right, row);
  }

  lemma ListMeaning(o: Operand, values: seq<Value>, x: int, negate: bool, row: Row)
    requires IsNumber(o, row, x) && Null !in values
    ensures Decided(In(o, values, negate), row, (exists i :: 0 <= i < |values| && values[i] == Num(x)) != negate)
  {
    assert Num(x) in values <==> exists i :: 0 <= i < |values| && values[i] == Num(x);
  }

  /** IS NULL tells missing from present. */
  lemma NullTestMeaning(o: Operand, row: Row)
    ensures Decided(IsNull(o), row, IsMissing(o, row)) && Decided(IsNotNull(o), row, !IsMissing(o, row))
  {
  }

  /** Against a missing value SQL has no verdict, and pandas says that only `!=` holds. */
  lemma MissingMeaning(op: CompareOp, l: Operand, r: Operand, row: Row)
    requires IsMissing(l, row) || IsMissing(r, row)
    ensures EvalSql(ToSql(Binary(op, l, r)), row) == Unknown
    ensures EvalPandas(Binary(op, l, r), row) <==> op == Ne || op == NeAlt
  {
  }

  /** Every operand of a condition is a number in the row. */
  ghost predicate Complete(c: Condition, row: Row) {
    match c
    case Binary(_, l, r) => !IsMissing(l, row) && !IsMissing(r, row)
    case Compound(_, l, r) => Complete(l, row) && Complete(r, row)
    case Not(d) => Complete(d, row)
    case IsNull(_) => true
    case IsNotNull(_) => true
    case Between(o, lo, hi, _) => !IsMissing(o, row) && !IsMissing(lo, row) && !IsMissing(hi, row)
    case In(o, values, _) => !IsMissing(o, row) && Null !in values
    case NullSafe(d) => Complete(d, row)
  }

  predicate Combined(logic: Logic, p: bool, q: bool) {
    match logic
    case And => p && q
    case Or => p || q
    case Xor => p != q
  }

  /** Without missing values both engines give the same, known truth value, connectives included. */
  lemma {:induction false} CompleteIsDecided(c: Condition, row: Row) returns (b: bool)
    requires Complete(c, row)
    ensures Decided(c, row, b)
    ensures c.Compound? ==>
      exists p, q :: Decided(c.left, row, p) && Decided(c.right, row, q) && b == Combined(c.logic, p, q)
    ensures c.Not? ==> Decided(c.inner, row, !b)
    ensures c.NullSafe? ==> Decided(c.inner, row, b)
  {
    SqlOfParts(c, row);
    b := EvalPandas(c, row);
    match c
    case Binary(op, l, r) =>
      ComparisonMeaning(l, r, ValueOf(l, row).n, ValueOf(r, row).n, row);
    case Compound(logic, l, r) =>
      var p := CompleteIsDecided(l, row);
      var q := CompleteIsDecided(r, row);
      PandasOfCompound(logic, l, r, row);
    case Not(d) =>
      var p := CompleteIsDecided(d, row);
    case IsNull(o) =>
    case IsNotNull(o) =>
    case Between(o, lo, hi, i) =>
      SqlOfBetween(o, lo, hi, i, row);
    case In(o, values, negate) =>
    case NullSafe(d) =>
      var p := CompleteIsDecided(d, row);
  }

  // ----- exactly where the engines part -----

  /** On one row: which nodes agree, given that their parts agree. */
  ghost predicate NodeFits(c: Condition, row: Row) {
    match c
    case Binary(op, l, r) => NullToFalse(op) || (ValueOf(l, row).Num? && ValueOf(r, row).Num?)
    case Compound(Xor, l, r) =>
      && !(EvalSql(ToSql(l), row) == Unknown && EvalPandas(r, row))
      && !(EvalSql(ToSql(r), row) == Unknown && EvalPandas(l, row))
    case In(o, values, false) => !(ValueOf(o, row).Null? && Null in values)
    case In(o, values, true) =>
      if ValueOf(o, row).Null? then Null in values else Null !in values || ValueOf(o, row) in values
    case _ => true
  }

  predicate PartsAgree(c: Condition, row: Row) {
    match c
    case Compound(_, l, r) => Agrees(l, row) && Agrees(r, row)
    case Not(d) => Agrees(d, row)
    case NullSafe(d) => d.Binary? || Agrees(d, row)
    case _ => true
  }

  /** A node whose parts agree agrees exactly when it fits. */
  lemma AgreesExactlyWhen(c: Condition, row: Row)
    requires PartsAgree(c, row)
    ensures Agrees(c, row) <==> NodeFits(c, row)
  {
    SqlOfParts(c, row);
    match c
    case Compound(logic, l, r) =>
      PandasOfCompound(logic, l, r, row);
      LogicFacts(logic, EvalSql(ToSql(l), row), EvalSql(ToSql(r), row));
      match logic { case And => case Or => case Xor => }
    case In(o, _, _) =>
      assert ValueOf(o, row).Null? ==> ValueOf(o, row) == Null;
    case Between(o, lo, hi, i) =>
      SqlOfBetween(o, lo, hi, i, row);
    case NullSafe(d) =>
      if d.Binary? {
        NullSafeComparison(d.op, d.l, d.r, row);
      }
    case _ =>
  }

  /** NOT and the null-safe wrapper of anything but a comparison neither hide nor cause a disagreement. */
  lemma WrappersAreTransparent(c: Condition, row: Row)
    ensures Agrees(Not(c), row) <==> Agrees(c, row)
    ensures !c.Binary? ==> (Agrees(NullSafe(c), row) <==> Agrees(c, row))
  {
    SqlOfParts(Not(c), row);
    SqlOfParts(NullSafe(c), row);
  }

  /** Wrapping a compound gives the pandas value exactly where the compound agrees as a filter. */
  lemma NullSafeCompoundExactlyWhen(logic: Logic, l: Condition, r: Condition, row: Row)
    ensures SameValue(NullSafe(Compound(logic, l, r)), row) <==> Agrees(Compound(logic, l, r), row)
  {
    SqlOfParts(NullSafe(Compound(logic, l, r)), row);
  }

  /** A bare `!=` agrees on every row exactly when it compares two known constants. */
  lemma BareInequality(op: CompareOp, l: Operand, r: Operand)
    requires !NullToFalse(op)
    ensures (forall row: Row :: Agrees(Binary(op, l, r), row)) <==>
            l.Constant? && l.v.Num? && r.Constant? && r.v.Num?
  {
    var missing: Row := c => Null;
    assert ValueOf(l, missing).Num? <==> l.Constant? && l.v.Num?;
    assert ValueOf(r, missing).Num? <==> r.Constant? && r.v.Num?;
    AgreesExactlyWhen(Binary(op, l, r), missing);
  }

  /** A number no list of values holds. */
  function Beyond(values: seq<Value>): (n: int)
    ensures Num(n) !in values && forall v :: v in values && v.Num? ==> v.n < n
  {
    if values == [] then 0
    else
      var n := Beyond(values[1..]);
      if values[0].Num? && values[0].n >= n then values[0].n + 1 else n
  }

  /**
   NOT IN agrees on every row exactly when it tests a constant, and that constant is NULL and
   listed, or not NULL and either listed or up against no NULL.
   */
  lemma NotInExactlyWhen(o: Operand, values: seq<Value>)
    ensures (forall row: Row :: Agrees(In(o, values, true), row)) <==>
            o.Constant? && if o.v.Null? then Null in values else Null !in values || o.v in values
  {
    var missing: Row := c => Null;
    var n := Beyond(values);
    var large: Row := c => Num(n);
    AgreesExactlyWhen(In(o, values, true), missing);
    AgreesExactlyWhen(In(o, values, true), large);
    assert o.Column? ==> ValueOf(o, missing) == Null && ValueOf(o, large) == Num(n);
    forall row: Row ensures o.Constant? ==> (Agrees(In(o, values, true), row) <==> Agrees(In(o, values, true), missing)) {
      assert o.Constant? ==> ValueOf(o, row) == ValueOf(o, missing);
    }
  }

  /** IN agrees on every row exactly when no NULL is listed, or a constant that is not NULL is tested. */
  lemma InExactlyWhen(o: Operand, values: seq<Value>)
    ensures (forall row: Row :: Agrees(In(o, values, false), row)) <==>
            Null !in values || (o.Constant? && o.v.Num?)
  {
    var missing: Row := c => Null;
    AgreesExactlyWhen(In(o, values, false), missing);
    assert o.Column? ==> ValueOf(o, missing) == Null;
    forall row: Row ensures Agrees(In(o, values, false), row) <==> !(ValueOf(o, row).Null? && Null in values) {
      AgreesExactlyWhen(In(o, values, false), row);
    }
  }

  /** A comparison, NULL test, interval or list over a column. */
  predicate TestsColumn(c: Condition) {
    match c
    case Binary(_, l, _) => l.Column?
    case IsNull(o) => o.Column?
    case IsNotNull(o) => o.Column?
    case Between(o, _, _, _) => o.Column?
    case In(o, _, _) => o.Column?
    case _ => false
  }

  /** Over a column that is missing, all but the NULL tests are NULL in SQL. */
  lemma MissingIsUnknown(c: Condition, row: Row)
    requires TestsColumn(c) && forall x :: row(x) == Null
    ensures EvalSql(ToSql(c), row) == Unknown <==> !c.IsNull? && !c.IsNotNull?
    ensures Definite(c) <==> c.IsNull? || c.IsNotNull?
  {
    if c.Between? {
      SqlOfBetween(c.o, c.lower, c.upper, c.inclusive, row);
    }
  }

  /** On these the two fragments are exact: no condition on which the engines always agree is left out. */
  lemma FragmentsExactOnColumns(c: Condition)
    requires TestsColumn(c)
    ensures Filterable(c) <==> forall row: Row :: Agrees(c, row)
    ensures Definite(c) <==> forall row: Row :: SameValue(c, row)
  {
    hide EvalSql, EvalPandas, ToSql, Definite;
    forall row: Row ensures (Filterable(c) ==> Agrees(c, row)) && (Definite(c) ==> SameValue(c, row)) {
      FragmentsAgree(c, row);
    }
    var missing: Row := x => Null;
    MissingIsUnknown(c, missing);
    assert !Definite(c) ==> !SameValue(c, missing);
    match c
    case Binary(op, l, r) =>
      if !NullToFalse(op) {
        BareInequality(op, l, r);
      }
    case In(o, values, negate) =>
      if negate {
        NotInExactlyWhen(o, values);
      } else {
        InExactlyWhen(o, values);
      }
    case _ =>
  }

  predicate Lacks(l: Operand, r: Operand, row: Row) {
    ValueOf(l, row).Null? || ValueOf(r, row).Null?
  }

  predicate Satisfied(op: CompareOp, l: Operand, r: Operand, row: Row) {
    !Lacks(l, r, row) && Holds(op, ValueOf(l, row).n, ValueOf(r, row).n)
  }

  /**
   XOR of two comparisons agrees on a row exactly when neither lacks an operand while the other is
   satisfied.
   */
  lemma XorExactlyWhen(op: CompareOp, l: Operand, r: Operand, op': CompareOp, l': Operand, r': Operand, row: Row)
    requires NullToFalse(op) && NullToFalse(op')
    ensures Agrees(Compound(Xor, Binary(op, l, r), Binary(op', l', r')), row) <==>
            && !(Lacks(l, r, row) && Satisfied(op', l', r', row))
            && !(Lacks(l', r', row) && Satisfied(op, l, r, row))
  {
    var x, y := Binary(op, l, r), Binary(op', l', r');
    SqlOfParts(Compound(Xor, x, y), row);
    PandasOfCompound(Xor, x, y, row);
    LogicFacts(Xor, EvalSql(ToSql(x), row), EvalSql(ToSql(y), row));
    assert EvalSql(ToSql(x), row) == if Lacks(l, r, row) then Unknown else Known(Satisfied(op, l, r, row));
    assert EvalSql(ToSql(y), row) == if Lacks(l', r', row) then Unknown else Known(Satisfied(op', l', r', row));
  }

  /** A number that satisfies a comparison with `n`. */
  function Solution(op: CompareOp, n: int): (x: int)
    ensures Holds(op, x, n)
  {
    match op
    case Eq => n
    case Ne => n + 1
    case NeAlt => n + 1
    case Lt => n - 1
    case Le => n
    case Gt => n + 1
    case Ge => n
  }

  /** XOR of two comparisons of columns with numbers agrees on every row exactly when the column is the same. */
  lemma XorOfColumnsExactlyWhen(op: CompareOp, a: string, m: int, op': CompareOp, b: string, n: int)
    requires NullToFalse(op) && NullToFalse(op')
    ensures (forall row: Row ::
               Agrees(Compound(Xor, Binary(op, Column(a), Constant(Num(m))), Binary(op', Column(b), Constant(Num(n)))), row)) <==>
            a == b
  {
    forall row: Row
      ensures Agrees(Compound(Xor, Binary(op, Column(a), Constant(Num(m))), Binary(op', Column(b), Constant(Num(n)))), row) <==>
              && !(Lacks(Column(a), Constant(Num(m)), row) && Satisfied(op', Column(b), Constant(Num(n)), row))
              && !(Lacks(Column(b), Constant(Num(n)), row) && Satisfied(op, Column(a), Constant(Num(m)), row))
    {
      XorExactlyWhen(op, Column(a), Constant(Num(m)), op', Column(b), Constant(Num(n)), row);
    }
    if a != b {
      var x := Solution(op', n);
      var row: Row := c => if c == b then Num(x) else Null;
      assert ValueOf(Column(a), row) == Null && ValueOf(Column(b), row) == Num(x);
      assert Satisfied(op', Column(b), Constant(Num(n)), row);
    }
  }

  /** On a missing `a`, pandas keeps rows for `a != 1`, XOR and NOT IN that the SQL drops. */
  lemma MissingValueSeparates(row: Row)
    requires row("a") == Null
    ensures !Agrees(Binary(Ne, Column("a"), Constant(Num(1))), row)
    ensures !Agrees(In(Column("a"), [Num(1)], true), row)
    ensures !Agrees(Compound(Xor, Binary(Eq, Column("a"), Constant(Num(1))), IsNull(Column("a"))), row)
  {
    var eq, isNull := Binary(Eq, Column("a"), Constant(Num(1))), IsNull(Column("a"));
    assert EvalSql(ToSql(eq), row) == Unknown && !EvalPandas(eq, row);
    SqlOfParts(Compound(Xor, eq, isNull), row);
    PandasOfCompound(Xor, eq, isNull, row);
  }

  // ----- combining conditions -----

  /** Left-nested AND over all conditions. */
  function Conjunction(cs: seq<Condition>): Condition
    requires cs != []
  {
    if |cs| == 1 then cs[0] else Compound(And, Conjunction(cs[..|cs| - 1]), cs[|cs| - 1])
  }

  /** A row passes the combination exactly when it passes every condition, under either engine. */
  lemma {:induction false} ConjunctionMeaning(cs: seq<Condition>, row: Row)
    requires cs != []
    ensures EvalPandas(Conjunction(cs), row) <==> forall i :: 0 <= i < |cs| ==> EvalPandas(cs[i], row)
    ensures EvalSql(ToSql(Conjunction(cs)), row) == True <==>
            forall i :: 0 <= i < |cs| ==> EvalSql(ToSql(cs[i]), row) == True
    ensures (forall i :: 0 <= i < |cs| ==> Filterable(cs[i])) ==> Filterable(Conjunction(cs))
  {
    if |cs| > 1 {
      var init, last := cs[..|cs| - 1], cs[|cs| - 1];
      ConjunctionMeaning(init, row);
      var c := Compound(And, Conjunction(init), last);
      SqlOfParts(c, row);
      PandasOfCompound(And, Conjunction(init), last, row);
      LogicFacts(And, EvalSql(ToSql(Conjunction(init)), row), EvalSql(ToSql(last), row));
      assert forall i :: 0 <= i < |cs| ==> cs[i] == if i < |init| then init[i] else last;
      assert forall i :: 0 <= i < |init| ==> init[i] == cs[i];
      assert cs[|init|] == last;
    }
  }

  /** `Condition.all`. */
  method All(conditions: seq<Condition>) returns (r: Option<Condition>)
    ensures conditions == [] <==> r == None
    ensures conditions != [] ==> r == Some(Conjunction(conditions))
  {
    if |conditions| == 0 {
      return None;
    }
    if |conditions| == 1 {
      return Some(conditions[0]);
    }
    var result := conditions[0];
    for k := 1 to |conditions|
      invariant result == Conjunction(conditions[..k])
    {
      assert conditions[..k + 1][..k] == conditions[..k];
      result := Compound(And, result, conditions[k]);
    }
    assert conditions[..|conditions|] == conditions;
    return Some(result);
  }
}
