/**
 CASE WHEN: the builder, the SQL expression it produces and its evaluation through `np.select`.
 */
module CaseWhen {
  import opened Common
  import opened Conditions

  datatype Case = When(condition: Condition, value: Operand)

  // ----- the two meanings of one expression -----

  /** The index of the first WHEN whose SQL condition is true, or the number of cases: NULL skips a branch. */
  function FirstSql(cases: seq<Case>, row: Row): (k: nat)
    ensures k <= |cases|
    ensures k < |cases| ==> EvalSql(ToSql(cases[k].condition), row) == True
    ensures forall j :: 0 <= j < k ==> EvalSql(ToSql(cases[j].condition), row) != True
  {
    if cases == [] then 0
    else
      var k := FirstSql(cases[..|cases| - 1], row);
      if k < |cases| - 1 then k
      else if EvalSql(ToSql(cases[|cases| - 1].condition), row) == True then k
      else |cases|
  }

  function SqlCase(cases: seq<Case>, default: Operand, row: Row): Value {
    var k := FirstSql(cases, row);
    ValueOf(if k < |cases| then cases[k].value else default, row)
  }

  /** `np.select`: the choice of the first true condition, column by column. */
  function Select(conditions: seq<bool>, choices: seq<Value>, default: Value): (v: Value)
    requires |conditions| == |choices|
    ensures forall k :: 0 <= k < |conditions| && conditions[k] && (forall j :: 0 <= j < k ==> !conditions[j]) ==> v == choices[k]
    ensures (forall k :: 0 <= k < |conditions| ==> !conditions[k]) ==> v == default
  {
    if conditions == [] then default
    else if conditions[0] then choices[0]
    else
      assert forall k :: 1 <= k < |conditions| ==> conditions[1..][k - 1] == conditions[k] && choices[1..][k - 1] == choices[k];
      Select(conditions[1..], choices[1..], default)
  }

  function PandasCase(cases: seq<Case>, default: Operand, row: Row): Value {
    Select(seq(|cases|, i requires 0 <= i < |cases| => EvalPandas(cases[i].condition, row)),
           seq(|cases|, i requires 0 <= i < |cases| => ValueOf(cases[i].value, row)),
           ValueOf(default, row))
  }

  /** CASE WHEN agrees across the engines when the engines agree on each of its conditions. */
  lemma CasesAgree(cases: seq<Case>, default: Operand, row: Row)
    requires forall i :: 0 <= i < |cases| ==> Agrees(cases[i].condition, row)
    ensures SqlCase(cases, default, row) == PandasCase(cases, default, row)
  {
    var conditions := seq(|cases|, i requires 0 <= i < |cases| => EvalPandas(cases[i].condition, row));
    var choices := seq(|cases|, i requires 0 <= i < |cases| => ValueOf(cases[i].value, row));
    var k := FirstSql(cases, row);
    assert forall j :: 0 <= j < |cases| ==> (conditions[j] <==> EvalSql(ToSql(cases[j].condition), row) == True);
    if k < |cases| {
      assert conditions[k];
      assert Select(conditions, choices, ValueOf(default, row)) == choices[k];
    }
  }

  /** For every row, if every condition is in the filterable fragment. */
  lemma FilterableCasesAgree(cases: seq<Case>, default: Operand, row: Row)
    requires forall i :: 0 <= i < |cases| ==> Filterable(cases[i].condition)
    ensures SqlCase(cases, default, row) == PandasCase(cases, default, row)
  {
    forall i | 0 <= i < |cases| ensures Agrees(cases[i].condition, row) {
      FiltersAgree(cases[i].condition, row);
    }
    CasesAgree(cases, default, row);
  }

  /** The index of the first condition true in pandas, or the number of cases. */
  function FirstPandas(cases: seq<Case>, row: Row): (k: nat)
    ensures k <= |cases|
    ensures k < |cases| ==> EvalPandas(cases[k].condition, row)
    ensures forall j :: 0 <= j < k ==> !EvalPandas(cases[j].condition, row)
  {
    if cases == [] then 0
    else
      var k := FirstPandas(cases[..|cases| - 1], row);
      if k < |cases| - 1 || EvalPandas(cases[|cases| - 1].condition, row) then k else |cases|
  }

  /** `np.select` takes that branch. */
  lemma SelectTakesFirst(cases: seq<Case>, default: Operand, row: Row)
    ensures var k := FirstPandas(cases, row);
            PandasCase(cases, default, row) == ValueOf(if k < |cases| then cases[k].value else default, row)
  {
    hide FirstPandas, Select, EvalPandas;
    var conditions := seq(|cases|, i requires 0 <= i < |cases| => EvalPandas(cases[i].condition, row));
    var choices := seq(|cases|, i requires 0 <= i < |cases| => ValueOf(cases[i].value, row));
    var k := FirstPandas(cases, row);
    assert forall j :: 0 <= j < |cases| ==> conditions[j] == EvalPandas(cases[j].condition, row);
    if k < |cases| {
      assert conditions[k] && Select(conditions, choices, ValueOf(default, row)) == choices[k];
    }
  }

  /**
   The engines take the same branch exactly when they agree on every condition up to and including
   the one the SQL stops at.
   */
  lemma SameBranchExactlyWhen(cases: seq<Case>, row: Row)
    ensures FirstSql(cases, row) == FirstPandas(cases, row) <==>
            forall j :: 0 <= j <= FirstSql(cases, row) && j < |cases| ==> Agrees(cases[j].condition, row)
  {
    hide FirstSql, FirstPandas, EvalSql, EvalPandas, ToSql;
  }

  /** So where the branches have different values, that decides the answer. */
  lemma SameCaseExactlyWhen(cases: seq<Case>, default: Operand, row: Row)
    requires forall i, j :: 0 <= i < j < |cases| ==> ValueOf(cases[i].value, row) != ValueOf(cases[j].value, row)
    requires forall i :: 0 <= i < |cases| ==> ValueOf(cases[i].value, row) != ValueOf(default, row)
    ensures SqlCase(cases, default, row) == PandasCase(cases, default, row) <==>
            forall j :: 0 <= j <= FirstSql(cases, row) && j < |cases| ==> Agrees(cases[j].condition, row)
  {
    hide FirstSql, FirstPandas, PandasCase, EvalSql, EvalPandas, ToSql;
    SelectTakesFirst(cases, default, row);
    SameBranchExactlyWhen(cases, row);
  }

  // ----- _evaluate_via_pandas -----

  /** The loop of the source: one boolean column and one value column per case, then `np.select`. */
  method EvaluateViaPandas(cases: seq<Case>, default: Operand, rows: seq<Row>) returns (result: seq<Value>)
    ensures |result| == |rows|
    ensures forall k :: 0 <= k < |rows| ==> result[k] == PandasCase(cases, default, rows[k])
  {
    var conditions: seq<seq<bool>> := [];
    var choices: seq<seq<Value>> := [];
    for i := 0 to |cases|
      invariant |conditions| == |choices| == i
      invariant forall j :: 0 <= j < i ==> |conditions[j]| == |choices[j]| == |rows|
      invariant forall j, k :: 0 <= j < i && 0 <= k < |rows| ==> conditions[j][k] == EvalPandas(cases[j].condition, rows[k])
      invariant forall j, k :: 0 <= j < i && 0 <= k < |rows| ==> choices[j][k] == ValueOf(cases[j].value, rows[k])
    {
      var condResult := seq(|rows|, k requires 0 <= k < |rows| => EvalPandas(cases[i].condition, rows[k]));
      conditions := conditions + [condResult];
      var value := seq(|rows|, k requires 0 <= k < |rows| => ValueOf(cases[i].value, rows[k]));
      choices := choices + [value];
    }
    result := [];
    for k := 0 to |rows|
      invariant |result| == k
      invariant forall m :: 0 <= m < k ==> result[m] == PandasCase(cases, default, rows[m])
    {
      var mask := seq(|cases|, j requires 0 <= j < |cases| => conditions[j][k]);
      var values := seq(|cases|, j requires 0 <= j < |cases| => choices[j][k]);
      assert mask == seq(|cases|, i requires 0 <= i < |cases| => EvalPandas(cases[i].condition, rows[k]));
      assert values == seq(|cases|, i requires 0 <= i < |cases| => ValueOf(cases[i].value, rows[k]));
      result := result + [Select(mask, values, ValueOf(default, rows[k]))];
    }
  }

  // ----- the builder -----

  /** A Python list of cases. */
  class CaseList {
    var items: seq<Case>

    constructor (items: seq<Case>)
      ensures this.items == items
    {
      this.items := items;
    }
  }

  class CaseWhenExpr {
    const cases: CaseList
    const default: Operand

    constructor (cases: CaseList, default: Operand)
      ensures this.cases == cases && this.default == default
    {
      this.cases, this.default := cases, default;
    }
  }

  datatype Built = Failure(message: string) | Success(expr: CaseWhenExpr)

  class CaseWhenBuilder {
    const cases: CaseList

    constructor ()
      ensures fresh(cases) && cases.items == []
    {
      cases := new CaseList([]);
    }

    /** `when`: appends in place and returns the builder itself. */
    method WhenThen(condition: Condition, value: Operand) returns (builder: CaseWhenBuilder)
      modifies cases
      ensures builder == this && cases.items == old(cases.items) + [When(condition, value)]
    {
      cases.items := cases.items + [When(condition, value)];
      builder := this;
    }

    /** `otherwise`: needs at least one case, and takes a copy of the list. */
    method Otherwise(default: Operand) returns (r: Built)
      ensures r.Failure? <==> cases.items == []
      ensures r.Success? ==>
        fresh(r.expr.cases) && r.expr.cases.items == cases.items && r.expr.default == default
    {
      if |cases.items| == 0 {
        return Failure("CaseWhenBuilder requires at least one .when() condition before .otherwise()");
      }
      var copy := new CaseList(cases.items);
      var expr := new CaseWhenExpr(copy, default);
      return Success(expr);
    }
  }

  /** Extending a builder after `otherwise` leaves the expression already returned as it was. */
  method ExtendAfterOtherwise(builder: CaseWhenBuilder, default: Operand, more: seq<Case>) returns (r: Built)
    modifies builder.cases
    ensures r.Failure? <==> old(builder.cases.items) == []
    ensures r.Success? ==> r.expr.cases.items == old(builder.cases.items) && r.expr.default == default
    ensures builder.cases.items == old(builder.cases.items) + more
  {
    r := builder.Otherwise(default);
    ghost var start := builder.cases.items;
    for k := 0 to |more|
      invariant builder.cases.items == start + more[..k]
      invariant r.Success? ==> fresh(r.expr.cases) && r.expr.cases.items == start
      modifies builder.cases
    {
      var b := builder.WhenThen(more[k].condition, more[k].value);
    }
    assert more[..|more|] == more;
  }
}
