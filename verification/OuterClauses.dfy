/**
 The scanners of `datastore/connection.py` that decide where the outer query's LIMIT, OFFSET,
 FROM and ORDER BY are, by counting parentheses and quotes in the text before or after them.
 */
module OuterClauses {
  import opened SqlText

  /** The parenthesis depth reached after reading `s`. */
  function Depth(s: string): int {
    Count(s, '(') - Count(s, ')')
  }

  predicate Balanced(s: string) {
    Count(s, '(') == Count(s, ')')
  }

  lemma DepthConcat(a: string, b: string)
    ensures Depth(a + b) == Depth(a) + Depth(b)
  {
    CountConcat(a, b, '(');
    CountConcat(a, b, ')');
  }

  lemma {:induction false} DepthUpper(s: string)
    ensures Depth(Upper(s)) == Depth(s)
  {
    if s != "" {
      DepthUpper(s[..|s| - 1]);
      assert Upper(s)[..|s| - 1] == Upper(s[..|s| - 1]);
    }
  }

  // ----- _find_outer_clause_position -----

  /** The clause word stands at `i` after a space, and a space or the end of the text follows it. */
  predicate ClauseAt(sql: string, clause: string, i: int) {
    OccursAt(sql, " " + clause + " ", i) || EndsWithAt(sql, " " + clause, i)
  }

  predicate EndsWithAt(sql: string, suffix: string, i: int) {
    i == |sql| - |suffix| && OccursAt(sql, suffix, i)
  }

  predicate OuterAt(sql: string, clause: string, i: int) {
    ClauseAt(sql, clause, i) && Balanced(sql[..i])
  }

  /** The index the source uses for a clause that ends the text. */
  function EndIndex(sql: string, clause: string): int {
    |sql| - |clause| - 1
  }

  datatype Turn = Return(r: int) | Again(pos: nat)

  /** One turn of the source's `while True` loop, entered with `pos`. */
  function LoopTurn(sql: string, clause: string, pos: nat): Turn {
    var found := Find(sql, " " + clause + " ", pos);
    if found != -1 then
      if Balanced(sql[..found]) then Return(found) else Again(found + 1)
    else if EndsWithAt(sql, " " + clause, EndIndex(sql, clause)) then
      if Balanced(sql[..EndIndex(sql, clause)]) then Return(EndIndex(sql, clause)) else Again(pos)
    else Return(-1)
  }

  /** The loop after `n` turns, or its result if it has returned by then. */
  function AfterTurns(sql: string, clause: string, n: nat): Turn {
    if n == 0 then Again(0)
    else
      match AfterTurns(sql, clause, n - 1)
      case Return(r) => Return(r)
      case Again(pos) => LoopTurn(sql, clause, pos)
  }

  /** The text ends in the clause and no occurrence is at the outer level. */
  ghost predicate Hangs(sql: string, clause: string) {
    EndsWithAt(sql, " " + clause, EndIndex(sql, clause)) && forall i :: !OuterAt(sql, clause, i)
  }

  /** The leftmost outer occurrence, or -1 when there is none. */
  ghost predicate IsLeftmostOuter(sql: string, clause: string, r: int) {
    if r == -1 then forall i :: !OuterAt(sql, clause, i)
    else OuterAt(sql, clause, r) && forall i :: i < r ==> !OuterAt(sql, clause, i)
  }

  /** One turn either keeps the search going with everything before `pos` ruled out, or is final. */
  lemma TurnFacts(sql: string, clause: string, pos: nat)
    requires forall i :: i < pos ==> !OuterAt(sql, clause, i)
    requires pos <= |sql|
    ensures match LoopTurn(sql, clause, pos)
      case Return(r) => IsLeftmostOuter(sql, clause, r) && !Hangs(sql, clause)
      case Again(next) =>
        && pos <= next <= |sql| && (forall i :: i < next ==> !OuterAt(sql, clause, i))
        && (next == pos ==> Hangs(sql, clause))
  {
    hide Find, Balanced;
    var term, end := " " + clause + " ", EndIndex(sql, clause);
    var found := Find(sql, term, pos);
    EndIsLast(sql, clause);
    assert forall i :: OccursAt(sql, term, i) ==> i < end;
    assert found != -1 ==> found < end;
    assert found == -1 ==> forall i :: ClauseAt(sql, clause, i) && pos <= i ==> i == end;
    assert found != -1 ==> forall i :: pos <= i < found ==> !OccursAt(sql, term, i);
  }

  lemma EndIsLast(sql: string, clause: string)
    ensures forall i :: OccursAt(sql, " " + clause + " ", i) ==> i < EndIndex(sql, clause)
    ensures forall i :: EndsWithAt(sql, " " + clause, i) ==> i == EndIndex(sql, clause)
  {
  }

  lemma {:induction false} TurnsRuleOut(sql: string, clause: string, n: nat)
    ensures match AfterTurns(sql, clause, n)
      case Return(r) => IsLeftmostOuter(sql, clause, r) && !Hangs(sql, clause)
      case Again(pos) => pos <= |sql| && forall i :: i < pos ==> !OuterAt(sql, clause, i)
  {
    hide Find, LoopTurn, OuterAt;
    if n == 0 {
      assert forall i :: i < 0 ==> !OuterAt(sql, clause, i) by { NoneBeforeStart(sql, clause); }
    } else {
      TurnsRuleOut(sql, clause, n - 1);
      match AfterTurns(sql, clause, n - 1)
      case Return(_) =>
      case Again(pos) => TurnFacts(sql, clause, pos);
    }
  }

  lemma NoneBeforeStart(sql: string, clause: string)
    ensures forall i :: i < 0 ==> !OuterAt(sql, clause, i)
  {
  }

  /** From `pos` on the loop needs at most one turn per character left, unless it hangs. */
  lemma {:induction false} TurnsReturn(sql: string, clause: string, n: nat, pos: nat) returns (m: nat)
    requires AfterTurns(sql, clause, n) == Again(pos) && !Hangs(sql, clause)
    ensures AfterTurns(sql, clause, m).Return?
    decreases |sql| - pos
  {
    hide Find, LoopTurn, Hangs;
    TurnsRuleOut(sql, clause, n);
    TurnFacts(sql, clause, pos);
    match LoopTurn(sql, clause, pos)
    case Return(_) => m := n + 1;
    case Again(next) => m := TurnsReturn(sql, clause, n + 1, next);
  }

  /** The loop of the source returns if and only if it does not hang on a final inner clause. */
  lemma ReturnsExactlyWhen(sql: string, clause: string)
    ensures (exists n :: AfterTurns(sql, clause, n).Return?) <==> !Hangs(sql, clause)
  {
    hide LoopTurn, Hangs;
    if n :| AfterTurns(sql, clause, n).Return? {
      TurnsRuleOut(sql, clause, n);
    }
    if !Hangs(sql, clause) {
      var m := TurnsReturn(sql, clause, 0, 0);
    }
  }

  /** A caller can rule hanging out by checking that the text has as many `(` as `)`. */
  lemma BalancedNeverHangs(sql: string, clause: string)
    requires Balanced(sql) && Balanced(clause)
    ensures !Hangs(sql, clause)
  {
    var end := EndIndex(sql, clause);
    if EndsWithAt(sql, " " + clause, end) {
      assert sql == sql[..end] + (" " + clause);
      DepthConcat(sql[..end], " " + clause);
      DepthConcat(" ", clause);
      assert Depth(" ") == 0;
      assert OuterAt(sql, clause, end);
    }
  }

  /** An unclosed parenthesis before a final LIMIT keeps the loop turning for ever. */
  lemma UnclosedSubqueryHangs(n: nat)
    ensures Hangs("(A LIMIT", "LIMIT") && AfterTurns("(A LIMIT", "LIMIT", n).Again?
  {
    hide Find, AfterTurns, LoopTurn;
    var sql := "(A LIMIT";
    assert " " + "LIMIT" == sql[2..8];
    forall i ensures !OuterAt(sql, "LIMIT", i) {
      if i == 0 || i == 1 {
        Mismatch(sql, " LIMIT ", i, 0);
      }
      assert sql[..2] == "(A" && "(A"[..1] == "(" && "("[..0] == "";
    }
    ReturnsExactlyWhen(sql, "LIMIT");
  }

  /** `_find_outer_clause_position`. */
  method FindOuterClausePosition(sql: string, clause: string) returns (r: int)
    requires !Hangs(sql, clause)
    ensures IsLeftmostOuter(sql, clause, r)
  {
    hide Find, OuterAt, Hangs, IsLeftmostOuter;
    var searchTerm := " " + clause + " ";
    var pos := 0;
    NoneBeforeStart(sql, clause);
    while true
      invariant 0 <= pos <= |sql|
      invariant forall i :: i < pos ==> !OuterAt(sql, clause, i)
      decreases |sql| - pos
    {
      TurnFacts(sql, clause, pos);
      var found := Find(sql, searchTerm, pos);
      if found == -1 {
        if EndsWithAt(sql, " " + clause, |sql| - |clause| - 1) {
          found := |sql| - |clause| - 1;
        } else {
          return -1;
        }
      } else {
        pos := found + 1;
      }
      var prefix := sql[..found];
      var openParens := Count(prefix, '(');
      var closeParens := Count(prefix, ')');
      if openParens == closeParens {
        return found;
      }
    }
  }

  /** A clause between its space and the rest of the text is seen exactly when the rest is empty or begins with a space. */
  lemma ClauseSeenExactlyWhen(a: string, clause: string, rest: string)
    ensures ClauseAt(a + " " + clause + rest, clause, |a|) <==> rest == "" || rest[0] == ' '
  {
    var sql, n := a + " " + clause + rest, |a| + 1 + |clause|;
    assert sql[|a|..n] == " " + clause;
    if rest != "" {
      assert sql[|a|..n + 1] == " " + clause + [rest[0]];
      assert (" " + clause + [rest[0]])[|clause| + 1] == rest[0];
    }
  }

  // ----- _find_outer_from_clause -----

  predicate AfterFrom(c: char) {
    c == ' ' || c == '\t' || c == '\n' || c == '\r'
  }

  predicate BeforeFrom(c: char) {
    AfterFrom(c) || c == ',' || c == '('
  }

  /** The word FROM at `i`: in any case, between the delimiters the source accepts. */
  predicate FromWordAt(sql: string, i: int) {
    && OccursAt(Upper(sql), "FROM", i)
    && (i > 0 ==> BeforeFrom(sql[i - 1]))
    && (i + 4 < |sql| ==> AfterFrom(sql[i + 4]))
  }

  /** Outside quotes and subqueries, by the counts in the text before it. */
  predicate OuterFromAt(sql: string, i: int) {
    && FromWordAt(sql, i)
    && Count(sql[..i], '"') % 2 == 0 && Count(sql[..i], '\'') % 2 == 0
    && Balanced(sql[..i])
  }

  /** FROM does not overlap itself, so the three positions after a FROM start no other. */
  lemma FromDoesNotOverlap(u: string, i: int, j: int)
    requires OccursAt(u, "FROM", i) && i < j < i + 4
    ensures !OccursAt(u, "FROM", j)
  {
    assert u[j] == u[i..i + 4][j - i];
    Mismatch(u, "FROM", j, 0);
  }

  lemma SkipLosesNothing(sql: string, pos: nat, from: int)
    requires from == Find(Upper(sql), "FROM", pos) && from != -1
    requires forall i :: i < pos ==> !OuterFromAt(sql, i)
    requires !OuterFromAt(sql, from)
    ensures forall i :: i < from + 4 ==> !OuterFromAt(sql, i)
  {
    hide Balanced, BeforeFrom, AfterFrom, Find;
    forall i | pos <= i < from + 4 ensures !OuterFromAt(sql, i) {
      if from < i {
        FromDoesNotOverlap(Upper(sql), from, i);
      }
    }
  }

  lemma Delimiters(c: char)
    ensures BeforeFrom(c) <==> c in {' ', '\t', '\n', '\r', ',', '('}
    ensures AfterFrom(c) <==> c in {' ', '\t', '\n', '\r'}
  {
  }

  lemma FromWordSeen(a: string, word: string, rest: string)
    requires Upper(word) == "FROM"
    ensures var sql := a + word + rest;
            && sql[..|a|] == a
            && (FromWordAt(sql, |a|) <==> (a == "" || BeforeFrom(a[|a| - 1])) && (rest == "" || AfterFrom(rest[0])))
  {
    hide BeforeFrom, AfterFrom;
    var sql := a + word + rest;
    assert |word| == |Upper(word)| == 4;
    assert sql[..|a|] == a && sql[|a|..|a| + 4] == word;
    UpperSlice(sql, |a|, |a| + 4);
    assert rest != "" ==> sql[|a| + 4] == rest[0];
  }

  /**
   A FROM is the outer one exactly when it stands at the start or behind one of six characters, at the
   end or in front of one of four, behind an even number of quotes of either kind, and at depth 0.
   */
  lemma FromSeenExactlyWhen(a: string, word: string, rest: string)
    requires Upper(word) == "FROM"
    ensures OuterFromAt(a + word + rest, |a|) <==>
            && (a == "" || a[|a| - 1] in {' ', '\t', '\n', '\r', ',', '('})
            && (rest == "" || rest[0] in {' ', '\t', '\n', '\r'})
            && Count(a, '"') % 2 == 0 && Count(a, '\'') % 2 == 0 && Count(a, '(') == Count(a, ')')
  {
    hide Count, BeforeFrom, AfterFrom, FromWordAt, Upper;
    FromWordSeen(a, word, rest);
    if a != "" {
      Delimiters(a[|a| - 1]);
    }
    if rest != "" {
      Delimiters(rest[0]);
    }
  }

  /** `_find_outer_from_clause`: the leftmost outer FROM. */
  method FindOuterFromClause(sql: string) returns (r: int)
    ensures r == -1 ==> forall i :: !OuterFromAt(sql, i)
    ensures r != -1 ==> OuterFromAt(sql, r) && forall i :: i < r ==> !OuterFromAt(sql, i)
  {
    hide Find, Balanced, Count, BeforeFrom, AfterFrom;
    var sqlUpper := Upper(sql);
    var pos := 0;
    while pos < |sqlUpper|
      invariant 0 <= pos <= |sqlUpper|
      invariant forall i :: i < pos ==> !OuterFromAt(sql, i)
      decreases |sqlUpper| - pos
    {
      var fromPos := Find(sqlUpper, "FROM", pos);
      if fromPos == -1 {
        return -1;
      }
      if !OuterFromAt(sql, fromPos) {
        SkipLosesNothing(sql, pos, fromPos);
      }
      if fromPos > 0 {
        var charBefore := sql[fromPos - 1];
        if !BeforeFrom(charBefore) {
          pos := fromPos + 4;
          continue;
        }
      }
      if fromPos + 4 < |sql| {
        var charAfter := sql[fromPos + 4];
        if !AfterFrom(charAfter) {
          pos := fromPos + 4;
          continue;
        }
      }
      var prefix := sql[..fromPos];
      var doubleQuotes := Count(prefix, '"');
      var singleQuotes := Count(prefix, '\'');
      if doubleQuotes % 2 == 1 || singleQuotes % 2 == 1 {
        pos := fromPos + 4;
        continue;
      }
      if Balanced(prefix) {
        return fromPos;
      }
      pos := fromPos + 4;
    }
    return -1;
  }

  // ----- _has_outer_order_by -----

  const ORDER_BY: string := "ORDER BY"

  /** `_has_outer_order_by`: the source looks at the parentheses after the last ORDER BY. */
  function HasOuterOrderBy(sqlUpper: string): bool {
    var orderPos := RFind(sqlUpper, ORDER_BY);
    if orderPos == -1 then false
    else
      var afterOrder := sqlUpper[orderPos..];
      Count(afterOrder, '(') >= Count(afterOrder, ')')
  }

  lemma OuterIsSuffixDepth(u: string)
    ensures HasOuterOrderBy(u) <==> RFind(u, ORDER_BY) != -1 && Depth(u[RFind(u, ORDER_BY)..]) >= 0
  {
  }

  /**
   The suffix test says that the last ORDER BY is no deeper than the end of the text.  On a
   balanced text whose depth never goes below zero that is: it stands at depth 0.
   */
  lemma SuffixTestIsPrefixDepth(s: string)
    ensures HasOuterOrderBy(s) <==> RFind(s, ORDER_BY) != -1 && Depth(s[..RFind(s, ORDER_BY)]) <= Depth(s)
    ensures Balanced(s) && (forall k :: 0 <= k <= |s| ==> Depth(s[..k]) >= 0) ==>
              (HasOuterOrderBy(s) <==> RFind(s, ORDER_BY) != -1 && Depth(s[..RFind(s, ORDER_BY)]) == 0)
  {
    hide RFind, Count;
    var p := RFind(s, ORDER_BY);
    if p != -1 {
      assert s == s[..p] + s[p..];
      DepthConcat(s[..p], s[p..]);
    }
  }

  // ----- _add_order_by_row_id -----

  const ORDER_ROW_ID: string := " ORDER BY _row_id"

  /** The leftmost outer LIMIT or OFFSET, or -1 when there is neither. */
  ghost predicate IsCut(sql: string, cut: int) {
    var u := Upper(sql);
    if cut == -1 then forall i :: !OuterAt(u, "LIMIT", i) && !OuterAt(u, "OFFSET", i)
    else
      && (OuterAt(u, "LIMIT", cut) || OuterAt(u, "OFFSET", cut))
      && forall i :: i < cut ==> !OuterAt(u, "LIMIT", i) && !OuterAt(u, "OFFSET", i)
  }

  /** The ORDER BY goes in front of the clauses that start at `cut`. */
  function WithOrder(sql: string, cut: int): string
    requires -1 <= cut <= |sql|
  {
    if cut == -1 then sql + ORDER_ROW_ID
    else Strip(sql[..cut]) + ORDER_ROW_ID + " " + Strip(sql[cut..])
  }

  /** `_add_order_by_row_id`. */
  method AddOrderByRowId(sql: string) returns (out: string)
    requires !Hangs(Upper(sql), "LIMIT") && !Hangs(Upper(sql), "OFFSET")
    ensures exists cut :: -1 <= cut <= |sql| && IsCut(sql, cut) && out == WithOrder(sql, cut)
  {
    hide Balanced, Strip, ClauseAt;
    var sqlUpper := Upper(sql);
    var limitPos := FindOuterClausePosition(sqlUpper, "LIMIT");
    var offsetPos := FindOuterClausePosition(sqlUpper, "OFFSET");
    OuterInText(sqlUpper, "LIMIT", limitPos);
    OuterInText(sqlUpper, "OFFSET", offsetPos);
    if limitPos != -1 || offsetPos != -1 {
      var clauseStart := |sql|;
      if limitPos != -1 && limitPos < clauseStart {
        clauseStart := limitPos;
      }
      if offsetPos != -1 && offsetPos < clauseStart {
        clauseStart := offsetPos;
      }
      var baseQuery := Strip(sql[..clauseStart]);
      var limitOffsetClause := Strip(sql[clauseStart..]);
      out := baseQuery + " ORDER BY _row_id" + " " + limitOffsetClause;
      assert IsCut(sql, clauseStart) && out == WithOrder(sql, clauseStart);
    } else {
      out := sql + " ORDER BY _row_id";
      assert IsCut(sql, -1) && out == WithOrder(sql, -1);
    }
  }

  /** The rewriting loses nothing but white space around the place of insertion and at both ends. */
  lemma AddedOrderKeepsText(sql: string, cut: nat) returns (before: string, base: string, gap: string, tail: string, after: string)
    requires cut <= |sql|
    ensures sql == before + base + gap + tail + after && AllSpace(before) && AllSpace(gap) && AllSpace(after)
    ensures |before + base| <= cut <= |before + base + gap|
    ensures WithOrder(sql, cut) == base + ORDER_ROW_ID + " " + tail
  {
    hide Strip;
    var left, right := sql[..cut], sql[cut..];
    var i, j := StripIsSlice(left);
    var k, l := StripIsSlice(right);
    before, base, gap, tail, after := left[..i], left[i..j], left[j..] + right[..k], right[k..l], right[l..];
    Regroup(left, right, i, j, k, l);
    assert sql == left + right;
    BlankGap(left[j..], right[..k]);
  }

  lemma Regroup(left: string, right: string, i: nat, j: nat, k: nat, l: nat)
    requires i <= j <= |left| && k <= l <= |right|
    ensures left + right == left[..i] + left[i..j] + (left[j..] + right[..k]) + right[k..l] + right[l..]
  {
    assert left == left[..i] + left[i..j] + left[j..];
    assert right == right[..k] + right[k..l] + right[l..];
  }

  lemma BlankGap(a: string, b: string)
    requires AllSpace(a) && AllSpace(b)
    ensures AllSpace(a + b)
  {
  }

  lemma OuterInText(sql: string, clause: string, i: int)
    requires IsLeftmostOuter(sql, clause, i)
    ensures i == -1 || 0 <= i < |sql|
  {
  }

  lemma InsertedHasOne(u: string, p: nat, k: nat)
    requires p + 16 <= |u| && u[p..p + 16] == "ORDER BY _ROW_ID" && p < k < p + 16
    ensures !OccursAt(u, ORDER_BY, k)
  {
    assert u[k] == "ORDER BY _ROW_ID"[k - p];
    if k == p + 11 {
      assert u[k + 1] == "ORDER BY _ROW_ID"[12];
      Mismatch(u, ORDER_BY, k, 1);
    } else {
      Mismatch(u, ORDER_BY, k, 0);
    }
  }

  lemma InsertedText(base: string, tail: string)
    ensures var u, p := Upper(base + ORDER_ROW_ID + tail), |base| + 1;
            u[p..p + 16] == "ORDER BY _ROW_ID" && u[p + 16..|u|] == Upper(tail)
  {
    UpperOrderRowId();
    UpperConcat(base, ORDER_ROW_ID);
    UpperConcat(base + ORDER_ROW_ID, tail);
    BehindSpace(Upper(base), "ORDER BY _ROW_ID", Upper(tail));
  }

  lemma UpperOrderRowId()
    ensures Upper(ORDER_ROW_ID) == " " + "ORDER BY _ROW_ID"
  {
  }

  lemma UpperConcat(a: string, b: string)
    ensures Upper(a + b) == Upper(a) + Upper(b)
  {
  }

  lemma BehindSpace(a: string, m: string, t: string)
    ensures var u := a + (" " + m) + t;
            u[|a| + 1..|a| + 1 + |m|] == m && u[|a| + 1 + |m|..] == t
  {
  }

  /** In `base ORDER BY _row_id` followed by a tail without ORDER BY, the inserted one is the last. */
  lemma InsertedIsLast(base: string, tail: string)
    requires RFind(Upper(tail), ORDER_BY) == -1
    ensures RFind(Upper(base + ORDER_ROW_ID + tail), ORDER_BY) == |base| + 1
  {
    hide RFind, Upper;
    var u, p := Upper(base + ORDER_ROW_ID + tail), |base| + 1;
    InsertedText(base, tail);
    assert u[p..p + 8] == u[p..p + 16][..8] == ORDER_BY;
    assert OccursAt(u, ORDER_BY, p);
    forall k | p < k ensures !OccursAt(u, ORDER_BY, k) {
      if k < p + 16 {
        InsertedHasOne(u, p, k);
      } else {
        OccursInSlice(u, ORDER_BY, p + 16, |u|, k - p - 16);
      }
    }
  }

  lemma {:induction false} SpaceHasDepthZero(s: string)
    requires forall k :: 0 <= k < |s| ==> IsSpace(s[k])
    ensures Depth(s) == 0
  {
    if s != "" {
      SpaceHasDepthZero(s[..|s| - 1]);
    }
  }

  lemma StripKeepsDepth(s: string)
    ensures Depth(Strip(s)) == Depth(s)
  {
    hide Strip, Depth;
    var i, j := StripIsSlice(s);
    assert s == s[..i] + s[i..j] + s[j..];
    DepthConcat(s[..i] + s[i..j], s[j..]);
    DepthConcat(s[..i], s[i..j]);
    SpaceHasDepthZero(s[..i]);
    SpaceHasDepthZero(s[j..]);
  }

  lemma StripHasNoMore(s: string, pat: string)
    requires RFind(Upper(s), pat) == -1
    ensures RFind(Upper(Strip(s)), pat) == -1
  {
    hide RFind, Strip;
    var i, j := StripIsSlice(s);
    UpperSlice(s, i, j);
    var p := RFind(Upper(Strip(s)), pat);
    forall k: nat ensures !OccursAt(Upper(Strip(s)), pat, k) {
      OccursInSlice(Upper(s), pat, i, j, k);
    }
  }

  /** The test that the query now has an outer ORDER BY, for an ordered base and a given tail. */
  lemma OuterAfterInsertion(base: string, tail: string)
    requires RFind(Upper(tail), ORDER_BY) == -1
    ensures HasOuterOrderBy(Upper(base + ORDER_ROW_ID + tail)) <==> Depth(tail) >= 0
  {
    hide RFind, Count;
    InsertedIsLast(base, tail);
    InsertedText(base, tail);
    var u, p := Upper(base + ORDER_ROW_ID + tail), |base| + 1;
    assert u[p..] == "ORDER BY _ROW_ID" + Upper(tail);
    DepthConcat("ORDER BY _ROW_ID", Upper(tail));
    DepthUpper(tail);
    NoParens("ORDER BY _ROW_ID");
  }

  lemma {:induction false} NoParens(s: string)
    requires forall k :: 0 <= k < |s| ==> s[k] != '(' && s[k] != ')'
    ensures Depth(s) == 0
  {
    if s != "" {
      NoParens(s[..|s| - 1]);
    }
  }

  /**
   After `_add_order_by_row_id` the query has an outer ORDER BY by the source's own test, unless
   its LIMIT/OFFSET tail closes more parentheses than it opens; on a balanced text it always has.
   */
  lemma AddedOrderIsOuter(sql: string, cut: int)
    requires -1 <= cut <= |sql| && IsCut(sql, cut)
    requires cut != -1 ==> RFind(Upper(sql[cut..]), ORDER_BY) == -1
    ensures HasOuterOrderBy(Upper(WithOrder(sql, cut))) <==> cut == -1 || Depth(sql[cut..]) >= 0
    ensures Balanced(sql) ==> HasOuterOrderBy(Upper(WithOrder(sql, cut)))
  {
    hide RFind, Strip, Count, HasOuterOrderBy;
    if cut == -1 {
      assert Upper("") == "";
      EmptyHasNone();
      OuterAfterInsertion(sql, "");
      assert sql + ORDER_ROW_ID + "" == sql + ORDER_ROW_ID;
      NoParens("");
    } else {
      var base, tail := Strip(sql[..cut]), Strip(sql[cut..]);
      StripHasNoMore(sql[cut..], ORDER_BY);
      SpaceHidesNone(tail);
      OuterAfterInsertion(base, " " + tail);
      assert base + ORDER_ROW_ID + (" " + tail) == WithOrder(sql, cut);
      StripKeepsDepth(sql[cut..]);
      DepthConcat(" ", tail);
      NoParens(" ");
      TailOfCut(sql, cut);
    }
  }

  lemma EmptyHasNone()
    ensures RFind("", ORDER_BY) == -1
  {
  }

  lemma SpaceHidesNone(tail: string)
    requires RFind(Upper(tail), ORDER_BY) == -1
    ensures RFind(Upper(" " + tail), ORDER_BY) == -1
  {
    hide RFind;
    var u := Upper(" " + tail);
    assert u[1..|u|] == Upper(tail);
    forall k: nat ensures !OccursAt(u, ORDER_BY, k) {
      if k == 0 {
        Mismatch(u, ORDER_BY, 0, 0);
      } else {
        OccursInSlice(u, ORDER_BY, 1, |u|, k - 1);
      }
    }
  }

  /** What is cut off a balanced text at an outer clause is balanced. */
  lemma TailOfCut(sql: string, cut: int)
    requires 0 <= cut <= |sql| && IsCut(sql, cut)
    ensures Balanced(sql) ==> Depth(sql[cut..]) == 0
  {
    assert Upper(sql)[..cut] == Upper(sql[..cut]);
    DepthUpper(sql[..cut]);
    assert sql == sql[..cut] + sql[cut..];
    DepthConcat(sql[..cut], sql[cut..]);
  }

  // ----- _append_row_id_tiebreaker -----

  const TIEBREAKER: string := ", _row_id ASC"
  const TERMINATORS: seq<string> := [" LIMIT ", " OFFSET ", ";"]

  /** A terminator of the ORDER BY clause at `from` starts at `k`. */
  ghost predicate TerminatorAt(u: string, from: nat, k: int) {
    from <= k && exists t :: t in TERMINATORS && OccursAt(u, t, k)
  }

  /** The end of the ORDER BY clause that starts at `from`: its first terminator, or the end of the text. */
  ghost predicate IsClauseEnd(u: string, from: nat, end: int) {
    && from <= end <= |u|
    && (end < |u| ==> TerminatorAt(u, from, end))
    && forall k :: TerminatorAt(u, from, k) ==> end <= k
  }

  function WithTiebreaker(sql: string, end: nat): string
    requires end <= |sql|
  {
    sql[..end] + TIEBREAKER + sql[end..]
  }

  /** `_append_row_id_tiebreaker`. */
  method AppendRowIdTiebreaker(sql: string) returns (out: string)
    ensures RFind(Upper(sql), ORDER_BY) == -1 ==> out == sql
    ensures RFind(Upper(sql), ORDER_BY) != -1 ==>
              exists end :: IsClauseEnd(Upper(sql), RFind(Upper(sql), ORDER_BY), end) && out == WithTiebreaker(sql, end)
  {
    hide RFind, Find;
    var sqlUpper := Upper(sql);
    var orderByPos := RFind(sqlUpper, ORDER_BY);
    if orderByPos == -1 {
      return sql;
    }
    var orderByEnd := |sql|;
    var k := 0;
    while k < |TERMINATORS|
      invariant 0 <= k <= |TERMINATORS|
      invariant orderByPos <= orderByEnd <= |sql|
      invariant orderByEnd < |sql| ==> TerminatorAt(sqlUpper, orderByPos, orderByEnd)
      invariant forall t, i :: t in TERMINATORS[..k] && orderByPos <= i && OccursAt(sqlUpper, t, i) ==> orderByEnd <= i
    {
      var pos := Find(sqlUpper, TERMINATORS[k], orderByPos);
      assert TERMINATORS[..k + 1] == TERMINATORS[..k] + [TERMINATORS[k]];
      if pos != -1 && pos < orderByEnd {
        assert TERMINATORS[k] in TERMINATORS;
        orderByEnd := pos;
      }
      k := k + 1;
    }
    assert TERMINATORS[..k] == TERMINATORS;
    assert IsClauseEnd(sqlUpper, orderByPos, orderByEnd);
    out := WithTiebreaker(sql, orderByEnd);
  }

  /** The terminator lies behind the words ORDER BY themselves. */
  lemma EndBehindWords(u: string, pos: nat, end: nat)
    requires OccursAt(u, ORDER_BY, pos) && IsClauseEnd(u, pos, end)
    ensures pos + 8 <= end
  {
    assert u[pos..pos + 8] == ORDER_BY;
    if end < |u| {
      var t :| t in TERMINATORS && OccursAt(u, t, end);
      if end < pos + 8 {
        assert u[end] == ORDER_BY[end - pos];
        assert t == " LIMIT " || t == " OFFSET " || t == ";";
        if end == pos + 5 {
          assert u[end + 1] == ORDER_BY[6];
          Mismatch(u, t, end, if t == ";" then 0 else 1);
        } else {
          Mismatch(u, t, end, 0);
        }
        assert false;
      }
    }
  }

  /** The last ORDER BY stays the last one: the tiebreaker adds no other. */
  lemma TiebreakerKeepsLast(sql: string, end: nat)
    requires RFind(Upper(sql), ORDER_BY) != -1
    requires IsClauseEnd(Upper(sql), RFind(Upper(sql), ORDER_BY), end)
    ensures RFind(Upper(WithTiebreaker(sql, end)), ORDER_BY) == RFind(Upper(sql), ORDER_BY)
  {
    hide RFind, IsClauseEnd;
    var u := Upper(sql);
    var pos := RFind(u, ORDER_BY);
    EndBehindWords(u, pos, end);
    EndInText(u, pos, end);
    var v := Upper(WithTiebreaker(sql, end));
    assert v[0..end] == u[0..end];
    OccursInSlice(u, ORDER_BY, 0, end, pos);
    OccursInSlice(v, ORDER_BY, 0, end, pos);
    forall k | pos < k ensures !OccursAt(v, ORDER_BY, k) {
      TiebreakerAddsNone(sql, end, pos, k);
    }
  }

  lemma EndInText(u: string, pos: nat, end: nat)
    requires IsClauseEnd(u, pos, end)
    ensures end <= |u|
  {
  }

  lemma TiebreakerAddsNone(sql: string, end: nat, pos: nat, k: nat)
    requires pos + 8 <= end <= |sql| && pos < k
    requires forall i :: pos < i ==> !OccursAt(Upper(sql), ORDER_BY, i)
    ensures !OccursAt(Upper(WithTiebreaker(sql, end)), ORDER_BY, k)
  {
    hide Upper, WithTiebreaker;
    var u, v, n := Upper(sql), Upper(WithTiebreaker(sql, end)), |TIEBREAKER|;
    TiebreakerText(sql, end);
    Slices(u[..end], ", _ROW_ID ASC", u[end..]);
    assert v[0..end] == u[0..end] && v[end + n..|v|] == u[end..|u|];
    if k + 8 <= end {
      OccursInSlice(u, ORDER_BY, 0, end, k);
      OccursInSlice(v, ORDER_BY, 0, end, k);
    } else if end + n <= k {
      OccursInSlice(u, ORDER_BY, end, |u|, k - end - n);
      OccursInSlice(v, ORDER_BY, end + n, |v|, k - end - n);
    } else {
      TiebreakerHasNone(v, end, k);
    }
  }

  lemma TiebreakerText(sql: string, end: nat)
    requires end <= |sql|
    ensures Upper(WithTiebreaker(sql, end)) == Upper(sql)[..end] + ", _ROW_ID ASC" + Upper(sql)[end..]
  {
    UpperConcat(sql[..end] + TIEBREAKER, sql[end..]);
    UpperConcat(sql[..end], TIEBREAKER);
    UpperConcat(sql[..end], sql[end..]);
    assert sql == sql[..end] + sql[end..];
    assert Upper(TIEBREAKER) == ", _ROW_ID ASC";
  }

  lemma Slices(a: string, m: string, t: string)
    ensures var u := a + m + t;
            u[..|a|] == a && u[|a|..|a| + |m|] == m && u[|a| + |m|..] == t
  {
  }

  lemma TiebreakerHasNone(v: string, end: nat, k: nat)
    requires end + 13 <= |v| && v[end..end + 13] == ", _ROW_ID ASC"
    requires end < k + 8 && k < end + 13
    ensures !OccursAt(v, ORDER_BY, k)
  {
    if k + 8 <= |v| {
      if k <= end {
        assert v[end] == ", _ROW_ID ASC"[0];
        assert forall j :: 0 <= j < 8 ==> ORDER_BY[j] != ',';
        Mismatch(v, ORDER_BY, k, end - k);
      } else {
        assert v[k] == ", _ROW_ID ASC"[k - end];
        if k == end + 4 {
          assert v[k + 1] == ", _ROW_ID ASC"[5];
          Mismatch(v, ORDER_BY, k, 1);
        } else {
          Mismatch(v, ORDER_BY, k, 0);
        }
      }
    }
  }

  /** Adding the tiebreaker does not change whether the query has an outer ORDER BY. */
  lemma TiebreakerKeepsOuter(sql: string, end: nat)
    requires RFind(Upper(sql), ORDER_BY) != -1
    requires IsClauseEnd(Upper(sql), RFind(Upper(sql), ORDER_BY), end)
    ensures HasOuterOrderBy(Upper(WithTiebreaker(sql, end))) <==> HasOuterOrderBy(Upper(sql))
  {
    hide RFind, Count, IsClauseEnd, Depth, Upper, WithTiebreaker;
    var u := Upper(sql);
    var pos := RFind(u, ORDER_BY);
    EndBehindWords(u, pos, end);
    EndInText(u, pos, end);
    OuterIsSuffixDepth(u);
    OuterIsSuffixDepth(Upper(WithTiebreaker(sql, end)));
    TiebreakerText(sql, end);
    TiebreakerKeepsLast(sql, end);
    var v := Upper(WithTiebreaker(sql, end));
    assert u[pos..] == u[pos..end] + u[end..];
    assert v[pos..] == u[pos..end] + ", _ROW_ID ASC" + u[end..];
    DepthConcat(u[pos..end], u[end..]);
    DepthConcat(u[pos..end] + ", _ROW_ID ASC", u[end..]);
    DepthConcat(u[pos..end], ", _ROW_ID ASC");
    NoParens(", _ROW_ID ASC");
  }
}
