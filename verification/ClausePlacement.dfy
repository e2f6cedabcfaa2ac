/**
 Where the text edits of `query_df` land: the ends of clauses as the scanners find them, against
 the ends they have once quotes and nesting are taken into account.
 */
module ClausePlacement {
  import opened OuterClauses
  import opened RowIdThreading
  import opened SqlText

  // ----- nesting outside quotes -----

  predicate Unquoted(s: string) {
    OpenQuote(s) == NoQuote
  }

  /** Parentheses opened and not closed, not counting those inside quotes. */
  function Level(s: string): int {
    if s == "" then 0
    else
      var init, c := s[..|s| - 1], s[|s| - 1];
      Level(init) + if !Unquoted(init) then 0 else if c == '(' then 1 else if c == ')' then -1 else 0
  }

  /** At `k` the text is outside quotes and at the level of position `pos`. */
  predicate SameLevel(u: string, pos: nat, k: nat) {
    pos <= k <= |u| && Unquoted(u[..k]) && Level(u[..k]) == Level(u[..pos])
  }

  lemma SpaceStep(u: string, pos: nat, k: nat)
    requires pos <= k < |u| && IsSpace(u[k])
    ensures SameLevel(u, pos, k + 1) <==> SameLevel(u, pos, k)
  {
    assert u[..k + 1][..k] == u[..k] && u[..k + 1][k] == u[k];
    assert !IsQuote(u[k]) && u[k] != '(' && u[k] != ')';
    QuoteStep(u[..k], u[k]);
  }

  lemma QuoteStep(s: string, c: char)
    requires !IsQuote(c)
    ensures OpenQuote(s + [c]) == OpenQuote(s)
  {
    assert (s + [c])[..|s|] == s;
    OpenIsQuote(s);
  }

  lemma {:induction false} OpenIsQuote(s: string)
    ensures OpenQuote(s).In? ==> IsQuote(OpenQuote(s).q)
  {
    if s != "" {
      OpenIsQuote(s[..|s| - 1]);
    }
  }

  lemma {:induction false} SpacesKeepLevel(u: string, pos: nat, a: nat, b: nat)
    requires pos <= a <= b <= |u| && AllSpace(u[a..b])
    ensures SameLevel(u, pos, a) <==> SameLevel(u, pos, b)
    decreases b - a
  {
    hide SameLevel;
    if a < b {
      assert u[a..b][b - 1 - a] == u[b - 1];
      assert AllSpace(u[a..b - 1]) by {
        assert u[a..b - 1] == u[a..b][..b - 1 - a];
      }
      SpaceStep(u, pos, b - 1);
      SpacesKeepLevel(u, pos, a, b - 1);
    }
  }

  // ----- clauses behind an ORDER BY -----

  /** `w` stands in `u` at `i` as a word of its own. */
  predicate WordAt(u: string, w: string, i: int) {
    && OccursAt(u, w, i)
    && (i == 0 || !IsWord(u[i - 1]))
    && (i + |w| == |u| || !IsWord(u[i + |w|]))
  }

  /** The clauses that come behind the ORDER BY clause of a query. */
  const CLAUSE_WORDS: seq<string> := ["LIMIT", "OFFSET", "FETCH", "SETTINGS"]

  ghost predicate ClauseWordAt(u: string, i: int) {
    exists w :: w in CLAUSE_WORDS && WordAt(u, w, i)
  }

  /** One of these stands at `k`, outside quotes and at the level of `pos`. */
  ghost predicate OwnWordAt(u: string, pos: nat, k: nat) {
    SameLevel(u, pos, k) && ClauseWordAt(u, k)
  }

  lemma SpacedWord(u: string, clause: string, i: int)
    requires clause in CLAUSE_WORDS && ClauseAt(u, clause, i)
    ensures 0 <= i < |u| && u[i] == ' ' && ClauseWordAt(u, i + 1)
  {
    var n := |clause|;
    var pat := if OccursAt(u, " " + clause + " ", i) then " " + clause + " " else " " + clause;
    OccursPart(u, pat, i, 0, 1);
    OccursPart(u, pat, i, 1, n + 1);
    assert pat[0..1] == " " && pat[1..n + 1] == clause;
    OccursChar(u, ' ', i);
    if |pat| == n + 2 {
      OccursPart(u, pat, i, n + 1, n + 2);
      assert pat[n + 1..n + 2] == " ";
      OccursChar(u, ' ', i + n + 1);
    }
    assert WordAt(u, clause, i + 1);
  }

  lemma OccursPart(u: string, pat: string, i: nat, a: nat, b: nat)
    requires OccursAt(u, pat, i) && a <= b <= |pat|
    ensures OccursAt(u, pat[a..b], i + a)
  {
    var x := u[i + a..i + b];
    forall k | 0 <= k < b - a ensures x[k] == pat[a..b][k] {
      assert x[k] == u[i + a + k] == u[i..i + |pat|][a + k];
    }
    assert x == pat[a..b];
  }

  // ----- the tie-breaker -----

  /** An ORDER BY clause at `pos` cannot go on at `k`: the text, its parenthesis or the query ends, or a clause begins. */
  ghost predicate StopsAt(u: string, pos: nat, k: nat) {
    k == |u| || (k < |u| && SameLevel(u, pos, k) && (u[k] == ')' || u[k] == ';' || ClauseWordAt(u, k)))
  }

  ghost predicate IsStop(u: string, pos: nat, stop: nat) {
    pos <= stop <= |u| && StopsAt(u, pos, stop) && forall k :: pos <= k < stop ==> !StopsAt(u, pos, k)
  }

  /** The clause at `pos` is a clause, and nothing of it comes behind `end`. */
  ghost predicate EndsClause(u: string, pos: nat, end: nat) {
    pos <= |u| && Unquoted(u[..pos]) && exists stop: nat :: IsStop(u, pos, stop) && pos <= end <= stop && AllSpace(u[end..stop])
  }

  /** What stops the clause although the scanner does not look for it. */
  ghost predicate MissedAt(u: string, pos: nat, k: nat) {
    && k < |u| && SameLevel(u, pos, k)
    && (u[k] == ')' || (ClauseWordAt(u, k) && !(k >= 1 && (OccursAt(u, " LIMIT ", k - 1) || OccursAt(u, " OFFSET ", k - 1)))))
  }

  lemma OrderIsNoClauseWord(u: string, pos: nat)
    requires OccursAt(u, ORDER_BY, pos)
    ensures !ClauseWordAt(u, pos)
  {
    assert u[pos..pos + 8][0] == u[pos] && u[pos..pos + 8][1] == u[pos + 1];
    forall w | w in CLAUSE_WORDS ensures !OccursAt(u, w, pos) {
      if w[0] == 'O' {
        Mismatch(u, w, pos, 1);
      } else {
        Mismatch(u, w, pos, 0);
      }
    }
  }

  /** The terminator at `end`, or the clause word behind its space, stops the clause. */
  lemma TerminatorStops(u: string, pos: nat, end: nat) returns (stop: nat)
    requires end < |u| && TerminatorAt(u, pos, end)
    ensures end <= stop <= end + 1 && stop < |u| && AllSpace(u[end..stop])
    ensures SameLevel(u, pos, stop) <==> SameLevel(u, pos, end)
    ensures u[stop] == ';' || ClauseWordAt(u, stop)
    ensures stop == end + 1 ==> u[end] == ' '
    ensures !AllSpace(u[end..])
  {
    hide Level, Unquoted;
    var t :| t in TERMINATORS && OccursAt(u, t, end);
    assert u[end..end + |t|] == t;
    if t == ";" {
      stop := end;
      assert u[end] == t[0];
      assert u[end..][0] == ';';
    } else {
      stop := end + 1;
      var clause := if t == " LIMIT " then "LIMIT" else "OFFSET";
      assert t == " " + clause + " ";
      SpacedWord(u, clause, end);
      SpaceStep(u, pos, end);
      assert u[end + 1] == t[1];
      assert u[end..][1] == t[1];
    }
  }

  lemma NothingBefore(u: string, pos: nat, end: nat, k: nat)
    requires IsClauseEnd(u, pos, end) && OccursAt(u, ORDER_BY, pos) && pos <= k < end
    ensures StopsAt(u, pos, k) <==> MissedAt(u, pos, k)
  {
    hide Level, Unquoted, ClauseWordAt;
    assert !TerminatorAt(u, pos, k);
    OccursChar(u, ';', k);
    assert [';'] == ";" && ";" in TERMINATORS;
    assert " LIMIT " in TERMINATORS && " OFFSET " in TERMINATORS;
    if k == pos {
      OrderIsNoClauseWord(u, pos);
    } else {
      assert !TerminatorAt(u, pos, k - 1);
    }
  }

  /**
   The tie-breaker goes to the end of the ORDER BY clause exactly when the ORDER BY is not quoted,
   the first terminator the scanner looks for, if any, is neither quoted nor nested deeper, and
   nothing it does not look for stops the clause before: a closing parenthesis, or a clause word
   that is not LIMIT or OFFSET between spaces.
   */
  lemma TiebreakerInClauseExactlyWhen(u: string, pos: nat, end: nat)
    requires IsClauseEnd(u, pos, end) && OccursAt(u, ORDER_BY, pos)
    ensures EndsClause(u, pos, end) <==>
            && Unquoted(u[..pos])
            && (end == |u| || SameLevel(u, pos, end))
            && (forall k :: pos <= k < end ==> !MissedAt(u, pos, k))
  {
    hide Level, Unquoted, SameLevel, MissedAt, TerminatorAt, ClauseWordAt;
    forall k | pos <= k < end ensures StopsAt(u, pos, k) <==> MissedAt(u, pos, k) {
      NothingBefore(u, pos, end, k);
    }
    if EndsClause(u, pos, end) {
      StopGivesEnd(u, pos, end);
    }
    if (end == |u| || SameLevel(u, pos, end)) && (forall k :: pos <= k < end ==> !MissedAt(u, pos, k)) {
      EndGivesStop(u, pos, end);
    }
  }

  lemma StopGivesEnd(u: string, pos: nat, end: nat)
    requires IsClauseEnd(u, pos, end) && EndsClause(u, pos, end)
    ensures (end == |u| || SameLevel(u, pos, end)) && forall k :: pos <= k < end ==> !StopsAt(u, pos, k)
  {
    hide Level, Unquoted, SameLevel, TerminatorAt, ClauseWordAt;
    var stop: nat :| IsStop(u, pos, stop) && pos <= end <= stop && AllSpace(u[end..stop]);
    if end < |u| {
      var _ := TerminatorStops(u, pos, end);
      assert stop != |u| by {
        assert u[end..|u|] == u[end..];
      }
      SpacesKeepLevel(u, pos, end, stop);
    }
  }

  lemma EndGivesStop(u: string, pos: nat, end: nat)
    requires IsClauseEnd(u, pos, end) && (end == |u| || SameLevel(u, pos, end))
    requires forall k :: pos <= k < end ==> !StopsAt(u, pos, k)
    ensures exists stop: nat :: IsStop(u, pos, stop) && pos <= end <= stop && AllSpace(u[end..stop])
  {
    hide Level, Unquoted, SameLevel, TerminatorAt;
    if end == |u| {
      assert IsStop(u, pos, end) && AllSpace(u[end..end]);
    } else {
      var stop := TerminatorStops(u, pos, end);
      assert StopsAt(u, pos, stop);
      if stop == end + 1 {
        SpaceIsNoStop(u, pos, end);
      }
      assert IsStop(u, pos, stop);
    }
  }

  lemma SpaceIsNoStop(u: string, pos: nat, k: nat)
    requires k < |u| && u[k] == ' '
    ensures !StopsAt(u, pos, k)
  {
    hide SameLevel;
    forall w | w in CLAUSE_WORDS ensures !OccursAt(u, w, k) {
      Mismatch(u, w, k, 0);
    }
  }

  // ----- inputs on which it does not -----

  const NESTED: string := "SELECT 1 ORDER BY (SELECT 2 LIMIT 1)"
  const QUOTED: string := "SELECT 1 ORDER BY ';'"

  lemma NotTerminatedAt(u: string, pos: nat, k: nat)
    requires k + 1 < |u| && u[k] != ';' && (u[k] == ' ' ==> u[k + 1] != 'L' && u[k + 1] != 'O')
    ensures !TerminatorAt(u, pos, k)
  {
    forall t | t in TERMINATORS ensures !OccursAt(u, t, k) {
      if t == ";" {
        Mismatch(u, t, k, 0);
      } else if u[k] != ' ' {
        Mismatch(u, t, k, 0);
      } else {
        Mismatch(u, t, k, 1);
      }
    }
  }

  lemma OrderByAt9(s: string)
    requires |s| >= 17 && s[9] == 'O' && s[10] == 'R' && s[11] == 'D' && s[12] == 'E' && s[13] == 'R'
    requires s[14] == ' ' && s[15] == 'B' && s[16] == 'Y'
    ensures OccursAt(s, ORDER_BY, 9)
  {
    assert s[9..17] == ORDER_BY;
  }

  lemma LastOrderBy(s: string, p: nat)
    requires OccursAt(s, ORDER_BY, p)
    requires forall k :: p < k < |s| && s[k] == 'O' ==> k + 1 < |s| && s[k + 1] != 'R'
    ensures RFind(s, ORDER_BY) == p
  {
    hide RFind;
    forall k | p < k ensures !OccursAt(s, ORDER_BY, k) {
      if k < |s| {
        if s[k] != 'O' {
          Mismatch(s, ORDER_BY, k, 0);
        } else {
          Mismatch(s, ORDER_BY, k, 1);
        }
      }
    }
  }

  lemma {:induction false} PlainText(s: string)
    requires forall k :: 0 <= k < |s| ==> !IsQuote(s[k])
    ensures Unquoted(s) && Level(s) == Depth(s)
  {
    if s != "" {
      PlainText(s[..|s| - 1]);
    }
  }

  lemma UpperAlready(s: string)
    requires forall k :: 0 <= k < |s| ==> !('a' <= s[k] <= 'z')
    ensures Upper(s) == s
  {
  }

  lemma NestedPosition()
    ensures RFind(NESTED, ORDER_BY) == 9
  {
    hide RFind;
    var s := NESTED;
    OrderByAt9(s);
    LastOrderBy(s, 9);
  }

  lemma NestedEnd()
    ensures IsClauseEnd(NESTED, 9, 27)
  {
    var s := NESTED;
    assert s[27..34] == " LIMIT " by {
      assert s[27] == ' ' && s[28] == 'L' && s[29] == 'I' && s[30] == 'M' && s[31] == 'I' && s[32] == 'T' && s[33] == ' ';
    }
    assert OccursAt(s, TERMINATORS[0], 27);
    forall k | 9 <= k < 27 ensures !TerminatorAt(s, 9, k) {
      assert s[k] == ' ' ==> k == 14 || k == 17 || k == 25;
      NotTerminatedAt(s, 9, k);
    }
  }

  lemma OneParen(s: string, p: nat, c: char)
    requires p < |s| && s[p] == c && (c == '(' || c == ')')
    requires forall k :: 0 <= k < |s| && k != p ==> s[k] != '(' && s[k] != ')'
    ensures Depth(s) == if c == '(' then 1 else -1
  {
    var left, right := s[..p], s[p + 1..];
    assert s == left + [c] + right;
    DepthConcat(left + [c], right);
    DepthConcat(left, [c]);
    NoParens(left);
    NoParens(right);
    assert [c][..0] == "";
  }

  lemma NestedLevels()
    ensures Upper(NESTED) == NESTED
    ensures Depth(NESTED[..9]) == 0 && Depth(NESTED) == 0
    ensures !SameLevel(NESTED, 9, 27)
  {
    hide Level, Unquoted, Depth;
    var s := NESTED;
    assert forall k :: 0 <= k < |s| ==> !IsQuote(s[k]) && !('a' <= s[k] <= 'z');
    assert forall k :: 0 <= k < |s| && k != 18 && k != 35 ==> s[k] != '(' && s[k] != ')';
    UpperAlready(s);
    NoParens(s[..9]);
    PlainText(s[..9]);
    PlainText(s[..27]);
    OneParen(s[..27], 18, '(');
    OneParen(s[27..], 8, ')');
    DepthConcat(s[..27], s[27..]);
    assert s == s[..27] + s[27..];
  }

  /** The terminator belongs to a subquery in the ORDER BY clause, and the tie-breaker goes there. */
  lemma NestedTerminatorGoesWrong()
    ensures HasOuterOrderBy(Upper(NESTED))
    ensures RFind(Upper(NESTED), ORDER_BY) == 9 && IsClauseEnd(Upper(NESTED), 9, 27)
    ensures WithTiebreaker(NESTED, 27) == "SELECT 1 ORDER BY (SELECT 2" + ", _row_id ASC" + " LIMIT 1)"
    ensures !EndsClause(Upper(NESTED), 9, 27)
  {
    hide RFind, IsClauseEnd, EndsClause, SameLevel, MissedAt, HasOuterOrderBy, Depth, Upper;
    NestedPosition();
    NestedEnd();
    NestedLevels();
    TiebreakerInClauseExactlyWhen(NESTED, 9, 27);
    SuffixTestIsPrefixDepth(NESTED);
    assert NESTED[..27] == "SELECT 1 ORDER BY (SELECT 2" && NESTED[27..] == " LIMIT 1)";
  }

  lemma QuotedFound()
    ensures Upper(QUOTED) == QUOTED && RFind(QUOTED, ORDER_BY) == 9 && IsClauseEnd(QUOTED, 9, 19)
    ensures Depth(QUOTED) == 0 && Depth(QUOTED[..9]) == 0
  {
    hide RFind, Depth;
    var s := QUOTED;
    OrderByAt9(s);
    LastOrderBy(s, 9);
    assert forall k :: 0 <= k < |s| ==> !('a' <= s[k] <= 'z') && s[k] != '(' && s[k] != ')';
    UpperAlready(s);
    NoParens(s);
    NoParens(s[..9]);
    assert s[19..20] == ";" && TERMINATORS[2] == ";";
    assert OccursAt(s, TERMINATORS[2], 19);
    forall k | 9 <= k < 19 ensures !TerminatorAt(s, 9, k) {
      assert s[k] == ' ' ==> k == 14 || k == 17;
      NotTerminatedAt(s, 9, k);
    }
  }

  /** The terminator is inside a literal, and so is the tie-breaker. */
  lemma QuotedTerminatorGoesWrong()
    ensures HasOuterOrderBy(Upper(QUOTED))
    ensures RFind(Upper(QUOTED), ORDER_BY) == 9 && IsClauseEnd(Upper(QUOTED), 9, 19)
    ensures WithTiebreaker(QUOTED, 19) == "SELECT 1 ORDER BY '" + ", _row_id ASC" + ";'"
    ensures !EndsClause(Upper(QUOTED), 9, 19)
  {
    hide RFind, IsClauseEnd, EndsClause, Level, MissedAt, HasOuterOrderBy, Depth, Upper;
    var s := QUOTED;
    QuotedFound();
    assert forall k :: 0 <= k < 18 ==> !IsQuote(s[k]);
    PlainText(s[..18]);
    assert s[..19][..18] == s[..18] && s[..19][18] == '\'';
    assert !SameLevel(s, 9, 19);
    TiebreakerInClauseExactlyWhen(s, 9, 19);
    SuffixTestIsPrefixDepth(s);
    assert s[..19] == "SELECT 1 ORDER BY '" && s[19..] == ";'";
  }

  // ----- the place of an added ORDER BY -----

  predicate WindowAt(u: string, i: int) {
    ClauseAt(u, "LIMIT", i) || ClauseAt(u, "OFFSET", i)
  }

  /** The clause of the query itself that comes first begins behind the space at `cut`, or there is none. */
  ghost predicate IsOwnCut(u: string, cut: int) {
    && (cut != -1 ==> 0 <= cut && OwnWordAt(u, 0, cut + 1))
    && forall i: nat :: (cut == -1 || i <= cut) ==> !OwnWordAt(u, 0, i)
  }

  /** Parentheses opened and not closed inside quotes. */
  function Masked(s: string): int {
    Depth(s) - Level(s)
  }

  lemma WindowInText(u: string, i: int)
    requires WindowAt(u, i)
    ensures 0 <= i < |u| && u[i] == ' ' && ClauseWordAt(u, i + 1)
  {
    if ClauseAt(u, "LIMIT", i) {
      SpacedWord(u, "LIMIT", i);
    } else {
      SpacedWord(u, "OFFSET", i);
    }
  }

  /**
   A clause of the query itself that the search passes over: one that is not LIMIT or OFFSET set
   off by spaces or the end of the text, or that unmatched parentheses inside quotes hide.
   */
  ghost predicate OverlookedAt(u: string, i: nat) {
    OwnWordAt(u, 0, i) && (!(i >= 1 && WindowAt(u, i - 1)) || Masked(u[..i]) != 0)
  }

  lemma RawOuter(u: string, i: int)
    requires WindowAt(u, i)
    ensures 0 <= i < |u|
    ensures OuterAt(u, "LIMIT", i) || OuterAt(u, "OFFSET", i) <==> Depth(u[..i]) == 0
    ensures Depth(u[..i + 1]) == Depth(u[..i])
    ensures OwnWordAt(u, 0, i + 1) <==> Unquoted(u[..i]) && Level(u[..i]) == 0
  {
    hide ClauseAt, ClauseWordAt;
    WindowInText(u, i);
    SpaceStep(u, 0, i);
    assert u[..i + 1] == u[..i] + [u[i]];
    DepthConcat(u[..i], [u[i]]);
    NoParens([u[i]]);
    assert u[..0] == "";
  }

  /**
   The ORDER BY is added in front of the query's own first LIMIT, OFFSET, FETCH or SETTINGS, or at
   the end if there is none, exactly when the clause it is put in front of is neither quoted nor
   behind unmatched quoted parentheses, and the search passes over none before it.
   */
  lemma CutRightExactlyWhen(sql: string, cut: int)
    requires -1 <= cut <= |sql| && IsCut(sql, cut)
    ensures var u := Upper(sql);
            IsOwnCut(u, cut) <==>
            && (cut != -1 ==> Unquoted(u[..cut]) && Masked(u[..cut]) == 0)
            && (forall i: nat :: (cut == -1 || i <= cut) ==> !OverlookedAt(u, i))
  {
    hide Level, Unquoted, ClauseAt, Upper, Depth, OwnWordAt;
    var u := Upper(sql);
    if cut != -1 {
      assert WindowAt(u, cut);
      RawOuter(u, cut);
    }
    forall i: nat | cut == -1 || i <= cut ensures OwnWordAt(u, 0, i) <==> OverlookedAt(u, i) {
      if i >= 1 && WindowAt(u, i - 1) && OwnWordAt(u, 0, i) {
        RawOuter(u, i - 1);
        OwnWordLevel(u, i);
      }
    }
  }

  lemma OwnWordLevel(u: string, i: nat)
    requires OwnWordAt(u, 0, i)
    ensures i <= |u| && Level(u[..i]) == 0
  {
    assert u[..0] == "";
  }

  lemma PlainMasked(s: string)
    requires forall k :: 0 <= k < |s| ==> !IsQuote(s[k])
    ensures Unquoted(s) && Masked(s) == 0
  {
    PlainText(s);
  }

  /** Text without quotes, with every clause of the query itself set off by spaces, is cut in the right place. */
  lemma PlainCutRight(sql: string, cut: int)
    requires -1 <= cut <= |sql| && IsCut(sql, cut) && forall k :: 0 <= k < |sql| ==> !IsQuote(sql[k])
    requires forall i: nat :: OwnWordAt(Upper(sql), 0, i) ==> i >= 1 && WindowAt(Upper(sql), i - 1)
    ensures IsOwnCut(Upper(sql), cut)
  {
    hide Level, Unquoted, ClauseAt, Depth, IsCut, IsOwnCut, WindowAt, Masked, OwnWordAt;
    var u := Upper(sql);
    forall i | 0 <= i <= |u| ensures Unquoted(u[..i]) && Masked(u[..i]) == 0 {
      PlainMasked(u[..i]);
    }
    forall i: nat | OwnWordAt(u, 0, i) ensures i <= |u| {
      OwnWordLevel(u, i);
    }
    CutRightExactlyWhen(sql, cut);
  }

  const LITERAL: string := "SELECT ' LIMIT '"

  lemma LiteralLimit()
    ensures OuterAt(LITERAL, "LIMIT", 8)
  {
    var s := LITERAL;
    assert s[8..15] == " " + "LIMIT" + " " by {
      assert s[8] == ' ' && s[9] == 'L' && s[10] == 'I' && s[11] == 'M' && s[12] == 'I' && s[13] == 'T' && s[14] == ' ';
    }
    assert forall k :: 0 <= k < 8 ==> s[k] != '(' && s[k] != ')';
    NoParens(s[..8]);
    hide Count;
  }

  lemma LiteralCut()
    ensures Upper(LITERAL) == LITERAL && IsCut(LITERAL, 8)
  {
    var s := LITERAL;
    assert forall k :: 0 <= k < |s| ==> !('a' <= s[k] <= 'z');
    UpperAlready(s);
    LiteralLimit();
    hide Balanced, ClauseAt, Upper;
    forall i | i < 8 ensures !OuterAt(s, "LIMIT", i) && !OuterAt(s, "OFFSET", i) {
      assert 0 <= i && s[i] == ' ' ==> i == 6;
      NoWindow(s, i);
    }
  }

  lemma NoWindow(s: string, i: int)
    requires 0 <= i < |s| && s[i] == ' ' ==> i + 1 < |s| && s[i + 1] != 'L' && s[i + 1] != 'O'
    ensures !WindowAt(s, i)
  {
    if 0 <= i < |s| {
      forall pat: string | pat in [" " + "LIMIT" + " ", " " + "LIMIT", " " + "OFFSET" + " ", " " + "OFFSET"]
        ensures !OccursAt(s, pat, i)
      {
        if s[i] == ' ' {
          Mismatch(s, pat, i, 1);
        } else {
          Mismatch(s, pat, i, 0);
        }
      }
    }
  }

  /** A LIMIT inside a literal is taken for the query's own. */
  lemma QuotedLimitGoesWrong()
    ensures IsCut(LITERAL, 8) && !IsOwnCut(Upper(LITERAL), 8)
    ensures WithOrder(LITERAL, 8) == "SELECT '" + " ORDER BY _row_id" + " " + "LIMIT '"
  {
    var s := LITERAL;
    LiteralCut();
    hide IsCut, IsOwnCut, OverlookedAt, Depth, Level, ClauseAt, WindowAt;
    assert forall k :: 0 <= k < |s| ==> !('a' <= s[k] <= 'z');
    UpperAlready(s);
    assert forall k :: 0 <= k < 7 ==> !IsQuote(s[k]);
    PlainText(s[..7]);
    assert s[..8][..7] == s[..7] && s[..8][7] == '\'';
    CutRightExactlyWhen(s, 8);
    assert s[..8] == "SELECT '" && s[8..] == " LIMIT '";
    assert Strip("SELECT '") == "SELECT '";
    assert " LIMIT '"[1..] == "LIMIT '";
    assert Strip(" LIMIT '") == "LIMIT '";
  }

  const NEWLINE_LIMIT: string := "SELECT A FROM T\nLIMIT 5"

  lemma LimitAt(s: string, i: nat)
    requires 0 < i && i + 6 <= |s| && !IsWord(s[i - 1]) && !IsWord(s[i + 5])
    requires s[i] == 'L' && s[i + 1] == 'I' && s[i + 2] == 'M' && s[i + 3] == 'I' && s[i + 4] == 'T'
    ensures ClauseWordAt(s, i)
  {
    assert s[i..i + 5] == "LIMIT";
    assert CLAUSE_WORDS[0] == "LIMIT" && WordAt(s, CLAUSE_WORDS[0], i);
  }

  /** A LIMIT on a line of its own is passed over, and the ORDER BY goes behind it. */
  lemma NewlineLimitGoesWrong()
    ensures IsCut(NEWLINE_LIMIT, -1) && !IsOwnCut(Upper(NEWLINE_LIMIT), -1)
    ensures WithOrder(NEWLINE_LIMIT, -1) == "SELECT A FROM T\nLIMIT 5" + " ORDER BY _row_id"
  {
    hide Depth, Level, Unquoted, ClauseAt, ClauseWordAt;
    var s := NEWLINE_LIMIT;
    assert forall k :: 0 <= k < |s| ==> !IsQuote(s[k]) && !('a' <= s[k] <= 'z') && s[k] != '(' && s[k] != ')';
    UpperAlready(s);
    hide Upper;
    forall i: int ensures !OuterAt(s, "LIMIT", i) && !OuterAt(s, "OFFSET", i) {
      assert 0 <= i < |s| && s[i] == ' ' ==> i == 6 || i == 8 || i == 13 || i == 21;
      NoWindow(s, i);
    }
    LimitAt(s, 16);
    PlainLevel(s, 0, 16);
    assert OwnWordAt(s, 0, 16);
  }

  /** Without quotes and parentheses every position is at one level. */
  lemma PlainLevel(s: string, pos: nat, k: nat)
    requires pos <= k <= |s|
    requires forall i :: 0 <= i < k ==> !IsQuote(s[i]) && s[i] != '(' && s[i] != ')'
    ensures SameLevel(s, pos, k)
  {
    PlainText(s[..pos]);
    PlainText(s[..k]);
    NoParens(s[..pos]);
    NoParens(s[..k]);
  }

  const NEWLINE_ORDER: string := "SELECT 1 ORDER BY A\nLIMIT 5"

  lemma NewlineOrderEnd()
    ensures Upper(NEWLINE_ORDER) == NEWLINE_ORDER && RFind(NEWLINE_ORDER, ORDER_BY) == 9 && IsClauseEnd(NEWLINE_ORDER, 9, 27)
  {
    hide RFind;
    var s := NEWLINE_ORDER;
    OrderByAt9(s);
    LastOrderBy(s, 9);
    assert forall k :: 0 <= k < |s| ==> !('a' <= s[k] <= 'z');
    UpperAlready(s);
    forall k | TerminatorAt(s, 9, k) ensures 27 <= k {
      if k < 26 {
        assert s[k] == ' ' ==> k == 14 || k == 17 || k == 25;
        NotTerminatedAt(s, 9, k);
      } else {
        LastIsNoTerminator(s, 9, k);
      }
    }
  }

  lemma LastIsNoTerminator(u: string, pos: nat, k: nat)
    requires k + 1 == |u| ==> u[k] != ';'
    requires k + 1 >= |u|
    ensures TerminatorAt(u, pos, k) ==> k >= |u|
  {
    forall t | t in TERMINATORS && k + 1 == |u| ensures !OccursAt(u, t, k) {
      if t == ";" {
        Mismatch(u, t, k, 0);
      }
    }
  }

  /** The tie-breaker, too, goes behind a LIMIT on a line of its own. */
  lemma NewlineOrderGoesWrong()
    ensures RFind(Upper(NEWLINE_ORDER), ORDER_BY) == 9 && IsClauseEnd(Upper(NEWLINE_ORDER), 9, 27)
    ensures WithTiebreaker(NEWLINE_ORDER, 27) == "SELECT 1 ORDER BY A\nLIMIT 5" + ", _row_id ASC"
    ensures !EndsClause(Upper(NEWLINE_ORDER), 9, 27)
  {
    hide RFind, IsClauseEnd, EndsClause, Level, Unquoted, Depth, Upper;
    var s := NEWLINE_ORDER;
    NewlineOrderEnd();
    assert forall k :: 0 <= k < |s| ==> !IsQuote(s[k]) && s[k] != '(' && s[k] != ')';
    LimitAt(s, 20);
    PlainLevel(s, 9, 20);
    Mismatch(s, " LIMIT ", 19, 0);
    Mismatch(s, " OFFSET ", 19, 0);
    assert MissedAt(s, 9, 20);
    TiebreakerInClauseExactlyWhen(s, 9, 27);
    assert s[..27] == s && s[27..] == "";
  }

  // ----- the outer ORDER BY test -----

  /** An ORDER BY of the query itself stands at `k`. */
  predicate OwnOrderAt(u: string, k: nat) {
    OccursAt(u, ORDER_BY, k) && SameLevel(u, 0, k)
  }

  /**
   On balanced text whose depth never goes below zero, and with no quoted parentheses before the
   last ORDER BY, the outer test says whether the query has an ORDER BY of its own exactly when,
   if it has one, the last ORDER BY of the text is one.
   */
  lemma OuterTestExactlyWhen(u: string)
    requires Balanced(u) && forall k :: 0 <= k <= |u| ==> Depth(u[..k]) >= 0
    requires var p := RFind(u, ORDER_BY); p != -1 ==> Unquoted(u[..p]) && Masked(u[..p]) == 0
    ensures (HasOuterOrderBy(u) <==> exists k: nat :: OwnOrderAt(u, k)) <==>
            ((exists k: nat :: OwnOrderAt(u, k)) ==> OwnOrderAt(u, RFind(u, ORDER_BY)))
  {
    hide RFind, HasOuterOrderBy, Unquoted, Level, Depth, Balanced;
    var p := RFind(u, ORDER_BY);
    SuffixTestIsPrefixDepth(u);
    EmptyLevel();
    assert u[..0] == "";
    if p == -1 {
      assert forall k: nat :: !OwnOrderAt(u, k);
    } else {
      assert OwnOrderAt(u, p) <==> Level(u[..p]) == 0;
      assert HasOuterOrderBy(u) <==> OwnOrderAt(u, p);
    }
  }

  lemma EmptyLevel()
    ensures Level("") == 0
  {
  }

  const ORDERED_TWICE: string := "ORDER BY (SELECT 1 ORDER BY 2)"

  /** An ORDER BY of the query itself with another nested in it fails the test. */
  lemma NestedOrderHidesOwn()
    ensures OwnOrderAt(ORDERED_TWICE, 0) && !HasOuterOrderBy(ORDERED_TWICE)
  {
    hide RFind, HasOuterOrderBy, Level, Unquoted, Depth;
    var s := ORDERED_TWICE;
    assert s[0..8] == ORDER_BY by {
      assert s[0] == 'O' && s[1] == 'R' && s[2] == 'D' && s[3] == 'E' && s[4] == 'R' && s[5] == ' ' && s[6] == 'B' && s[7] == 'Y';
    }
    PlainLevel(s, 0, 0);
    assert s[19..27] == ORDER_BY by {
      assert s[19] == 'O' && s[20] == 'R' && s[21] == 'D' && s[22] == 'E' && s[23] == 'R' && s[24] == ' ' && s[25] == 'B' && s[26] == 'Y';
    }
    LastOrderBy(s, 19);
    OuterIsSuffixDepth(s);
    OneParen(s[19..], 10, ')');
  }

  const SETTINGS_LAST: string := "SELECT A FROM T SETTINGS B=1"

  lemma SettingsAt16(s: string)
    requires |s| > 24 && !IsWord(s[15]) && !IsWord(s[24]) && s[16] == 'S' && s[17] == 'E' && s[18] == 'T'
    requires s[19] == 'T' && s[20] == 'I' && s[21] == 'N' && s[22] == 'G' && s[23] == 'S'
    ensures ClauseWordAt(s, 16)
  {
    assert s[16..24] == "SETTINGS";
    assert CLAUSE_WORDS[3] == "SETTINGS" && WordAt(s, CLAUSE_WORDS[3], 16);
  }

  /** The settings a store appends are passed over as well. */
  lemma SettingsGoWrong()
    ensures IsCut(SETTINGS_LAST, -1) && !IsOwnCut(Upper(SETTINGS_LAST), -1)
  {
    hide Depth, Level, Unquoted, ClauseAt, ClauseWordAt;
    var s := SETTINGS_LAST;
    assert forall k :: 0 <= k < |s| ==> !IsQuote(s[k]) && !('a' <= s[k] <= 'z') && s[k] != '(' && s[k] != ')';
    UpperAlready(s);
    hide Upper;
    forall i: int ensures !OuterAt(s, "LIMIT", i) && !OuterAt(s, "OFFSET", i) {
      assert 0 <= i < |s| && s[i] == ' ' ==> i == 6 || i == 8 || i == 13 || i == 15 || i == 24;
      NoWindow(s, i);
    }
    SettingsAt16(s);
    PlainLevel(s, 0, 16);
    assert OwnWordAt(s, 0, 16);
  }
}
