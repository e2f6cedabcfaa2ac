/**
 Where the threading of `_row_id` puts it: at the level of the SELECT it is meant for, or deeper.
 */
module RowIdPlacement {
  import opened ClausePlacement
  import opened OuterClauses
  import opened RowIdThreading
  import opened SqlText

  lemma {:induction false} TameKeepsLevel(s: string, tame: string, pos: nat)
    requires pos <= |s| && forall k :: 0 <= k < |tame| ==> !IsQuote(tame[k]) && tame[k] != '(' && tame[k] != ')'
    ensures Unquoted(s + tame) <==> Unquoted(s)
    ensures Level(s + tame) == Level(s)
    ensures SameLevel(s + tame, pos, |s + tame|) <==> SameLevel(s, pos, |s|)
  {
    if tame == "" {
      assert s + tame == s;
    } else {
      var init, c := tame[..|tame| - 1], tame[|tame| - 1];
      TameKeepsLevel(s, init, pos);
      assert s + tame == s + init + [c];
      assert (s + tame)[..|s + tame| - 1] == s + init;
      QuoteStep(s + init, c);
    }
    assert (s + tame)[..|s + tame|] == s + tame && (s + tame)[..pos] == s[..pos] && s[..|s|] == s;
  }

  /**
   The inserted `_row_id` stands at the level of the last SELECT, and so in its list, exactly when
   the FROM it is put in front of does.
   */
  lemma InsertionAtLevelExactlyWhen(done: List<Piece>, t: Token)
    requires t.Keyword? && NeedsRowId(Output(done))
    ensures var pre, kept, out := Output(done), Output(DropSpace(done)), Output(Extend(done, t));
            var pos := RFind(Upper(pre), "SELECT");
            && 0 <= pos <= |kept| && out == kept + INSERTION + t.Text()
            && (SameLevel(kept + ", ", pos, |kept| + 2) <==> SameLevel(pre, pos, |pre|))
  {
    hide Level, Unquoted, RFind, NeedsRowId;
    var space := DropSpaceText(done, "");
    var pre, kept := Output(done), Output(DropSpace(done));
    SelectInKept(kept, space);
    PushFacts(Written(DropSpace(done)), INSERTION);
    var inserted := Cons(Inserted, DropSpace(done));
    assert Output(inserted) == kept + INSERTION;
    assert Extend(done, t) == Cons(Kept(t), inserted);
    var pos := RFind(Upper(pre), "SELECT");
    TameKeepsLevel(kept, space, pos);
    TameKeepsLevel(kept, ", ", pos);
  }

  /** A SELECT does not end in white space. */
  lemma SelectInKept(kept: string, space: string)
    requires AllSpace(space) && NeedsRowId(kept + space)
    ensures 0 <= RFind(Upper(kept + space), "SELECT") <= |kept|
  {
    var u := Upper(kept + space);
    forall k | |kept| <= k < |u| ensures !OccursAt(u, "SELECT", k) {
      assert u[k] == UpperChar(space[k - |kept|]);
      Mismatch(u, "SELECT", k, 0);
    }
  }

  /** Read plain text. */
  function PushKept(done: List<Piece>, s: string): List<Piece> {
    if s == "" then done else Cons(Kept(Plain(s[|s| - 1])), PushKept(done, s[..|s| - 1]))
  }

  predicate Tame(s: string) {
    forall k :: 0 <= k < |s| ==> !IsQuote(s[k]) && UpperChar(s[k]) != 'F'
  }

  lemma PlainFirst(afterWord: bool, s: string)
    requires s != "" && !IsQuote(s[0]) && UpperChar(s[0]) != 'F'
    ensures FirstToken(afterWord, s) == Plain(s[0])
  {
    if |s| >= 4 {
      assert Upper(s[..4])[0] == UpperChar(s[0]);
    }
  }

  lemma {:induction false} PushKeptOutput(done: List<Piece>, s: string)
    ensures Output(PushKept(done, s)) == Output(done) + s
  {
    if s == "" {
      assert Output(done) + s == Output(done);
    } else {
      PushKeptOutput(done, s[..|s| - 1]);
      assert Output(done) + s == Output(done) + s[..|s| - 1] + [s[|s| - 1]];
    }
  }

  lemma WeaveOne(done: List<Piece>, c: char, rest: string)
    requires !IsQuote(c) && UpperChar(c) != 'F'
    ensures Weave(done, [c] + rest) == Weave(Cons(Kept(Plain(c)), done), rest)
  {
    PlainFirst(LastWord(done), [c] + rest);
    hide FirstToken, NeedsRowId, LastWord;
    assert ([c] + rest)[1..] == rest;
  }

  lemma {:induction false} WeavePlain(done: List<Piece>, s: string, rest: string)
    requires Tame(s)
    ensures Weave(done, s + rest) == Weave(PushKept(done, s), rest)
  {
    hide Weave;
    if s == "" {
      assert s + rest == rest;
    } else {
      var init, c := s[..|s| - 1], s[|s| - 1];
      WeavePlain(done, init, [c] + rest);
      assert s + rest == init + ([c] + rest);
      WeaveOne(PushKept(done, init), c, rest);
    }
  }

  lemma WeaveFrom(done: List<Piece>, rest: string)
    requires !LastWord(done) && (rest == "" || !IsWord(rest[0]))
    ensures Weave(done, "FROM" + rest) == Weave(Extend(done, Keyword("FROM")), rest)
  {
    var s := "FROM" + rest;
    assert s[..4] == "FROM" && s[4..] == rest;
    assert Upper("FROM") == "FROM";
    assert FirstToken(false, s) == Keyword("FROM");
    hide FirstToken, NeedsRowId;
  }

  const EXTRACT_HEAD: string := "SELECT EXTRACT(YEAR"
  const EXTRACT_DONE: string := "SELECT EXTRACT(YEAR" + ", _row_id " + "FROM" + " D) "

  lemma OnlyFirstSelect(s: string)
    requires |s| >= 6 && Upper(s)[..6] == "SELECT" && forall k :: 1 <= k < |s| ==> UpperChar(s[k]) != 'S'
    ensures RFind(Upper(s), "SELECT") == 0
  {
    hide RFind;
    var u := Upper(s);
    assert OccursAt(u, "SELECT", 0);
    forall k | 1 <= k ensures !OccursAt(u, "SELECT", k) {
      if k < |u| {
        Mismatch(u, "SELECT", k, 0);
      }
    }
  }

  lemma ExtractNeeds()
    ensures NeedsRowId(EXTRACT_HEAD + " ")
  {
    hide RFind, Find;
    var s := EXTRACT_HEAD + " ";
    assert forall k :: 1 <= k < |s| ==> UpperChar(s[k]) != 'S';
    assert Upper(s)[..6] == "SELECT";
    OnlyFirstSelect(s);
    assert s[0..] == s;
    var l := Lower(s);
    assert forall k :: 0 <= k < |s| ==> s[k] != '_';
    forall k | 0 <= k ensures !OccursAt(l, ROW_ID, k) {
      if k < |l| {
        Mismatch(l, ROW_ID, k, 0);
      }
    }
  }

  lemma ExtractSelect()
    ensures RFind(Upper(EXTRACT_DONE), "SELECT") == 0
  {
    hide RFind;
    var s, tail := EXTRACT_DONE, ", _row_id " + "FROM" + " D) ";
    assert s == EXTRACT_HEAD + tail;
    assert forall k :: 0 <= k < |tail| ==> UpperChar(tail[k]) != 'S';
    assert forall k :: 1 <= k < |EXTRACT_HEAD| ==> UpperChar(EXTRACT_HEAD[k]) != 'S';
    assert Upper(s)[..6] == Upper(EXTRACT_HEAD)[..6] == "SELECT";
    OnlyFirstSelect(s);
  }

  lemma LowerMiddle(a: string, m: string, b: string)
    requires Lower(m) == m
    ensures OccursAt(Lower(a + m + b), m, |a|)
  {
    assert Lower(a + m + b)[|a|..|a| + |m|] == Lower(m);
  }

  lemma ServedSelect(s: string, k: nat)
    requires RFind(Upper(s), "SELECT") == 0 && OccursAt(Lower(s), ROW_ID, k)
    ensures !NeedsRowId(s)
  {
    hide RFind, Find, Upper;
    assert s[0..] == s;
  }

  lemma ExtractServed()
    ensures !NeedsRowId(EXTRACT_DONE)
  {
    hide RFind, Upper, NeedsRowId, Lower, OccursAt;
    ExtractSelect();
    var a, b := EXTRACT_HEAD + ", ", " " + "FROM" + " D) ";
    assert EXTRACT_DONE == a + ROW_ID + b;
    LowerRowId();
    LowerMiddle(a, ROW_ID, b);
    ServedSelect(EXTRACT_DONE, |a|);
  }

  lemma LowerRowId()
    ensures Lower(ROW_ID) == ROW_ID
  {
  }

  /**
   The FROM inside a function call is served in place of the query's own, which then counts as
   served: `_row_id` becomes an argument.
   */
  lemma ExtractGoesWrong()
    ensures Threaded("SELECT EXTRACT(YEAR" + " " + "FROM" + " D) " + "FROM" + " T") ==
            "SELECT EXTRACT(YEAR" + ", _row_id " + "FROM" + " D) " + "FROM" + " T"
    ensures !SameLevel(EXTRACT_HEAD + " ", 0, 20)
  {
    hide Weave, Extend, NeedsRowId;
    ExtractFirst();
    ExtractSecond();
    ExtractLevel();
  }

  function ExtractPieces(): List<Piece> {
    Cons(Kept(Keyword("FROM")), Cons(Inserted, Cons(Dropped(Plain(' ')), PushKept(Nil, EXTRACT_HEAD))))
  }

  lemma ExtractFirst()
    ensures Weave(Nil, EXTRACT_HEAD + " " + "FROM" + " D) " + "FROM" + " T") == Weave(ExtractPieces(), " D) " + "FROM" + " T")
    ensures Output(ExtractPieces()) == EXTRACT_HEAD + ", _row_id " + "FROM"
  {
    hide Weave, NeedsRowId, PushKept;
    var a, rest := EXTRACT_HEAD + " ", " D) " + "FROM" + " T";
    assert Tame(a);
    WeavePlain(Nil, a, "FROM" + rest);
    assert EXTRACT_HEAD + " " + "FROM" + " D) " + "FROM" + " T" == a + ("FROM" + rest);
    PushKeptOutput(Nil, a);
    PushKeptOutput(Nil, EXTRACT_HEAD);
    assert Output(Nil) + a == a && Output(Nil) + EXTRACT_HEAD == EXTRACT_HEAD;
    HeadPieces();
    ExtractNeeds();
    LastPushed(Nil, a);
    WeaveFrom(PushKept(Nil, a), rest);
    assert Extend(PushKept(Nil, a), Keyword("FROM")) == ExtractPieces();
    PushFacts(Written(PushKept(Nil, EXTRACT_HEAD)), INSERTION);
  }

  lemma HeadPieces()
    ensures PushKept(Nil, EXTRACT_HEAD + " ") == Cons(Kept(Plain(' ')), PushKept(Nil, EXTRACT_HEAD))
    ensures DropSpace(PushKept(Nil, EXTRACT_HEAD + " ")) == Cons(Dropped(Plain(' ')), PushKept(Nil, EXTRACT_HEAD))
  {
    var a := EXTRACT_HEAD + " ";
    assert a[..|a| - 1] == EXTRACT_HEAD;
    assert EXTRACT_HEAD[18] == 'R';
    assert PushKept(Nil, EXTRACT_HEAD) == Cons(Kept(Plain('R')), PushKept(Nil, EXTRACT_HEAD[..18]));
  }

  lemma ExtractSecond()
    ensures Output(Weave(ExtractPieces(), " D) " + "FROM" + " T")) ==
            EXTRACT_HEAD + ", _row_id " + "FROM" + " D) " + "FROM" + " T"
  {
    hide Weave, NeedsRowId, PushKept, ExtractPieces;
    ExtractFirst();
    var p := PushKept(ExtractPieces(), " D) ");
    WeavePlain(ExtractPieces(), " D) ", "FROM" + " T");
    assert " D) " + "FROM" + " T" == " D) " + ("FROM" + " T");
    PushKeptOutput(ExtractPieces(), " D) ");
    ExtractServed();
    LastPushed(ExtractPieces(), " D) ");
    WeaveFrom(p, " T");
    var q := Cons(Kept(Keyword("FROM")), p);
    WeavePlain(q, " T", "");
    assert " T" + "" == " T";
    PushKeptOutput(q, " T");
    WeaveNothing(PushKept(q, " T"));
  }

  lemma LastPushed(done: List<Piece>, s: string)
    requires s != "" && !IsWord(s[|s| - 1])
    ensures !LastWord(PushKept(done, s))
  {
  }

  lemma ExtractLevel()
    ensures !SameLevel(EXTRACT_HEAD + " ", 0, 20)
  {
    hide Level, Unquoted, Depth;
    var s := EXTRACT_HEAD + " ";
    assert forall k :: 0 <= k < |s| ==> !IsQuote(s[k]);
    assert forall k :: 0 <= k < |s| && k != 14 ==> s[k] != '(' && s[k] != ')';
    PlainText(s);
    OneParen(s, 14, '(');
    EmptyLevel();
    assert s[..20] == s && s[..0] == "";
  }
}
