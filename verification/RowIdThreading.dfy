/**
 `_add_row_id_to_all_selects`: threading the `_row_id` column through every SELECT.

 The source is one loop over the text that keeps a list of chunks.  It is proved equal to a
 specification that reads the text token by token (quoted spans, FROM keywords, plain
 characters) and records what happens to each token.  Histories are lists, latest first.
 */
module RowIdThreading {
  import opened SqlText

  const ROW_ID: string := "_row_id"
  const INSERTION: string := ", _row_id "

  datatype List<T> = Nil | Cons(head: T, tail: List<T>)

  datatype Token =
    | Quoted(text: string)    // a closed quoted span, both quotes included
    | Unclosed(text: string)  // an opening quote without a partner, up to the end of the text
    | Keyword(text: string)   // FROM at word boundaries, in its original case
    | Plain(c: char)
  {
    function Text(): string {
      if Plain? then [c] else text
    }
  }

  // ----- tokens -----

  /** A FROM keyword starts `s`; `afterWord` says whether a word character precedes `s`. */
  predicate StartsKeyword(afterWord: bool, s: string) {
    !afterWord && |s| >= 4 && Upper(s[..4]) == "FROM" && (|s| == 4 || !IsWord(s[4]))
  }

  /** The first token of a non-empty text. */
  function FirstToken(afterWord: bool, s: string): (t: Token)
    requires s != ""
    ensures 0 < |t.Text()| <= |s|
  {
    if IsQuote(s[0]) then
      var end := Find(s, [s[0]], 1);
      if end == -1 then Unclosed(s) else Quoted(s[..end + 1])
    else if StartsKeyword(afterWord, s) then Keyword(s[..4])
    else Plain(s[0])
  }

  predicate EndsInWord(t: Token) {
    t.Keyword? || (t.Plain? && IsWord(t.c))
  }

  /** `t` is the token read at its place when the text `rest` follows it. */
  predicate HeadOk(afterWord: bool, t: Token, rest: string) {
    match t
    case Quoted(q) =>
      |q| >= 2 && IsQuote(q[0]) && q[|q| - 1] == q[0] && forall k :: 1 <= k < |q| - 1 ==> q[k] != q[0]
    case Unclosed(q) =>
      |q| >= 1 && IsQuote(q[0]) && (forall k :: 1 <= k < |q| ==> q[k] != q[0]) && rest == ""
    case Keyword(k) =>
      !afterWord && |k| == 4 && Upper(k) == "FROM" && (rest == "" || !IsWord(rest[0]))
    case Plain(c) =>
      !IsQuote(c) && !StartsKeyword(afterWord, [c] + rest)
  }

  lemma FirstTokenOk(afterWord: bool, s: string)
    requires s != ""
    ensures var t := FirstToken(afterWord, s); var n := |t.Text()|;
            s == t.Text() + s[n..] && HeadOk(afterWord, t, s[n..])
  {
    hide Find, OccursAt;
    var t := FirstToken(afterWord, s);
    assert s == t.Text() + s[|t.Text()|..];
    if IsQuote(s[0]) {
      forall k ensures OccursAt(s, [s[0]], k) <==> 0 <= k < |s| && s[k] == s[0] {
        OccursChar(s, s[0], k);
      }
    }
  }

  lemma HeadIsFirstToken(afterWord: bool, t: Token, rest: string)
    requires HeadOk(afterWord, t, rest)
    ensures t.Text() != "" && FirstToken(afterWord, t.Text() + rest) == t
  {
    hide Find, OccursAt;
    var s := t.Text() + rest;
    assert s[..|t.Text()|] == t.Text();
    if t.Quoted? || t.Unclosed? {
      forall k ensures OccursAt(s, [s[0]], k) <==> 0 <= k < |s| && s[k] == s[0] {
        OccursChar(s, s[0], k);
      }
      assert t.Quoted? ==> OccursAt(s, [s[0]], |t.text| - 1);
    }
  }

  function TextOf(ts: List<Token>): string {
    match ts
    case Nil => ""
    case Cons(t, before) => TextOf(before) + t.Text()
  }

  predicate AfterWord(ts: List<Token>) {
    ts.Cons? && EndsInWord(ts.head)
  }

  /** Each token of `ts` is the one read at its place, when the text `rest` follows. */
  predicate Lexed(ts: List<Token>, rest: string) {
    match ts
    case Nil => true
    case Cons(t, before) => HeadOk(AfterWord(before), t, rest) && Lexed(before, t.Text() + rest)
  }

  // ----- the specification -----

  /** What happens to each token of the input, and where `, _row_id ` goes. */
  datatype Piece = Kept(t: Token) | Dropped(t: Token) | Inserted

  /** The text read so far: kept and dropped tokens. */
  function Input(ps: List<Piece>): string {
    match ps
    case Nil => ""
    case Cons(p, before) => Input(before) + if p.Inserted? then "" else p.t.Text()
  }

  function Push(ts: List<Token>, s: string): List<Token> {
    if s == "" then ts else Cons(Plain(s[|s| - 1]), Push(ts, s[..|s| - 1]))
  }

  /** The tokens written so far: kept ones and the insertions. */
  function Written(ps: List<Piece>): List<Token> {
    match ps
    case Nil => Nil
    case Cons(Kept(t), before) => Cons(t, Written(before))
    case Cons(Dropped(_), before) => Written(before)
    case Cons(Inserted, before) => Push(Written(before), INSERTION)
  }

  function Output(ps: List<Piece>): string {
    TextOf(Written(ps))
  }

  /** There is a SELECT in `preceding`, and no `_row_id` from the last one on. */
  predicate NeedsRowId(preceding: string) {
    var pos := RFind(Upper(preceding), "SELECT");
    pos != -1 && Find(Lower(preceding[pos..]), ROW_ID, 0) == -1
  }

  predicate KeptSpace(p: Piece) {
    p.Kept? && p.t.Plain? && IsSpace(p.t.c)
  }

  /** Drop the whitespace written last. */
  function DropSpace(ps: List<Piece>): List<Piece> {
    if ps.Cons? && KeptSpace(ps.head) then Cons(Dropped(ps.head.t), DropSpace(ps.tail)) else ps
  }

  /** What becomes of the next token. */
  function Extend(done: List<Piece>, t: Token): List<Piece> {
    if t.Keyword? && NeedsRowId(Output(done)) then Cons(Kept(t), Cons(Inserted, DropSpace(done)))
    else Cons(Kept(t), done)
  }

  predicate LastWord(ps: List<Piece>) {
    ps.Cons? && ps.head.Kept? && EndsInWord(ps.head.t)
  }

  /** Read the rest `s` of the text. */
  function Weave(done: List<Piece>, s: string): List<Piece>
    decreases |s|
  {
    if s == "" then done
    else
      var t := FirstToken(LastWord(done), s);
      Weave(Extend(done, t), s[|t.Text()|..])
  }

  function Pieces(sql: string): List<Piece> {
    Weave(Nil, sql)
  }

  /** The text with `_row_id` threaded through. */
  function Threaded(sql: string): string {
    Output(Pieces(sql))
  }

  // ----- nothing else is changed -----

  datatype Next = End | Before(p: Piece)

  /** `p` is well placed in front of `next`. */
  predicate PieceOk(p: Piece, next: Next) {
    match p
    case Kept(_) => true
    case Dropped(t) => t.Plain? && IsSpace(t.c) && next.Before? && !next.p.Kept?
    case Inserted => next.Before? && next.p.Kept? && next.p.t.Keyword?
  }

  /** An insertion stands directly before a FROM keyword; only whitespace in front of it is dropped. */
  predicate Placed(ps: List<Piece>, next: Next) {
    match ps
    case Nil => true
    case Cons(p, before) => PieceOk(p, next) && Placed(before, Before(p))
  }

  lemma {:induction false} KeptPlaced(ps: List<Piece>, a: Next, b: Next)
    requires Placed(ps, a) && (ps.Cons? ==> ps.head.Kept?)
    ensures Placed(ps, b)
  {
  }

  lemma {:induction false} DropSpacePlaced(ps: List<Piece>, next: Next, inner: Next)
    requires Placed(ps, inner) && next.Before? && !next.p.Kept?
    requires ps.Cons? && !ps.head.Kept? ==> inner.Before? && KeptSpace(inner.p)
    ensures Placed(DropSpace(ps), next)
    ensures Input(DropSpace(ps)) == Input(ps)
  {
    if ps.Cons? && KeptSpace(ps.head) {
      DropSpacePlaced(ps.tail, Before(Dropped(ps.head.t)), Before(ps.head));
    }
  }

  /** One token: nothing is lost and the pieces stay well placed. */
  lemma ExtendConserves(done: List<Piece>, t: Token)
    requires Placed(done, End) && (done.Cons? ==> done.head.Kept?)
    ensures Placed(Extend(done, t), End) && Extend(done, t).Cons? && Extend(done, t).head.Kept?
    ensures Input(Extend(done, t)) == Input(done) + t.Text()
  {
    hide NeedsRowId;
    if t.Keyword? && NeedsRowId(Output(done)) {
      DropSpacePlaced(done, Before(Inserted), End);
    } else {
      KeptPlaced(done, End, Before(Kept(t)));
    }
  }

  lemma {:induction false} WeaveConserves(done: List<Piece>, s: string)
    requires Placed(done, End) && (done.Cons? ==> done.head.Kept?)
    ensures Placed(Weave(done, s), End)
    ensures Input(Weave(done, s)) == Input(done) + s
    decreases |s|
  {
    hide NeedsRowId, FirstToken, Extend, Placed, HeadOk;
    if s != "" {
      var t := FirstToken(LastWord(done), s);
      var rest := s[|t.Text()|..];
      FirstTokenOk(LastWord(done), s);
      ExtendConserves(done, t);
      WeaveConserves(Extend(done, t), rest);
      assert Input(done) + t.Text() + rest == Input(done) + (t.Text() + rest);
    }
  }

  /**
   The output is the input with `, _row_id ` inserted before some FROM keywords and the whitespace
   in front of those insertions dropped; every other character, quoted spans included, is copied.
   */
  lemma OnlyInsertions(sql: string)
    ensures Input(Pieces(sql)) == sql
    ensures Output(Pieces(sql)) == Threaded(sql)
    ensures Placed(Pieces(sql), End)
  {
    WeaveConserves(Nil, sql);
    assert Input(Nil) + sql == sql;
  }

  // ----- every FROM keyword is served -----

  lemma InsertionHidesNoSelect(kept: string, q: nat)
    requires OccursAt(Upper(kept + INSERTION), "SELECT", q)
    ensures q + 6 <= |kept|
  {
    var u := Upper(kept + INSERTION);
    assert u[q] == u[q..q + 6][0] == 'S';
    assert forall k :: |kept| <= k < |u| ==> u[k] == UpperChar(INSERTION[k - |kept|]);
    assert forall k :: 0 <= k < 10 ==> UpperChar(INSERTION[k]) != 'S';
    forall i | q <= i < q + 6 ensures u[i] != ',' {
      assert u[i] == u[q..q + 6][i - q];
    }
    assert u[|kept|] == ',';
  }

  lemma RowIdInInsertion(kept: string, q: nat)
    requires q <= |kept|
    ensures OccursAt(Lower((kept + INSERTION)[q..]), ROW_ID, |kept| + 2 - q)
  {
    var clause, at := Lower((kept + INSERTION)[q..]), |kept| + 2 - q;
    forall j | 0 <= j < 7 ensures clause[at..at + 7][j] == ROW_ID[j] {
      assert (kept + INSERTION)[q..][at + j] == INSERTION[2 + j] == ROW_ID[j];
    }
  }

  /** After the insertion the last SELECT is followed by `_row_id`. */
  lemma InsertionServes(kept: string, space: string)
    requires AllSpace(space) && NeedsRowId(kept + space)
    ensures !NeedsRowId(kept + INSERTION)
  {
    hide Find, RFind;
    var before, after := kept + space, kept + INSERTION;
    var p := RFind(Upper(before), "SELECT");
    assert UpperChar(before[p + 5]) == Upper(before)[p..p + 6][5] == 'T';
    assert p + 6 <= |kept|;
    assert Upper(after)[p..p + 6] == Upper(before)[p..p + 6];
    assert OccursAt(Upper(after), "SELECT", p);
    var q := RFind(Upper(after), "SELECT");
    assert p <= q;
    InsertionHidesNoSelect(kept, q);
    RowIdInInsertion(kept, q);
  }

  /** Every keyword in `ts` has its `_row_id`. */
  predicate Served(ts: List<Token>) {
    match ts
    case Nil => true
    case Cons(t, before) => (t.Keyword? ==> !NeedsRowId(TextOf(before))) && Served(before)
  }

  lemma {:induction false} PushFacts(ts: List<Token>, s: string)
    ensures TextOf(Push(ts, s)) == TextOf(ts) + s
    ensures Served(ts) ==> Served(Push(ts, s))
    ensures s != "" ==> AfterWord(Push(ts, s)) == IsWord(s[|s| - 1])
  {
    if s != "" {
      PushFacts(ts, s[..|s| - 1]);
      assert s == s[..|s| - 1] + [s[|s| - 1]];
    }
  }

  lemma {:induction false} DropSpaceText(ps: List<Piece>, rest: string) returns (w: string)
    ensures Output(ps) == Output(DropSpace(ps)) + w && AllSpace(w)
    ensures Served(Written(ps)) ==> Served(Written(DropSpace(ps)))
    ensures Lexed(Written(ps), rest) ==> Lexed(Written(DropSpace(ps)), w + rest)
    ensures w == "" ==> DropSpace(ps) == ps
  {
    if ps.Cons? && KeptSpace(ps.head) {
      var c := [ps.head.t.c];
      var v := DropSpaceText(ps.tail, c + rest);
      w := v + c;
      assert w + rest == v + (c + rest);
      assert Output(DropSpace(ps.tail)) + v + c == Output(DropSpace(ps)) + w;
    } else {
      w := "";
      assert w + rest == rest;
    }
  }

  lemma {:induction false} WeaveServes(done: List<Piece>, s: string)
    requires Served(Written(done))
    ensures Served(Written(Weave(done, s)))
    decreases |s|
  {
    if s != "" {
      var t := FirstToken(LastWord(done), s);
      if t.Keyword? && NeedsRowId(Output(done)) {
        var w := DropSpaceText(done, "");
        InsertionServes(Output(DropSpace(done)), w);
        PushFacts(Written(DropSpace(done)), INSERTION);
      }
      WeaveServes(Extend(done, t), s[|t.Text()|..]);
    }
  }

  // ----- the output reads back as the tokens written -----

  /** A character that starts no keyword still starts none when the text after `x` changes. */
  lemma StillPlain(afterWord: bool, x: string, before: string, after: string)
    requires x != "" && !StartsKeyword(afterWord, x + before)
    requires !IsWord(x[|x| - 1]) || (before != "" && !IsWord(before[0]))
    requires after != "" && !IsWord(after[0])
    ensures !StartsKeyword(afterWord, x + after)
  {
    var s := x + after;
    if |x| >= 4 {
      assert s[..4] == x[..4] == (x + before)[..4];
      assert Upper(x[..4])[3] == UpperChar(x[3]);
    } else if |s| >= 4 {
      assert Upper(s[..4])[|x|] == UpperChar(after[0]);
    }
  }

  /** No word character on one side of the boundary between `ts`, `x` and the text `before`. */
  predicate CleanBoundary(ts: List<Token>, x: string, before: string) {
    before != "" && (!IsWord(before[0]) || if x == "" then !AfterWord(ts) else !IsWord(x[|x| - 1]))
  }

  lemma HeadStillOk(afterWord: bool, t: Token, ts: List<Token>, x: string, before: string, after: string)
    requires HeadOk(afterWord, t, x + before) && CleanBoundary(Cons(t, ts), x, before)
    requires after != "" && !IsWord(after[0])
    ensures HeadOk(afterWord, t, x + after)
    ensures CleanBoundary(ts, t.Text() + x, before)
  {
    match t
    case Quoted(_) =>
    case Unclosed(_) =>
    case Keyword(_) => assert x == "" ==> x + after == after;
    case Plain(c) =>
      assert [c] + (x + before) == ([c] + x) + before && [c] + (x + after) == ([c] + x) + after;
      StillPlain(afterWord, [c] + x, before, after);
  }

  /** Replacing the text behind well-lexed tokens keeps them well lexed. */
  lemma {:induction false} ReplaceTail(ts: List<Token>, x: string, before: string, after: string)
    requires Lexed(ts, x + before) && CleanBoundary(ts, x, before)
    requires after != "" && !IsWord(after[0])
    ensures Lexed(ts, x + after)
  {
    match ts
    case Nil =>
    case Cons(t, earlier) =>
      HeadStillOk(AfterWord(earlier), t, earlier, x, before, after);
      assert t.Text() + (x + before) == (t.Text() + x) + before;
      assert t.Text() + (x + after) == (t.Text() + x) + after;
      ReplaceTail(earlier, t.Text() + x, before, after);
  }

  /** The inserted characters are plain characters wherever they stand. */
  lemma {:induction false} PushLexed(ts: List<Token>, s: string, rest: string)
    requires forall i :: 0 <= i < |s| ==> !IsQuote(s[i]) && UpperChar(s[i]) != 'F'
    requires Lexed(ts, s + rest)
    ensures Lexed(Push(ts, s), rest)
    decreases |s|
  {
    if s == "" {
      assert s + rest == rest;
    } else {
      var c := s[|s| - 1];
      assert s + rest == s[..|s| - 1] + ([c] + rest);
      PushLexed(ts, s[..|s| - 1], [c] + rest);
      assert |[c] + rest| >= 4 ==> Upper(([c] + rest)[..4])[0] == UpperChar(c);
    }
  }

  lemma InsertionChars()
    ensures forall i :: 0 <= i < |INSERTION| ==> !IsQuote(INSERTION[i]) && UpperChar(INSERTION[i]) != 'F'
  {
  }

  lemma KeywordOk(afterWord: bool, k: Token, rest: string)
    requires k.Keyword? && HeadOk(afterWord, k, rest)
    ensures !afterWord && k.Text() != "" && HeadOk(false, k, rest)
  {
  }

  lemma LexedCons(t: Token, ts: List<Token>, rest: string)
    requires HeadOk(AfterWord(ts), t, rest) && Lexed(ts, t.Text() + rest)
    ensures Lexed(Cons(t, ts), rest)
  {
  }

  lemma InsertionLexed(done: List<Piece>, k: Token, rest: string)
    requires Lexed(Written(done), k.Text() + rest) && k.Keyword? && HeadOk(AfterWord(Written(done)), k, rest)
    ensures Lexed(Cons(k, Push(Written(DropSpace(done)), INSERTION)), rest)
  {
    hide DropSpace, Written, TextOf, Push, Lexed, HeadOk;
    var s, ts := k.Text() + rest, Written(DropSpace(done));
    KeywordOk(AfterWord(Written(done)), k, rest);
    var w := DropSpaceText(done, s);
    assert "" + (w + s) == w + s;
    assert w != "" ==> IsSpace((w + s)[0]);
    ReplaceTail(ts, "", w + s, INSERTION + s);
    assert "" + (INSERTION + s) == INSERTION + s;
    InsertionChars();
    PushLexed(ts, INSERTION, s);
    PushFacts(ts, INSERTION);
    LexedCons(k, Push(ts, INSERTION), rest);
  }

  lemma {:induction false} WeaveLexed(done: List<Piece>, s: string)
    requires Lexed(Written(done), s) && (done.Cons? ==> done.head.Kept?)
    ensures Lexed(Written(Weave(done, s)), "")
    decreases |s|
  {
    if s != "" {
      var t := FirstToken(LastWord(done), s);
      var rest := s[|t.Text()|..];
      FirstTokenOk(LastWord(done), s);
      assert LastWord(done) == AfterWord(Written(done));
      if t.Keyword? && NeedsRowId(Output(done)) {
        InsertionLexed(done, t, rest);
      }
      WeaveLexed(Extend(done, t), rest);
    }
  }

  // ----- idempotence -----

  function AllKept(ts: List<Token>): List<Piece> {
    match ts
    case Nil => Nil
    case Cons(t, before) => Cons(Kept(t), AllKept(before))
  }

  /** Reading a served text again keeps every token. */
  lemma {:induction false} Reread(ts: List<Token>, rest: string)
    requires Lexed(ts, rest) && Served(ts)
    ensures Written(AllKept(ts)) == ts
    ensures Weave(Nil, TextOf(ts) + rest) == Weave(AllKept(ts), rest)
  {
    match ts
    case Nil =>
      assert TextOf(ts) + rest == rest;
    case Cons(t, before) =>
      Reread(before, t.Text() + rest);
      assert TextOf(ts) + rest == TextOf(before) + (t.Text() + rest);
      HeadIsFirstToken(AfterWord(before), t, rest);
      assert LastWord(AllKept(before)) == AfterWord(before);
      assert (t.Text() + rest)[|t.Text()|..] == rest;
  }

  /** Threading a text twice is threading it once. */
  lemma Idempotent(sql: string)
    ensures Threaded(Threaded(sql)) == Threaded(sql)
  {
    var ts := Written(Pieces(sql));
    WeaveLexed(Nil, sql);
    WeaveServes(Nil, sql);
    Reread(ts, "");
    assert TextOf(ts) + "" == TextOf(ts);
  }

  // ----- the guarantee in terms of the output text alone -----

  datatype Quote = NoQuote | In(q: char)

  /** The quote that is open after reading `s`. */
  function OpenQuote(s: string): Quote {
    if s == "" then NoQuote
    else
      var c := s[|s| - 1];
      match OpenQuote(s[..|s| - 1])
      case NoQuote => if c == '"' then In('"') else if c == '\'' then In('\'') else NoQuote
      case In(q) => if c == q then NoQuote else In(q)
  }

  /** Index `i` of `s` starts an unquoted word FROM. */
  predicate FromAt(s: string, i: nat) {
    && i + 4 <= |s| && Upper(s[i..i + 4]) == "FROM"
    && OpenQuote(s[..i]) == NoQuote
    && (i == 0 || !IsWord(s[i - 1])) && (i + 4 == |s| || !IsWord(s[i + 4]))
  }

  /** Inside a quoted token the quote is open. */
  lemma {:induction false} InsideQuote(x: string, q: string, n: nat)
    requires OpenQuote(x) == NoQuote
    requires 1 <= n <= |q| && IsQuote(q[0]) && forall k :: 1 <= k < n ==> q[k] != q[0]
    ensures OpenQuote(x + q[..n]) == In(q[0])
    decreases n
  {
    if n == 1 {
      assert (x + q[..1])[..|x|] == x;
    } else {
      assert (x + q[..n])[..|x| + n - 1] == x + q[..n - 1];
      InsideQuote(x, q, n - 1);
    }
  }

  lemma {:induction false} UnquotedText(x: string, s: string)
    requires OpenQuote(x) == NoQuote && forall k :: 0 <= k < |s| ==> !IsQuote(s[k])
    ensures OpenQuote(x + s) == NoQuote
  {
    if s == "" {
      assert x + s == x;
    } else {
      assert (x + s)[..|x + s| - 1] == x + s[..|s| - 1];
      UnquotedText(x, s[..|s| - 1]);
    }
  }

  lemma ClosedToken(afterWord: bool, x: string, t: Token, rest: string)
    requires OpenQuote(x) == NoQuote && HeadOk(afterWord, t, rest) && rest != ""
    ensures OpenQuote(x + t.Text()) == NoQuote
  {
    match t
    case Quoted(q) =>
      InsideQuote(x, q, |q| - 1);
      assert (x + q)[..|x| + |q| - 1] == x + q[..|q| - 1];
    case Keyword(k) =>
      assert forall i :: 0 <= i < 4 ==> UpperChar(k[i]) == "FROM"[i];
      UnquotedText(x, k);
    case Plain(c) =>
      UnquotedText(x, [c]);
  }

  /** At the end of well-lexed tokens that something follows no quote is open. */
  lemma {:induction false} ClosedTokens(ts: List<Token>, rest: string)
    requires Lexed(ts, rest) && rest != ""
    ensures OpenQuote(TextOf(ts)) == NoQuote
  {
    match ts
    case Nil =>
    case Cons(t, before) =>
      ClosedTokens(before, t.Text() + rest);
      ClosedToken(AfterWord(before), TextOf(before), t, rest);
  }

  /** No unquoted FROM starts strictly inside a token. */
  lemma NoFromInside(afterWord: bool, x: string, t: Token, rest: string, n: nat)
    requires OpenQuote(x) == NoQuote && HeadOk(afterWord, t, rest) && 0 < n < |t.Text()|
    ensures UpperChar(t.Text()[n]) != 'F' || OpenQuote(x + t.Text()[..n]) != NoQuote
  {
    if t.Keyword? {
      assert UpperChar(t.text[n]) == Upper(t.text)[n] == "FROM"[n];
    } else {
      InsideQuote(x, t.text, n);
    }
  }

  /** A word FROM that starts within the last token is that token, and it is a keyword. */
  lemma FromInLast(before: List<Token>, t: Token, rest: string, i: nat)
    requires HeadOk(AfterWord(before), t, rest) && Lexed(before, t.Text() + rest)
    requires FromAt(TextOf(before) + t.Text() + rest, i)
    requires |TextOf(before)| <= i < |TextOf(before) + t.Text()|
    ensures t.Keyword? && i == |TextOf(before)|
  {
    hide Lexed, OpenQuote, TextOf, HeadOk, AfterWord;
    var x := TextOf(before);
    var s := x + t.Text() + rest;
    var n := i - |x|;
    ClosedTokens(before, t.Text() + rest);
    assert UpperChar(t.Text()[n]) == Upper(s[i..i + 4])[0] == 'F';
    assert s[..i] == x + t.Text()[..n];
    if n > 0 {
      NoFromInside(AfterWord(before), x, t, rest, n);
      assert false;
    }
    LastCharWord(before, t.Text() + rest);
    assert s[i..] == t.Text() + rest;
    assert s[i..i + 4] == s[i..][..4];
    assert StartsKeyword(AfterWord(before), t.Text() + rest);
    KeywordHead(AfterWord(before), t, rest);
  }

  lemma KeywordHead(afterWord: bool, t: Token, rest: string)
    requires HeadOk(afterWord, t, rest) && StartsKeyword(afterWord, t.Text() + rest)
    ensures t.Keyword?
  {
    HeadIsFirstToken(afterWord, t, rest);
    assert UpperChar((t.Text() + rest)[0]) == Upper((t.Text() + rest)[..4])[0];
  }

  lemma LastCharWord(ts: List<Token>, rest: string)
    requires Lexed(ts, rest) && rest != ""
    ensures AfterWord(ts) ==> TextOf(ts) != "" && IsWord(TextOf(ts)[|TextOf(ts)| - 1])
  {
    if ts.Cons? && ts.head.Keyword? {
      assert UpperChar(ts.head.text[3]) == Upper(ts.head.text)[3] == 'M';
    }
  }

  lemma {:induction false} ServedFrom(ts: List<Token>, rest: string, i: nat)
    requires Lexed(ts, rest) && Served(ts)
    requires FromAt(TextOf(ts) + rest, i) && i < |TextOf(ts)|
    ensures !NeedsRowId(TextOf(ts)[..i])
  {
    hide NeedsRowId, FromAt, HeadOk;
    match ts
    case Cons(t, before) =>
      assert TextOf(ts) + rest == TextOf(before) + t.Text() + rest;
      if i < |TextOf(before)| {
        assert TextOf(ts) + rest == TextOf(before) + (t.Text() + rest);
        ServedFrom(before, t.Text() + rest, i);
        assert TextOf(ts)[..i] == TextOf(before)[..i];
      } else {
        FromInLast(before, t, rest, i);
        assert TextOf(ts)[..i] == TextOf(before);
      }
  }

  /**
   In the output, every word FROM outside quotes that has a SELECT somewhere before it has
   `_row_id` between the last such SELECT and itself.
   */
  lemma EveryFromServed(sql: string, i: nat)
    requires FromAt(Threaded(sql), i)
    ensures var pos := RFind(Upper(Threaded(sql)[..i]), "SELECT");
            pos != -1 ==> Find(Lower(Threaded(sql)[pos..i]), "_row_id", 0) != -1
  {
    hide Find, RFind;
    var out := Threaded(sql);
    WeaveLexed(Nil, sql);
    WeaveServes(Nil, sql);
    assert out + "" == out;
    ServedFrom(Written(Pieces(sql)), "", i);
    var pos := RFind(Upper(out[..i]), "SELECT");
    if pos != -1 {
      assert out[..i][pos..] == out[pos..i];
    }
  }

  // ----- the output in terms of the input text alone -----

  lemma {:induction false} OpenQuoteAfter(x: string, y: string)
    requires OpenQuote(x) == NoQuote
    ensures OpenQuote(x + y) == OpenQuote(y)
  {
    if y == "" {
      assert x + y == x;
    } else {
      assert (x + y)[..|x + y| - 1] == x + y[..|y| - 1];
      OpenQuoteAfter(x, y[..|y| - 1]);
    }
  }

  /** No word runs across the boundary of `a` and `r`. */
  predicate Apart(a: string, r: string) {
    a == "" || r == "" || !IsWord(a[|a| - 1]) || !IsWord(r[0])
  }

  lemma FromIsWord(s: string)
    requires |s| >= 4
    ensures Upper(s[..4]) == "FROM" ==> forall k :: 0 <= k < 4 ==> IsWord(s[k])
  {
    assert forall k :: 0 <= k < 4 ==> Upper(s[..4])[k] == UpperChar(s[k]);
  }

  lemma SameKeyword(afterWord: bool, a: string, r: string)
    requires a != "" && Apart(a, r)
    ensures StartsKeyword(afterWord, a + r) <==> StartsKeyword(afterWord, a)
  {
    hide Upper;
    var s := a + r;
    if |s| >= 4 {
      FromIsWord(s);
      assert |a| >= 4 ==> s[..4] == a[..4];
      assert s[|a| - 1] == a[|a| - 1] && (r != "" ==> s[|a|] == r[0]);
    }
  }

  lemma UnclosedOpen(afterWord: bool, t: Token, rest: string)
    requires HeadOk(afterWord, t, rest)
    ensures t.Unclosed? ==> OpenQuote(t.Text() + rest) != NoQuote
  {
    if t.Unclosed? {
      InsideQuote("", t.text, |t.text|);
      assert "" + t.text[..|t.text|] == t.Text() + rest;
    }
  }

  /** A token of a closed text is closed, and so is the text behind it. */
  lemma ClosedRest(afterWord: bool, t: Token, rest: string)
    requires HeadOk(afterWord, t, rest) && OpenQuote(t.Text() + rest) == NoQuote
    ensures !t.Unclosed? && OpenQuote(t.Text()) == NoQuote && OpenQuote(rest) == NoQuote
  {
    hide OpenQuote, HeadOk;
    UnclosedOpen(afterWord, t, rest);
    ClosedText(afterWord, t, rest);
    OpenQuoteAfter(t.Text(), rest);
  }

  lemma ClosedText(afterWord: bool, t: Token, rest: string)
    requires HeadOk(afterWord, t, rest) && !t.Unclosed?
    ensures OpenQuote(t.Text()) == NoQuote
  {
    var next := if rest == "" then " " else rest;
    if t.Plain? {
      UnquotedText("", [t.c]);
      assert "" + [t.c] == [t.c];
    } else {
      ClosedToken(afterWord, "", t, next);
      assert "" + t.Text() == t.Text();
    }
  }

  lemma FirstTokenCases(afterWord: bool, s: string)
    requires s != ""
    ensures var t := FirstToken(afterWord, s);
            if IsQuote(s[0]) then t.Quoted? || t.Unclosed?
            else if StartsKeyword(afterWord, s) then |s| >= 4 && t == Keyword(s[..4])
            else t == Plain(s[0])
  {
    hide Find;
  }

  /** Text appended to a closed text does not change how that is read. */
  lemma SameToken(afterWord: bool, a: string, r: string)
    requires a != "" && OpenQuote(a) == NoQuote && Apart(a, r)
    ensures FirstToken(afterWord, a + r) == FirstToken(afterWord, a)
  {
    hide OpenQuote, StartsKeyword, FirstToken, IsQuote, Apart;
    var t := FirstToken(afterWord, a);
    FirstTokenOk(afterWord, a);
    FirstTokenCases(afterWord, a);
    var rest := a[|t.Text()|..];
    ClosedRest(afterWord, t, rest);
    if t.Quoted? {
      assert HeadOk(afterWord, t, rest + r);
      HeadIsFirstToken(afterWord, t, rest + r);
      assert t.Text() + (rest + r) == a + r;
    } else {
      SameKeyword(afterWord, a, r);
      FirstTokenCases(afterWord, a + r);
      assert |a| >= 4 ==> (a + r)[..4] == a[..4];
    }
  }

  lemma ApartRest(a: string, r: string, n: nat)
    requires Apart(a, r) && n <= |a|
    ensures Apart(a[n..], r)
  {
    assert n < |a| ==> a[n..][|a| - n - 1] == a[|a| - 1];
  }

  /** The first token of a closed text, and what is left. */
  lemma SplitStep(afterWord: bool, a: string, r: string)
    requires a != "" && OpenQuote(a) == NoQuote && Apart(a, r)
    ensures var t := FirstToken(afterWord, a); var n := |t.Text()|;
            && FirstToken(afterWord, a + r) == t
            && 0 < n <= |a| && (a + r)[n..] == a[n..] + r
            && OpenQuote(a[n..]) == NoQuote && Apart(a[n..], r)
  {
    hide OpenQuote, FirstToken, Apart, HeadOk;
    var t := FirstToken(afterWord, a);
    SameToken(afterWord, a, r);
    FirstTokenOk(afterWord, a);
    ClosedRest(afterWord, t, a[|t.Text()|..]);
    ApartRest(a, r, |t.Text()|);
  }

  lemma {:induction false} WeaveSplit(done: List<Piece>, a: string, r: string)
    requires OpenQuote(a) == NoQuote && Apart(a, r)
    ensures Weave(done, a + r) == Weave(Weave(done, a), r)
    decreases |a|
  {
    hide OpenQuote, FirstToken, Extend, Apart, LastWord;
    if a == "" {
      assert a + r == r;
    } else {
      var t := FirstToken(LastWord(done), a);
      SplitStep(LastWord(done), a, r);
      WeaveSplit(Extend(done, t), a[|t.Text()|..], r);
    }
  }

  /** No whitespace but whole pieces of it is written last. */
  predicate Firm(p: Piece) {
    p.Kept? ==> KeptSpace(p) || (p.t.Text() != "" && !IsSpace(p.t.Text()[|p.t.Text()| - 1]))
  }

  predicate AllFirm(ps: List<Piece>) {
    ps.Nil? || (Firm(ps.head) && AllFirm(ps.tail))
  }

  lemma FirmToken(afterWord: bool, t: Token, rest: string)
    requires HeadOk(afterWord, t, rest) && !t.Unclosed?
    ensures Firm(Kept(t)) && EndsInWord(t) == IsWord(t.Text()[|t.Text()| - 1])
  {
    if t.Keyword? {
      assert UpperChar(t.text[3]) == Upper(t.text)[3] == 'M';
    }
  }

  lemma {:induction false} DropSpaceFirm(ps: List<Piece>, next: Next)
    requires AllFirm(ps) && Placed(ps, next)
    requires ps.Cons? && !ps.head.Kept? ==> next.Before? && KeptSpace(next.p)
    ensures AllFirm(DropSpace(ps))
    ensures var out := Output(DropSpace(ps)); out != "" ==> !IsSpace(out[|out| - 1])
  {
    if ps.Cons? && KeptSpace(ps.head) {
      DropSpaceFirm(ps.tail, Before(ps.head));
    }
  }

  /** What reading a closed text leaves behind. */
  lemma {:induction false} WeaveFirm(done: List<Piece>, a: string)
    requires OpenQuote(a) == NoQuote && AllFirm(done) && Placed(done, End) && (done.Cons? ==> done.head.Kept?)
    ensures var ps := Weave(done, a);
            AllFirm(ps) && Placed(ps, End) && (ps.Cons? ==> ps.head.Kept?)
    ensures a != "" ==> LastWord(Weave(done, a)) == IsWord(a[|a| - 1])
    decreases |a|
  {
    hide OpenQuote, FirstToken, HeadOk, NeedsRowId, Placed, Firm, IsWord, EndsInWord;
    if a != "" {
      var t := FirstToken(LastWord(done), a);
      var n := |t.Text()|;
      FirstTokenOk(LastWord(done), a);
      ClosedRest(LastWord(done), t, a[n..]);
      FirmToken(LastWord(done), t, a[n..]);
      ExtendConserves(done, t);
      DropSpaceFirm(done, End);
      FirmInserted();
      WeaveFirm(Extend(done, t), a[n..]);
      assert n < |a| ==> a[n..][|a| - n - 1] == a[|a| - 1];
      assert n == |a| ==> a[n..] == "" && t.Text() == a;
    }
  }

  lemma FirmInserted()
    ensures Firm(Inserted)
  {
  }

  lemma TrimSpace(x: string, w: string)
    requires AllSpace(w) && (x != "" ==> !IsSpace(x[|x| - 1]))
    ensures TrimRight(x + w) == x
    decreases |w|
  {
    if w == "" {
      assert x + w == x;
    } else {
      assert (x + w)[..|x + w| - 1] == x + w[..|w| - 1];
      TrimSpace(x, w[..|w| - 1]);
    }
  }

  /** What the scanner may rely on at `i`, if anything is left to read there. */
  ghost predicate ReadyAt(done: List<Piece>, sql: string, i: nat) {
    i <= |sql| && (i < |sql| ==> OpenQuote(sql[..i]) == NoQuote && LastWord(done) == AfterWordAt(sql, i))
  }

  lemma Sliced(sql: string, i: nat, text: string, rest: string)
    requires i <= |sql| && sql[i..] == text + rest && text != ""
    ensures var n := |text|;
            && i + n <= |sql| && text == sql[i..i + n] && rest == sql[i + n..] == sql[i..][n..]
            && sql[..i] + text == sql[..i + n] && text[n - 1] == sql[i + n - 1]
            && (rest == "" <==> i + n == |sql|)
  {
    assert sql == sql[..i] + (text + rest);
  }

  lemma CopyStep(done: List<Piece>, sql: string, i: nat)
    requires i < |sql| && !FromAt(sql, i) && ReadyAt(done, sql, i)
    ensures var t := FirstToken(LastWord(done), sql[i..]); var n := |t.Text()|;
            && 0 < n <= |sql| - i && !t.Keyword? && t.Text() == sql[i..i + n] && sql[i..][n..] == sql[i + n..]
            && ReadyAt(Cons(Kept(t), done), sql, i + n)
  {
    hide OpenQuote, FirstToken, HeadOk, FromAt, IsWord, EndsInWord;
    var t := FirstToken(LastWord(done), sql[i..]);
    var rest := sql[i..][|t.Text()|..];
    FirstTokenOk(LastWord(done), sql[i..]);
    Sliced(sql, i, t.Text(), rest);
    NotKeyword(sql, i, t);
    LastOfToken(LastWord(done), t, rest);
    if rest != "" {
      ClosedToken(LastWord(done), sql[..i], t, rest);
    }
  }

  /** Without another word FROM the rest is copied. */
  lemma {:induction false} CopyRest(done: List<Piece>, sql: string, i: nat)
    requires ReadyAt(done, sql, i) && forall k :: i <= k ==> !FromAt(sql, k)
    ensures Output(Weave(done, sql[i..])) == Output(done) + sql[i..]
    decreases |sql| - i
  {
    hide FirstToken, NeedsRowId, FromAt, ReadyAt, LastWord;
    assert i <= |sql| by { ReadyWithin(done, sql, i); }
    if i < |sql| {
      var t := FirstToken(LastWord(done), sql[i..]);
      CopyStep(done, sql, i);
      CopyRest(Cons(Kept(t), done), sql, i + |t.Text()|);
      assert t.Text() + sql[i + |t.Text()|..] == sql[i..];
    } else {
      assert sql[i..] == "";
    }
  }

  lemma ReadyWithin(done: List<Piece>, sql: string, i: nat)
    requires ReadyAt(done, sql, i)
    ensures i <= |sql|
  {
  }

  lemma KeywordIsFrom(sql: string, i: nat)
    requires i < |sql| && OpenQuote(sql[..i]) == NoQuote
    ensures StartsKeyword(AfterWordAt(sql, i), sql[i..]) <==> FromAt(sql, i)
  {
    hide OpenQuote, Upper, IsWord;
    var s := sql[i..];
    assert |s| >= 4 ==> s[..4] == sql[i..i + 4];
  }

  lemma NotKeyword(sql: string, i: nat, t: Token)
    requires i < |sql| && !FromAt(sql, i) && OpenQuote(sql[..i]) == NoQuote
    requires t == FirstToken(AfterWordAt(sql, i), sql[i..])
    ensures !t.Keyword?
  {
    hide OpenQuote, FromAt, StartsKeyword, AfterWordAt, FirstToken;
    KeywordIsFrom(sql, i);
    FirstTokenCases(AfterWordAt(sql, i), sql[i..]);
  }

  /** A text without a word FROM outside quotes is returned unchanged. */
  lemma NoFromUnchanged(sql: string)
    requires forall k: nat :: !FromAt(sql, k)
    ensures Threaded(sql) == sql
  {
    assert sql[0..] == sql && sql[..0] == "";
    CopyRest(Nil, sql, 0);
    assert Output(Nil) + sql == sql;
  }

  /** A SELECT is there, and no `_row_id` from the last one on. */
  ghost predicate Lacking(x: string) {
    exists p :: OccursAt(Upper(x), "SELECT", p) &&
                (forall q :: p < q ==> !OccursAt(Upper(x), "SELECT", q)) &&
                (forall q :: p <= q ==> !OccursAt(Lower(x), "_row_id", q))
  }

  lemma LackingIs(x: string)
    ensures Lacking(x) <==> NeedsRowId(x)
  {
    hide Find, RFind, OccursAt;
    var pos := RFind(Upper(x), "SELECT");
    if pos != -1 {
      assert 0 <= pos <= |x| by { OccursWithin(Upper(x), "SELECT", pos); }
      var tail := Lower(x[pos..]);
      assert tail == Lower(x)[pos..|x|];
      forall q: nat ensures OccursAt(tail, ROW_ID, q) <==> OccursAt(Lower(x), ROW_ID, pos + q) {
        OccursInSlice(Lower(x), ROW_ID, pos, |x|, q);
        OccursIsWithin(Lower(x), ROW_ID, pos + q);
      }
      var r := Find(tail, ROW_ID, 0);
      if r == -1 {
        forall q | pos <= q ensures !OccursAt(Lower(x), "_row_id", q) {
          assert !OccursAt(tail, ROW_ID, q - pos);
        }
        assert Lacking(x);
      } else {
        assert OccursAt(Lower(x), "_row_id", pos + r);
      }
    }
  }

  lemma OccursWithin(s: string, pat: string, i: int)
    requires OccursAt(s, pat, i)
    ensures 0 <= i && i + |pat| <= |s|
  {
  }

  lemma OccursIsWithin(s: string, pat: string, i: int)
    ensures OccursAt(s, pat, i) ==> 0 <= i && i + |pat| <= |s|
  {
  }

  /**
   The output, from the last word FROM of the input: what precedes it is threaded, `, _row_id ` takes
   the place of the whitespace before it if the SELECT there lacks one, and the rest is copied.  With
   `NoFromUnchanged` this determines the output of every text.
   */
  lemma LastFrom(sql: string, i: nat)
    requires FromAt(sql, i) && forall k :: i < k ==> !FromAt(sql, k)
    ensures var before := Threaded(sql[..i]);
            Threaded(sql) == (if Lacking(before) then TrimRight(before) + ", _row_id " else before) + sql[i..]
  {
    hide Weave, NeedsRowId, FirstToken, Lacking, OpenQuote, Upper, Extend, Output, ReadyAt, TrimRight, Placed, AllFirm;
    var ps, k := Pieces(sql[..i]), Keyword(sql[i..i + 4]);
    LackingIs(Output(ps));
    FromReached(sql, i);
    CopyRest(Extend(ps, k), sql, i + 4);
    KeptKeyword(ps, k);
    assert sql[i..] == k.Text() + sql[i + 4..];
  }

  /** The text up to a word FROM is read by itself, and then the keyword. */
  lemma FromReached(sql: string, i: nat)
    requires FromAt(sql, i)
    ensures var ps, k := Pieces(sql[..i]), Keyword(sql[i..i + 4]);
            && AllFirm(ps) && Placed(ps, End) && (ps.Cons? ==> ps.head.Kept?)
            && Pieces(sql) == Weave(Extend(ps, k), sql[i + 4..]) && ReadyAt(Extend(ps, k), sql, i + 4)
  {
    hide OpenQuote, Weave, NeedsRowId, Upper, FirstToken, DropSpace, Extend;
    var a, r := sql[..i], sql[i..];
    assert sql == a + r;
    assert Apart(a, r);
    WeaveSplit(Nil, a, r);
    WeaveFirm(Nil, a);
    WeaveNothing(Nil);
    KeywordNext(sql, i, Pieces(a));
  }

  lemma WeaveNothing(done: List<Piece>)
    ensures Weave(done, "") == done
  {
  }

  lemma ExtendOutput(ps: List<Piece>, t: Token)
    ensures Output(Extend(ps, t)) ==
            (if t.Keyword? && NeedsRowId(Output(ps)) then Output(DropSpace(ps)) + ", _row_id " else Output(ps)) + t.Text()
  {
    hide NeedsRowId, Push;
    PushFacts(Written(DropSpace(ps)), INSERTION);
    assert Written(Cons(Inserted, DropSpace(ps))) == Push(Written(DropSpace(ps)), INSERTION);
    assert Written(Extend(ps, t)).Cons? && Written(Extend(ps, t)).head == t;
  }

  lemma KeptKeyword(ps: List<Piece>, k: Token)
    requires k.Keyword? && AllFirm(ps) && Placed(ps, End) && (ps.Cons? ==> ps.head.Kept?)
    ensures Output(Extend(ps, k)) ==
            (if NeedsRowId(Output(ps)) then TrimRight(Output(ps)) + ", _row_id " else Output(ps)) + k.Text()
  {
    hide NeedsRowId, TrimRight, Output, Extend;
    ExtendOutput(ps, k);
    DropSpaceFirm(ps, End);
    var w := DropSpaceText(ps, "");
    TrimSpace(Output(DropSpace(ps)), w);
  }

  lemma KeywordNext(sql: string, i: nat, done: List<Piece>)
    requires FromAt(sql, i) && (i > 0 ==> LastWord(done) == IsWord(sql[i - 1])) && (i == 0 ==> !LastWord(done))
    ensures Weave(done, sql[i..]) == Weave(Extend(done, Keyword(sql[i..i + 4])), sql[i + 4..])
    ensures i + 4 < |sql| ==>
      OpenQuote(sql[..i + 4]) == NoQuote && LastWord(Extend(done, Keyword(sql[i..i + 4]))) == AfterWordAt(sql, i + 4)
  {
    hide OpenQuote, Find, NeedsRowId, IsQuote;
    var s, k := sql[i..], Keyword(sql[i..i + 4]);
    assert s[..4] == sql[i..i + 4] && s[4..] == sql[i + 4..] && (|s| > 4 ==> s[4] == sql[i + 4]);
    assert HeadOk(false, k, s[4..]);
    assert s == k.Text() + s[4..];
    HeadIsFirstToken(false, k, s[4..]);
    assert UpperChar(sql[i + 3]) == Upper(sql[i..i + 4])[3] == 'M';
    if i + 4 < |sql| {
      ClosedToken(false, sql[..i], k, s[4..]);
      assert sql[..i] + k.Text() == sql[..i + 4];
    }
  }

  // ----- quoted text -----

  lemma KeptWithin(kept: string, x: string, w: string)
    requires kept <= x + w && AllSpace(w) && kept != "" && !IsSpace(kept[|kept| - 1])
    ensures kept <= x
  {
    forall k | |x| <= k < |x + w| ensures IsSpace((x + w)[k]) {
      assert (x + w)[k] == w[k - |x|];
    }
    assert kept[|kept| - 1] == (x + w)[|kept| - 1];
  }

  /** Reading on only adds, but for whitespace written last. */
  lemma {:induction false} WeaveKeeps(done: List<Piece>, s: string, kept: string)
    requires kept <= Output(done) && kept != "" && !IsSpace(kept[|kept| - 1])
    ensures kept <= Output(Weave(done, s))
    decreases |s|
  {
    hide FirstToken, NeedsRowId, Extend, Output;
    if s != "" {
      var t := FirstToken(LastWord(done), s);
      var w := DropSpaceText(done, "");
      KeptWithin(kept, Output(DropSpace(done)), w);
      ExtendOutput(done, t);
      WeaveKeeps(Extend(done, t), s[|t.Text()|..], kept);
    }
  }

  /** A span between two double or two single quotes is copied whole, right behind what precedes it. */
  lemma QuotedSpanKept(a: string, q: char, x: string, b: string)
    requires OpenQuote(a) == NoQuote && (q == '"' || q == '\'') && q !in x
    ensures Threaded(a) + ([q] + x + [q]) <= Threaded(a + ([q] + x + [q]) + b)
  {
    hide OpenQuote, Weave, Find, FirstToken;
    var span := [q] + x + [q];
    var t := Quoted(span);
    assert HeadOk(LastWord(Pieces(a)), t, b);
    HeadIsFirstToken(LastWord(Pieces(a)), t, b);
    assert a + span + b == a + (span + b);
    WeaveSplit(Nil, a, span + b);
    assert (span + b)[|span|..] == b;
    QuotedNext(Pieces(a), t, b);
    WeaveKeeps(Cons(Kept(t), Pieces(a)), b, Threaded(a) + span);
  }

  lemma QuotedNext(done: List<Piece>, t: Token, rest: string)
    requires t.Quoted? && t.text != "" && FirstToken(LastWord(done), t.Text() + rest) == t
    ensures Weave(done, t.Text() + rest) == Weave(Cons(Kept(t), done), rest)
  {
    assert (t.Text() + rest)[|t.Text()|..] == rest;
  }

  // ----- the scanner itself -----

  function Join(chunks: seq<string>): string {
    if chunks == [] then "" else Join(chunks[..|chunks| - 1]) + chunks[|chunks| - 1]
  }

  /** The chunks the scanner has in its list when it has produced the pieces `ps`. */
  function Chunks(ps: List<Piece>): seq<string> {
    match ps
    case Nil => []
    case Cons(Kept(t), before) => Chunks(before) + [t.Text()]
    case Cons(Dropped(_), before) => Chunks(before)
    case Cons(Inserted, before) => Chunks(before) + [INSERTION]
  }

  lemma {:induction false} JoinChunks(ps: List<Piece>)
    ensures Join(Chunks(ps)) == Output(ps)
  {
    match ps
    case Nil =>
    case Cons(p, before) =>
      JoinChunks(before);
      if p.Inserted? {
        PushFacts(Written(before), INSERTION);
      }
  }

  /** Python's `chunk.isspace()`. */
  predicate IsBlankChunk(chunk: string) {
    chunk != "" && AllSpace(chunk)
  }

  /** Only plain whitespace characters make blank chunks. */
  predicate Solid(ps: List<Piece>) {
    match ps
    case Nil => true
    case Cons(p, before) => (p.Kept? ==> (IsBlankChunk(p.t.Text()) <==> KeptSpace(p))) && Solid(before)
  }

  lemma SolidToken(afterWord: bool, t: Token, rest: string)
    requires HeadOk(afterWord, t, rest)
    ensures IsBlankChunk(t.Text()) <==> KeptSpace(Kept(t))
  {
    match t
    case Plain(c) => assert t.Text()[0] == c;
    case Quoted(q) => assert !IsSpace(q[0]);
    case Unclosed(q) => assert !IsSpace(q[0]);
    case Keyword(k) =>
      assert UpperChar(k[0]) == Upper(k)[0] == 'F';
      assert !IsSpace(k[0]);
  }

  lemma {:induction false} DropSpaceSolid(ps: List<Piece>)
    requires Solid(ps)
    ensures Solid(DropSpace(ps))
  {
    if ps.Cons? && KeptSpace(ps.head) {
      DropSpaceSolid(ps.tail);
    }
  }

  /** Popping blank chunks off the list is dropping the trailing whitespace. */
  method PopBlank(chunks: seq<string>, ghost ps: List<Piece>) returns (result: seq<string>)
    requires chunks == Chunks(ps) && Solid(ps) && Placed(ps, End)
    ensures result == Chunks(DropSpace(ps))
  {
    result := chunks;
    ghost var left, next := ps, End;
    while result != [] && IsBlankChunk(result[|result| - 1])
      invariant result == Chunks(left) && Solid(left) && Placed(left, next)
      invariant next.Before? ==> KeptSpace(next.p)
      invariant Chunks(DropSpace(left)) == Chunks(DropSpace(ps))
      decreases left
    {
      result := result[..|result| - 1];
      next := Before(left.head);
      left := left.tail;
    }
  }

  lemma FindShift(s: string, pat: string, i: nat, from: nat)
    requires i <= |s|
    ensures var r := Find(s[i..], pat, from);
            Find(s, pat, i + from) == if r == -1 then -1 else i + r
  {
    hide Find;
    forall k | from <= k ensures OccursAt(s[i..], pat, k) <==> OccursAt(s, pat, i + k) {
      if i + k + |pat| <= |s| {
        assert s[i..][k..k + |pat|] == s[i + k..i + k + |pat|];
      }
    }
    var r' := Find(s, pat, i + from);
    if r' != -1 {
      assert OccursAt(s[i..], pat, r' - i);
    }
  }

  predicate AfterWordAt(sql: string, i: nat)
    requires i <= |sql|
  {
    0 < i && IsWord(sql[i - 1])
  }

  /** The history of a scanner that is between two tokens. */
  predicate Sound(done: List<Piece>) {
    Solid(done) && Placed(done, End) && (done.Cons? ==> done.head.Kept?)
  }

  lemma ExtendSound(done: List<Piece>, t: Token, rest: string)
    requires Sound(done) && HeadOk(LastWord(done), t, rest)
    ensures Sound(Extend(done, t))
  {
    hide NeedsRowId;
    SolidToken(LastWord(done), t, rest);
    ExtendConserves(done, t);
    DropSpaceSolid(done);
    assert Solid(Cons(Kept(t), done)) && Solid(Cons(Inserted, DropSpace(done)));
  }

  lemma LastOfToken(afterWord: bool, t: Token, rest: string)
    requires HeadOk(afterWord, t, rest)
    ensures t.Text() != ""
    ensures rest != "" ==> EndsInWord(t) == IsWord(t.Text()[|t.Text()| - 1])
  {
    if t.Keyword? {
      assert UpperChar(t.text[3]) == Upper(t.text)[3] == 'M';
    }
  }

  /** What the scanner knows before reading position `i`. */
  ghost predicate At(sql: string, i: nat, done: List<Piece>) {
    && i <= |sql| && Sound(done)
    && (i < |sql| ==> LastWord(done) == AfterWordAt(sql, i))
    && Weave(done, sql[i..]) == Pieces(sql)
  }

  /** Reading one token moves the scanner on by its length. */
  lemma ReadStep(sql: string, i: nat, done: List<Piece>, t: Token)
    requires i < |sql| && At(sql, i, done)
    requires t == FirstToken(AfterWordAt(sql, i), sql[i..])
    ensures i + |t.Text()| <= |sql| && t.Text() == sql[i..i + |t.Text()|]
    ensures At(sql, i + |t.Text()|, Extend(done, t))
  {
    hide FirstToken, NeedsRowId, HeadOk, Sound, Find;
    var n := |t.Text()|;
    FirstTokenOk(LastWord(done), sql[i..]);
    assert sql[i..][n..] == sql[i + n..];
    assert t.Text() == sql[i..i + n];
    ExtendSound(done, t, sql[i + n..]);
    LastOfToken(LastWord(done), t, sql[i + n..]);
    assert t.Text()[n - 1] == sql[i + n - 1];
    assert LastWord(Extend(done, t)) == EndsInWord(t);
  }

  /** The token at position `i`, in terms of the tests the scanner makes there. */
  lemma TokenAt(sql: string, i: nat)
    requires i < |sql|
    ensures var t := FirstToken(AfterWordAt(sql, i), sql[i..]);
            if IsQuote(sql[i]) then
              var end := Find(sql, [sql[i]], i + 1);
              !t.Keyword? && t.Text() == if end == -1 then sql[i..] else sql[i..end + 1]
            else if StartsKeyword(AfterWordAt(sql, i), sql[i..]) then
              i + 4 <= |sql| && t == Keyword(sql[i..i + 4])
            else t == Plain(sql[i])
  {
    hide Find, OccursAt, IsQuote, AfterWordAt, IsWord, Upper;
    var rest := sql[i..];
    FindShift(sql, [sql[i]], i, 1);
    var r := Find(rest, [sql[i]], 1);
    assert r != -1 ==> rest[..r + 1] == sql[i..i + r + 1];
    assert |rest| >= 4 ==> rest[..4] == sql[i..i + 4];
  }

  /** The scanner's list after one more token. */
  lemma ChunksExtend(done: List<Piece>, t: Token)
    ensures Chunks(Extend(done, t)) ==
            if t.Keyword? && NeedsRowId(Join(Chunks(done))) then Chunks(DropSpace(done)) + [INSERTION] + [t.Text()]
            else Chunks(done) + [t.Text()]
  {
    hide NeedsRowId;
    JoinChunks(done);
  }

  /** `_add_row_id_to_all_selects`: the loop of the source, on its list of chunks. */
  method AddRowIdToAllSelects(sql: string) returns (out: string)
    ensures out == Threaded(sql)
  {
    hide Find, At, NeedsRowId, FirstToken, StartsKeyword, AfterWordAt, IsQuote, Join, Extend, DropSpace;
    var result: seq<string> := [];
    var i := 0;
    ghost var done: List<Piece> := Nil;
    Start(sql);
    while i < |sql|
      invariant 0 <= i <= |sql|
      invariant result == Chunks(done) && At(sql, i, done)
    {
      ghost var t := FirstToken(AfterWordAt(sql, i), sql[i..]);
      TokenAt(sql, i);
      ReadStep(sql, i, done, t);
      ChunksExtend(done, t);
      if IsQuote(sql[i]) {
        var end := Find(sql, [sql[i]], i + 1);
        done := Extend(done, t);
        if end == -1 {
          result := result + [sql[i..]];
          i := |sql|;
          break;
        }
        result := result + [sql[i..end + 1]];
        i := end + 1;
        continue;
      }
      if StartsKeyword(AfterWordAt(sql, i), sql[i..]) {
        var preceding := Join(result);
        if NeedsRowId(preceding) {
          SoundAt(sql, i, done);
          result := PopBlank(result, done);
          result := result + [INSERTION];
        }
        result := result + [sql[i..i + 4]];
        i := i + 4;
        done := Extend(done, t);
        continue;
      }
      result := result + [[sql[i]]];
      i := i + 1;
      done := Extend(done, t);
    }
    Finish(sql, done);
    out := Join(result);
  }

  lemma Start(sql: string)
    ensures At(sql, 0, Nil)
  {
    assert sql[0..] == sql;
  }

  lemma SoundAt(sql: string, i: nat, done: List<Piece>)
    requires At(sql, i, done)
    ensures Solid(done) && Placed(done, End)
  {
  }

  lemma Finish(sql: string, done: List<Piece>)
    requires At(sql, |sql|, done)
    ensures Join(Chunks(done)) == Threaded(sql)
  {
    JoinChunks(done);
  }
}
