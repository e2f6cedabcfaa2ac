/**
 ASCII text primitives used by the SQL scanners of `datastore/connection.py`: the Python
 string operations `find`, `rfind`, `count`, `upper`, `lower` and `strip`, each specified by
 the occurrence relation rather than by how it searches.
 */
module SqlText {

  function UpperChar(c: char): char {
    if 'a' <= c <= 'z' then c - 'a' + 'A' else c
  }

  function LowerChar(c: char): char {
    if 'A' <= c <= 'Z' then c - 'A' + 'a' else c
  }

  function Upper(s: string): (r: string)
    ensures |r| == |s|
    ensures forall i :: 0 <= i < |s| ==> r[i] == UpperChar(s[i])
  {
    seq(|s|, i requires 0 <= i < |s| => UpperChar(s[i]))
  }

  function Lower(s: string): (r: string)
    ensures |r| == |s|
    ensures forall i :: 0 <= i < |s| ==> r[i] == LowerChar(s[i])
  {
    seq(|s|, i requires 0 <= i < |s| => LowerChar(s[i]))
  }

  lemma UpperSlice(s: string, a: nat, b: nat)
    requires a <= b <= |s|
    ensures Upper(s[a..b]) == Upper(s)[a..b]
  {
  }

  /** The ASCII characters for which Python's `isspace()` holds. */
  predicate IsSpace(c: char) {
    c == ' ' || '\t' <= c <= '\r' || '\U{001C}' <= c <= '\U{001F}'
  }

  /** A character of a SQL word: `isalnum()` or an underscore. */
  predicate IsWord(c: char) {
    'a' <= c <= 'z' || 'A' <= c <= 'Z' || '0' <= c <= '9' || c == '_'
  }

  predicate IsQuote(c: char) {
    c == '"' || c == '\''
  }

  /** The character classes and the change of case, by ASCII code. */
  lemma AsciiClasses(c: char)
    ensures var n := c as int;
            && (IsSpace(c) <==> n == 32 || 9 <= n <= 13 || 28 <= n <= 31)
            && (IsWord(c) <==> 48 <= n <= 57 || 65 <= n <= 90 || n == 95 || 97 <= n <= 122)
            && (IsQuote(c) <==> n == 34 || n == 39)
            && UpperChar(c) as int == (if 97 <= n <= 122 then n - 32 else n)
            && LowerChar(c) as int == (if 65 <= n <= 90 then n + 32 else n)
  {
    var a, z := 'a', 'Z';
    assert a as int == 97 && z as int == 90;
  }

  predicate AllSpace(s: string) {
    forall k :: 0 <= k < |s| ==> IsSpace(s[k])
  }

  /** `pat` occurs in `s` at index `i`. */
  predicate OccursAt(s: string, pat: string, i: int) {
    0 <= i && i + |pat| <= |s| && s[i..i + |pat|] == pat
  }

  lemma OccursChar(s: string, c: char, i: int)
    ensures OccursAt(s, [c], i) <==> 0 <= i < |s| && s[i] == c
  {
    if 0 <= i < |s| {
      assert s[i..i + 1] == [s[i]];
    }
  }

  /** One differing character rules an occurrence out. */
  lemma Mismatch(s: string, pat: string, i: nat, j: nat)
    requires j < |pat| && i + j < |s| && s[i + j] != pat[j]
    ensures !OccursAt(s, pat, i)
  {
    if i + |pat| <= |s| {
      assert s[i..i + |pat|][j] == s[i + j];
    }
  }

  /** Occurrences in a slice are the occurrences that lie within it. */
  lemma OccursInSlice(s: string, pat: string, a: nat, b: nat, i: nat)
    requires a <= b <= |s|
    ensures OccursAt(s[a..b], pat, i) <==> OccursAt(s, pat, a + i) && a + i + |pat| <= b
  {
    if a + i + |pat| <= b {
      var x, y := s[a..b][i..i + |pat|], s[a + i..a + i + |pat|];
      assert forall k :: 0 <= k < |pat| ==> x[k] == y[k];
    }
  }

  /** Python's `s.find(pat, from)`: the leftmost occurrence at or after `from`, or -1. */
  function Find(s: string, pat: string, from: nat): (r: int)
    ensures r == -1 ==> forall k :: from <= k ==> !OccursAt(s, pat, k)
    ensures r != -1 ==> from <= r <= |s| - |pat| && OccursAt(s, pat, r)
    ensures r != -1 ==> forall k :: from <= k < r ==> !OccursAt(s, pat, k)
    decreases |s| - from
  {
    if |s| < from + |pat| then -1
    else if s[from..from + |pat|] == pat then from
    else Find(s, pat, from + 1)
  }

  /** Python's `s.rfind(pat)`, restricted to occurrences starting before `end`. */
  function RFindBefore(s: string, pat: string, end: nat): (r: int)
    ensures r == -1 ==> forall k :: 0 <= k < end ==> !OccursAt(s, pat, k)
    ensures r != -1 ==> 0 <= r < end && OccursAt(s, pat, r)
    ensures r != -1 ==> forall k :: r < k < end ==> !OccursAt(s, pat, k)
  {
    if end == 0 then -1
    else if OccursAt(s, pat, end - 1) then end - 1
    else RFindBefore(s, pat, end - 1)
  }

  /** Python's `s.rfind(pat)`: the rightmost occurrence, or -1. */
  function RFind(s: string, pat: string): (r: int)
    ensures r == -1 ==> forall k :: !OccursAt(s, pat, k)
    ensures r != -1 ==> OccursAt(s, pat, r)
    ensures r != -1 ==> forall k :: r < k ==> !OccursAt(s, pat, k)
  {
    RFindBefore(s, pat, |s| + 1)
  }

  /** Python's `s.count(c)` for a single character. */
  function Count(s: string, c: char): nat {
    if s == "" then 0 else Count(s[..|s| - 1], c) + if s[|s| - 1] == c then 1 else 0
  }

  lemma {:induction false} CountConcat(a: string, b: string, c: char)
    ensures Count(a + b, c) == Count(a, c) + Count(b, c)
  {
    if b == "" {
      assert a + b == a;
    } else {
      assert (a + b)[..|a + b| - 1] == a + b[..|b| - 1];
      CountConcat(a, b[..|b| - 1], c);
    }
  }

  function TrimLeft(s: string): string {
    if s != "" && IsSpace(s[0]) then TrimLeft(s[1..]) else s
  }

  function TrimRight(s: string): string {
    if s != "" && IsSpace(s[|s| - 1]) then TrimRight(s[..|s| - 1]) else s
  }

  /** Python's `s.strip()`. */
  function Strip(s: string): string {
    TrimRight(TrimLeft(s))
  }

  /** Stripping removes whitespace at both ends, all of it and nothing else. */
  lemma {:induction false} StripIsSlice(s: string) returns (i: nat, j: nat)
    ensures i <= j <= |s| && Strip(s) == s[i..j]
    ensures forall k :: 0 <= k < i || j <= k < |s| ==> IsSpace(s[k])
    ensures i < j ==> !IsSpace(s[i]) && !IsSpace(s[j - 1])
  {
    i := TrimLeftIsSlice(s);
    var n := TrimRightIsSlice(s[i..]);
    j := i + n;
    assert s[i..][..n] == s[i..j];
    forall k | j <= k < |s| ensures IsSpace(s[k]) {
      assert s[i..][k - i] == s[k];
    }
  }

  lemma {:induction false} TrimLeftIsSlice(s: string) returns (i: nat)
    ensures i <= |s| && TrimLeft(s) == s[i..] && forall k :: 0 <= k < i ==> IsSpace(s[k])
    ensures i < |s| ==> !IsSpace(s[i])
  {
    if s != "" && IsSpace(s[0]) {
      var n := TrimLeftIsSlice(s[1..]);
      i := n + 1;
      assert s[1..][n..] == s[i..];
      forall k | 0 <= k < i ensures IsSpace(s[k]) {
        assert k > 0 ==> s[1..][k - 1] == s[k];
      }
    } else {
      i := 0;
    }
  }

  lemma {:induction false} TrimRightIsSlice(s: string) returns (n: nat)
    ensures n <= |s| && TrimRight(s) == s[..n] && forall k :: n <= k < |s| ==> IsSpace(s[k])
    ensures 0 < n ==> !IsSpace(s[n - 1])
  {
    if s != "" && IsSpace(s[|s| - 1]) {
      n := TrimRightIsSlice(s[..|s| - 1]);
      assert s[..|s| - 1][..n] == s[..n];
    } else {
      n := |s|;
    }
  }
}
