/** Python's string primitives used by the dashboard, restricted to ASCII:
    `str.isspace`, `str.lower`, `str.split()`, `' '.join`, `str.strip()`,
    `sep in s`, `s.split(sep)`, `sep.join` and `s.replace(old, new)`. */
module Text {

  /** `c.isspace()` for the ASCII range: space, \t, \n, \v, \f, \r and the
      four separator controls \x1c to \x1f. */
  predicate IsSpace(c: char) {
    c == ' ' || c == '\t' || c == '\n' || c == '\r' || c == '\U{000B}' || c == '\U{000C}'
    || ('\U{001C}' <= c <= '\U{001F}')
  }

  predicate IsUpper(c: char) { 'A' <= c <= 'Z' }

  /** No ASCII capital letter anywhere in `s`. */
  predicate AllLower(s: string) {
    forall i :: 0 <= i < |s| ==> !IsUpper(s[i])
  }

  function LowerChar(c: char): char {
    if IsUpper(c) then (c as int + 32) as char else c
  }

  /** `s.lower()`, ASCII only: every capital becomes its small letter, every
      other character is kept, the length does not change. */
  function Lower(s: string): (r: string)
    ensures |r| == |s| && AllLower(r)
    ensures forall i :: 0 <= i < |s| && IsUpper(s[i]) ==> r[i] as int == s[i] as int + 32
    ensures forall i :: 0 <= i < |s| && !IsUpper(s[i]) ==> r[i] == s[i]
  {
    seq(|s|, i requires 0 <= i < |s| => LowerChar(s[i]))
  }

  lemma LowerOfLower(s: string)
    requires AllLower(s)
    ensures Lower(s) == s
  {
  }

  // ---------------------------------------------------------------------
  // Whitespace tokens: `s.split()` and `' '.join(ts)`

  /** A whitespace token: non-empty and free of whitespace. */
  predicate Token(t: string) {
    |t| > 0 && forall i :: 0 <= i < |t| ==> !IsSpace(t[i])
  }

  predicate AllTokens(ts: seq<string>) {
    forall i :: 0 <= i < |ts| ==> Token(ts[i])
  }

  /** Length of the longest whitespace-free prefix of `s`. */
  function TokenLen(s: string): (n: nat)
    ensures n <= |s|
    ensures forall i :: 0 <= i < n ==> !IsSpace(s[i])
    ensures n < |s| ==> IsSpace(s[n])
  {
    if s == [] || IsSpace(s[0]) then 0 else 1 + TokenLen(s[1..])
  }

  /** `s.split()`: the maximal whitespace-free runs of `s`, left to right;
      leading, trailing and repeated whitespace yield no empty pieces. */
  function Split(s: string): (ts: seq<string>)
    ensures AllTokens(ts)
    decreases |s|
  {
    if s == [] then []
    else if IsSpace(s[0]) then Split(s[1..])
    else
      var n := TokenLen(s);
      [s[..n]] + Split(s[n..])
  }

  /** `' '.join(ts)`. */
  function Join(ts: seq<string>): string {
    if ts == [] then ""
    else if |ts| == 1 then ts[0]
    else ts[0] + " " + Join(ts[1..])
  }

  /** Only plain spaces separate the text, never at either end and never two
      in a row: the shape `' '.join` gives to a list of whitespace tokens. */
  predicate SingleSpaced(r: string) {
    forall i :: 0 <= i < |r| && IsSpace(r[i]) ==> r[i] == ' ' && 0 < i < |r| - 1 && !IsSpace(r[i + 1])
  }

  lemma TokenLenOfToken(t: string, rest: string)
    requires Token(t)
    requires rest == [] || IsSpace(rest[0])
    ensures TokenLen(t + rest) == |t|
    decreases |t|
  {
    assert (t + rest)[1..] == t[1..] + rest;
    if |t| > 1 {
      TokenLenOfToken(t[1..], rest);
    }
  }

  lemma SplitSpace(j: string)
    ensures Split(" " + j) == Split(j)
  {
    assert (" " + j)[1..] == j;
  }

  lemma SplitToken(t: string)
    requires Token(t)
    ensures Split(t) == [t]
  {
    TokenLenOfToken(t, []);
    assert t + [] == t;
    assert t[|t|..] == [];
  }

  /** Splitting a joined list of tokens gives the tokens back. */
  lemma {:induction false} SplitJoin(ts: seq<string>)
    requires AllTokens(ts)
    ensures Split(Join(ts)) == ts
  {
    if ts == [] {
    } else if |ts| == 1 {
      SplitToken(ts[0]);
    } else {
      var t, j := ts[0], Join(ts[1..]);
      var s := t + (" " + j);
      assert Join(ts) == s;
      TokenLenOfToken(t, " " + j);
      assert s[..|t|] == t;
      assert s[|t|..] == " " + j;
      SplitSpace(j);
      SplitJoin(ts[1..]);
      assert ts == [t] + ts[1..];
    }
  }

  /** Leading whitespace produces no token. */
  lemma {:induction false} SplitLeadingSpace(w: string, b: string)
    requires AllSpace(w)
    ensures Split(w + b) == Split(b)
    decreases |w|
  {
    if w != [] {
      assert (w + b)[1..] == w[1..] + b;
      SplitLeadingSpace(w[1..], b);
    } else {
      assert w + b == b;
    }
  }

  /** A text made of whitespace only has no tokens. */
  lemma SplitAllSpace(w: string)
    requires AllSpace(w)
    ensures Split(w) == []
  {
    SplitLeadingSpace(w, []);
    assert w + [] == w;
  }

  /** A token of `a + r` stops where the token of `a` stops when `r` starts
      with whitespace. */
  lemma {:induction false} TokenLenBefore(a: string, r: string)
    requires r != [] && IsSpace(r[0])
    ensures TokenLen(a + r) == TokenLen(a)
    decreases |a|
  {
    if a == [] {
      assert a + r == r;
    } else {
      assert (a + r)[0] == a[0];
      assert (a + r)[1..] == a[1..] + r;
      if !IsSpace(a[0]) {
        TokenLenBefore(a[1..], r);
      }
    }
  }

  /** A run of whitespace separates tokens: the tokens of `a + w + b` are
      those of `a` followed by those of `b`. With `SplitAllSpace` and
      `SplitToken` this fixes `Split` on every input: the maximal
      whitespace-free runs, in order. */
  lemma {:induction false} SplitAppendSpace(a: string, w: string, b: string)
    requires w != [] && AllSpace(w)
    ensures Split(a + w + b) == Split(a) + Split(b)
    decreases |a|
  {
    var s := a + w + b;
    if a == [] {
      assert s == w + b;
      SplitLeadingSpace(w, b);
    } else if IsSpace(a[0]) {
      assert s[0] == a[0];
      assert s[1..] == a[1..] + w + b;
      SplitAppendSpace(a[1..], w, b);
    } else {
      assert s[0] == a[0];
      assert s == a + (w + b);
      TokenLenBefore(a, w + b);
      var n := TokenLen(a);
      assert s[..n] == a[..n];
      assert s[n..] == a[n..] + w + b;
      SplitAppendSpace(a[n..], w, b);
    }
  }

  lemma {:induction false} JoinNonEmpty(ts: seq<string>)
    requires AllTokens(ts) && ts != []
    ensures |Join(ts)| > 0 && !IsSpace(Join(ts)[0])
  {
    if |ts| > 1 {
      assert Join(ts)[0] == ts[0][0];
    }
  }

  /** `' '.join` of tokens is single-spaced. */
  lemma {:induction false} JoinSingleSpaced(ts: seq<string>)
    requires AllTokens(ts)
    ensures SingleSpaced(Join(ts))
  {
    if |ts| > 1 {
      var t, j := ts[0], Join(ts[1..]);
      var r := t + " " + j;
      assert Join(ts) == r;
      JoinSingleSpaced(ts[1..]);
      JoinNonEmpty(ts[1..]);
      forall i | 0 <= i < |r| && IsSpace(r[i])
        ensures r[i] == ' ' && 0 < i < |r| - 1 && !IsSpace(r[i + 1])
      {
        if i == |t| {
          assert r[i + 1] == j[0];
        } else {
          assert r[i] == j[i - |t| - 1];
          assert i + 1 < |r| ==> r[i + 1] == j[i - |t|];
        }
      }
    }
  }

  /** `' '.join` of lower-case tokens is lower-case. */
  lemma {:induction false} JoinAllLower(ts: seq<string>)
    requires forall i :: 0 <= i < |ts| ==> AllLower(ts[i])
    ensures AllLower(Join(ts))
  {
    if |ts| > 1 {
      JoinAllLower(ts[1..]);
      var t, j := ts[0], Join(ts[1..]);
      assert Join(ts) == t + " " + j;
      forall i | 0 <= i < |Join(ts)| ensures !IsUpper(Join(ts)[i]) {
        if i < |t| {
          assert Join(ts)[i] == t[i];
        } else if i > |t| {
          assert Join(ts)[i] == j[i - |t| - 1];
        }
      }
    }
  }

  /** The tokens of a lower-case text are lower-case. */
  lemma {:induction false} SplitAllLower(s: string)
    requires AllLower(s)
    ensures forall i :: 0 <= i < |Split(s)| ==> AllLower(Split(s)[i])
    decreases |s|
  {
    if s == [] {
    } else if IsSpace(s[0]) {
      SplitAllLower(s[1..]);
    } else {
      var n := TokenLen(s);
      SplitAllLower(s[n..]);
      assert Split(s) == [s[..n]] + Split(s[n..]);
    }
  }

  // ---------------------------------------------------------------------
  // `s.strip()`

  /** Number of whitespace characters at the start of `s`. */
  function LeadingSpace(s: string): (n: nat)
    ensures n <= |s|
    ensures forall i :: 0 <= i < n ==> IsSpace(s[i])
    ensures n < |s| ==> !IsSpace(s[n])
  {
    if s != [] && IsSpace(s[0]) then 1 + LeadingSpace(s[1..]) else 0
  }

  /** Number of whitespace characters at the end of `s`. */
  function TrailingSpace(s: string): (n: nat)
    ensures n <= |s|
    ensures forall i :: |s| - n <= i < |s| ==> IsSpace(s[i])
    ensures n < |s| ==> !IsSpace(s[|s| - 1 - n])
  {
    if s != [] && IsSpace(s[|s| - 1]) then 1 + TrailingSpace(s[..|s| - 1]) else 0
  }

  predicate AllSpace(s: string) {
    forall i :: 0 <= i < |s| ==> IsSpace(s[i])
  }

  /** `s.strip()`: `s` without its leading and trailing whitespace. The result
      is a slice of `s` that neither starts nor ends with whitespace, and
      everything cut away on either side is whitespace. */
  function Strip(s: string): (r: string)
    ensures r == [] || (!IsSpace(r[0]) && !IsSpace(r[|r| - 1]))
    ensures exists a :: 0 <= a <= |s| - |r| && r == s[a..a + |r|]
                        && AllSpace(s[..a]) && AllSpace(s[a + |r|..])
  {
    var a := LeadingSpace(s);
    var m := s[a..];
    var r := m[..|m| - TrailingSpace(m)];
    assert r == s[a..a + |r|];
    assert AllSpace(s[..a]);
    assert s[a + |r|..] == m[|r|..];
    assert AllSpace(m[|r|..]);
    r
  }

  /** `s.endswith(suffix)`. (`s.startswith(prefix)` is Dafny's `prefix <= s`.) */
  predicate EndsWith(s: string, suffix: string) {
    |suffix| <= |s| && s[|s| - |suffix|..] == suffix
  }

  // ---------------------------------------------------------------------
  // Literal separators: `sep in s`, `s.split(sep)`, `sep.join(ps)`,
  // `s.replace(old, new)`

  /** `pat in s`: `pat` occurs somewhere in `s`. */
  predicate Contains(s: string, pat: string) {
    exists i :: 0 <= i <= |s| - |pat| && OccursAt(s, pat, i)
  }

  /** `pat` occurs in `s` starting at index `i`. */
  predicate OccursAt(s: string, pat: string, i: int)
    requires 0 <= i <= |s| - |pat|
  {
    s[i..i + |pat|] == pat
  }

  /** `s.count(pat)`: occurrences of `pat` found scanning left to right,
      resuming after each one (non-overlapping). */
  function Count(s: string, pat: string): nat
    requires pat != []
    decreases |s|
  {
    if |s| < |pat| then 0
    else if s[..|pat|] == pat then 1 + Count(s[|pat|..], pat)
    else Count(s[1..], pat)
  }

  /** Python's `s.split(sep)` with a literal separator: the pieces between
      non-overlapping occurrences of `sep`, found left to right. */
  function SplitOn(s: string, sep: string): (ps: seq<string>)
    requires sep != []
    ensures |ps| == Count(s, sep) + 1
    decreases |s|
  {
    if |s| < |sep| then [s]
    else if s[..|sep|] == sep then [""] + SplitOn(s[|sep|..], sep)
    else
      var rest := SplitOn(s[1..], sep);
      [[s[0]] + rest[0]] + rest[1..]
  }

  /** `sep.join(ps)`. */
  function JoinWith(ps: seq<string>, sep: string): string {
    if ps == [] then ""
    else if |ps| == 1 then ps[0]
    else ps[0] + sep + JoinWith(ps[1..], sep)
  }

  /** `s.replace(old, new)`: every non-overlapping occurrence of `target`,
      found left to right, becomes `repl`. Case-sensitive. */
  function ReplaceAll(s: string, target: string, repl: string): (r: string)
    requires target != []
    ensures |r| == |s| + Count(s, target) * (|repl| - |target|)
    decreases |s|
  {
    if |s| < |target| then s
    else if s[..|target|] == target then
      MulSucc(Count(s[|target|..], target), |repl| - |target|);
      repl + ReplaceAll(s[|target|..], target, repl)
    else [s[0]] + ReplaceAll(s[1..], target, repl)
  }

  /** `pat in s` holds exactly when the scan finds at least one occurrence. */
  lemma {:induction false} ContainsIffCount(s: string, pat: string)
    requires pat != []
    ensures Contains(s, pat) <==> Count(s, pat) > 0
    decreases |s|
  {
    if |s| < |pat| {
    } else if s[..|pat|] == pat {
      assert OccursAt(s, pat, 0);
    } else {
      ContainsIffCount(s[1..], pat);
      if Contains(s, pat) {
        var i :| 0 <= i <= |s| - |pat| && OccursAt(s, pat, i);
        assert i != 0;
        assert s[1..][i - 1..i - 1 + |pat|] == s[i..i + |pat|];
        assert OccursAt(s[1..], pat, i - 1);
      }
      if Contains(s[1..], pat) {
        var i :| 0 <= i <= |s[1..]| - |pat| && OccursAt(s[1..], pat, i);
        assert s[1..][i..i + |pat|] == s[i + 1..i + 1 + |pat|];
        assert OccursAt(s, pat, i + 1);
      }
    }
  }

  /** Without an occurrence of `sep` the text is its only piece. */
  lemma SplitOnAbsent(s: string, sep: string)
    requires sep != [] && !Contains(s, sep)
    ensures SplitOn(s, sep) == [s]
  {
    ContainsIffCount(s, sep);
    JoinSplitOn(s, sep);
  }

  /** When the first occurrence of `sep` follows `a`, the first piece is
      `a` and the remaining pieces are those of what follows `sep`. */
  lemma {:induction false} SplitOnFirst(a: string, sep: string, b: string)
    requires sep != []
    requires forall i :: 0 <= i < |a| ==> !OccursAt(a + sep + b, sep, i)
    ensures SplitOn(a + sep + b, sep) == [a] + SplitOn(b, sep)
    decreases |a|
  {
    var s := a + sep + b;
    if a == [] {
      assert s == sep + b;
      assert s[..|sep|] == sep;
      assert s[|sep|..] == b;
    } else {
      assert !OccursAt(s, sep, 0);
      assert s[1..] == a[1..] + sep + b;
      forall i | 0 <= i < |a[1..]| ensures !OccursAt(a[1..] + sep + b, sep, i) {
        assert !OccursAt(s, sep, i + 1);
        assert s[i + 1..i + 1 + |sep|] == s[1..][i..i + |sep|];
      }
      SplitOnFirst(a[1..], sep, b);
      assert a == [a[0]] + a[1..];
    }
  }

  /** An occurrence begins with the first two characters of the pattern. */
  lemma OccursAtStart(s: string, pat: string, i: int)
    requires |pat| >= 2 && 0 <= i <= |s| - |pat| && OccursAt(s, pat, i)
    ensures s[i] == pat[0] && s[i + 1] == pat[1]
  {
    assert s[i..i + |pat|][0] == s[i];
    assert s[i..i + |pat|][1] == s[i + 1];
  }

  /** Re-joining the pieces with the separator gives the text back. */
  lemma {:induction false} JoinSplitOn(s: string, sep: string)
    requires sep != []
    ensures JoinWith(SplitOn(s, sep), sep) == s
    decreases |s|
  {
    if |s| < |sep| {
    } else if s[..|sep|] == sep {
      JoinSplitOn(s[|sep|..], sep);
      assert s == sep + s[|sep|..];
    } else {
      var rest := SplitOn(s[1..], sep);
      JoinSplitOn(s[1..], sep);
      JoinWithConsFirst(s[0], rest, sep);
      assert s == [s[0]] + s[1..];
    }
  }

  lemma JoinWithConsFirst(c: char, ps: seq<string>, sep: string)
    requires ps != []
    ensures JoinWith([[c] + ps[0]] + ps[1..], sep) == [c] + JoinWith(ps, sep)
  {
    var qs := [[c] + ps[0]] + ps[1..];
    assert qs[1..] == ps[1..];
  }

  /** `s.replace(old, new)` is `new.join(s.split(old))`. */
  lemma {:induction false} ReplaceIsSplitJoin(s: string, target: string, repl: string)
    requires target != []
    ensures ReplaceAll(s, target, repl) == JoinWith(SplitOn(s, target), repl)
    decreases |s|
  {
    if |s| < |target| {
    } else if s[..|target|] == target {
      ReplaceIsSplitJoin(s[|target|..], target, repl);
      var rest := SplitOn(s[|target|..], target);
      assert ([""] + rest)[1..] == rest;
    } else {
      ReplaceIsSplitJoin(s[1..], target, repl);
      JoinWithConsFirst(s[0], SplitOn(s[1..], target), repl);
    }
  }

  /** Without an occurrence of `target`, `replace` returns the text unchanged. */
  lemma {:induction false} ReplaceAbsent(s: string, target: string, repl: string)
    requires target != [] && !Contains(s, target)
    ensures ReplaceAll(s, target, repl) == s
    decreases |s|
  {
    ContainsIffCount(s, target);
    if |s| >= |target| {
      assert !OccursAt(s, target, 0);
      ContainsIffCount(s[1..], target);
      ReplaceAbsent(s[1..], target, repl);
      assert s == [s[0]] + s[1..];
    }
  }

  /** Arithmetic step for the length law of `ReplaceAll`. */
  lemma MulSucc(c: nat, d: int)
    ensures (c + 1) * d == c * d + d
  {
  }
}
