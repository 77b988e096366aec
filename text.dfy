/**
 * String helpers shared by the model: PHP's `explode`/`implode` on separators, substring
 * search (`strpos`), the ASCII case folding that a `/i` regular expression applies, and the
 * truthiness PHP gives to strings.
 */
module Text {

  datatype Option<+T> = None | Some(value: T)

  /** PHP truthiness of a string: every string except "" and "0" is truthy. */
  predicate IsTruthy(s: string) {
    s != "" && s != "0"
  }

  /** An optional string that is present and truthy (`$x ? ... : ...` on `?string`). */
  predicate Truthy(o: Option<string>) {
    o.Some? && IsTruthy(o.value)
  }

  /** ASCII lower-casing, the only case folding a non-UTF-8 PCRE pattern applies. */
  function Lower(c: char): char {
    if 'A' <= c <= 'Z' then (c as int + 32) as char else c
  }

  /** `p` occurs in `s` at index `i` (case-sensitive). */
  predicate MatchAt(s: string, i: int, p: string) {
    0 <= i && i + |p| <= |s| && s[i..i + |p|] == p
  }

  /** `p` occurs in `s` at index `i`, ASCII letters compared case-insensitively. */
  predicate CiMatchAt(s: string, i: int, p: string) {
    0 <= i && i + |p| <= |s| && forall j :: 0 <= j < |p| ==> Lower(s[i + j]) == Lower(p[j])
  }

  /** `a` equals `b` up to ASCII case. */
  predicate CiEqual(a: string, b: string) {
    |a| == |b| && CiMatchAt(a, 0, b)
  }

  /** A case-insensitive match of `p + q` is a match of `p` followed by a match of `q`. */
  lemma CiMatchAppend(s: string, i: int, p: string, q: string)
    ensures CiMatchAt(s, i, p + q) <==> CiMatchAt(s, i, p) && CiMatchAt(s, i + |p|, q)
  {
    if CiMatchAt(s, i, p) && CiMatchAt(s, i + |p|, q) {
      forall j | 0 <= j < |p + q| ensures Lower(s[i + j]) == Lower((p + q)[j]) {
        if j < |p| {
          assert (p + q)[j] == p[j];
        } else {
          assert (p + q)[j] == q[j - |p|];
          assert Lower(s[i + |p| + (j - |p|)]) == Lower(q[j - |p|]);
        }
      }
    }
    if CiMatchAt(s, i, p + q) {
      forall j | 0 <= j < |p| ensures Lower(s[i + j]) == Lower(p[j]) {
        assert (p + q)[j] == p[j];
      }
      forall j | 0 <= j < |q| ensures Lower(s[i + |p| + j]) == Lower(q[j]) {
        assert Lower(s[i + (|p| + j)]) == Lower((p + q)[|p| + j]);
      }
    }
  }

  /** A prefix equal to `p` up to case is a case-insensitive match of `p` at index 0. */
  lemma CiEqualPrefix(s: string, p: string)
    requires |p| <= |s|
    ensures CiEqual(s[..|p|], p) <==> CiMatchAt(s, 0, p)
  {
    assert forall j :: 0 <= j < |p| ==> s[..|p|][j] == s[j];
  }

  /** Case folding leaves every character other than a letter where it was. */
  lemma SingleCharCiMatch(s: string, i: int, c: char)
    requires !('A' <= c <= 'Z') && !('a' <= c <= 'z')
    ensures CiMatchAt(s, i, [c]) <==> 0 <= i < |s| && s[i] == c
  {
    if CiMatchAt(s, i, [c]) {
      assert Lower(s[i + 0]) == Lower([c][0]);
    }
  }

  /** `false !== strpos(s, p)`: `p` is a substring of `s`. */
  predicate Contains(s: string, p: string) {
    exists i | 0 <= i <= |s| :: MatchAt(s, i, p)
  }

  predicate StartsWith(s: string, p: string) {
    |p| <= |s| && s[..|p|] == p
  }

  /** The first index of `c` in `s`. */
  function IndexOfChar(s: string, c: char): (r: nat)
    requires c in s
    ensures r < |s| && s[r] == c && c !in s[..r]
  {
    if s[0] == c then 0
    else
      assert c in s[1..] by { var k :| 0 <= k < |s| && s[k] == c; assert s[1..][k - 1] == c; }
      var r := 1 + IndexOfChar(s[1..], c);
      assert s[..r] == [s[0]] + s[1..][..r - 1];
      r
  }

  /** PHP `explode("\n", s)`: never empty, `explode("\n", "") == [""]`. */
  function SplitLines(s: string): (lines: seq<string>)
    ensures |lines| >= 1
    decreases |s|
  {
    if '\n' !in s then [s]
    else
      var i := IndexOfChar(s, '\n');
      [s[..i]] + SplitLines(s[i + 1..])
  }

  /** No line of `explode("\n", s)` holds a line break. */
  lemma {:induction false} SplitLinesHaveNoBreaks(s: string)
    ensures forall i :: 0 <= i < |SplitLines(s)| ==> '\n' !in SplitLines(s)[i]
    decreases |s|
  {
    if '\n' in s {
      var n := IndexOfChar(s, '\n');
      SplitLinesHaveNoBreaks(s[n + 1..]);
      var lines := SplitLines(s);
      forall i | 0 <= i < |lines| ensures '\n' !in lines[i] {
        if i > 0 {
          assert lines[i] == SplitLines(s[n + 1..])[i - 1];
        }
      }
    }
  }

  /** PHP `implode(sep, xs)`. */
  function Join(sep: string, xs: seq<string>): string
    decreases |xs|
  {
    if |xs| == 0 then ""
    else if |xs| == 1 then xs[0]
    else xs[0] + sep + Join(sep, xs[1..])
  }

  /** Joining after splitting gives back the original text. */
  lemma {:induction false} JoinSplitLines(s: string)
    ensures Join("\n", SplitLines(s)) == s
    decreases |s|
  {
    if '\n' in s {
      var i := IndexOfChar(s, '\n');
      var rest := SplitLines(s[i + 1..]);
      JoinSplitLines(s[i + 1..]);
      assert SplitLines(s) == [s[..i]] + rest;
      assert ([s[..i]] + rest)[1..] == rest;
      assert s == s[..i] + "\n" + s[i + 1..];
    }
  }

  /** Splitting after joining newline-free lines gives back the lines. */
  lemma {:induction false} SplitLinesJoin(lines: seq<string>)
    requires |lines| >= 1
    requires forall i :: 0 <= i < |lines| ==> '\n' !in lines[i]
    ensures SplitLines(Join("\n", lines)) == lines
    decreases |lines|
  {
    if |lines| > 1 {
      var s := Join("\n", lines);
      var tail := Join("\n", lines[1..]);
      assert s == lines[0] + "\n" + tail;
      assert s[|lines[0]|] == '\n';
      assert '\n' in s;
      var i := IndexOfChar(s, '\n');
      assert s[..i] == lines[0];
      assert s[i + 1..] == tail;
      SplitLinesJoin(lines[1..]);
      assert SplitLines(s) == [lines[0]] + lines[1..];
    }
  }

  /** Concatenation of strings is associative; stated apart so that callers need not unfold anything to use it. */
  lemma ConcatAssoc(a: string, b: string, c: string)
    ensures a + (b + c) == (a + b) + c
  {
  }

  /** Appending one more element to a joined list appends one separator and that element. */
  lemma {:induction false} JoinSnoc(sep: string, xs: seq<string>, x: string)
    requires |xs| >= 1
    ensures Join(sep, xs + [x]) == Join(sep, xs) + sep + x
    decreases |xs|
  {
    if |xs| == 1 {
      assert (xs + [x])[1..] == [x];
    } else {
      assert (xs + [x])[1..] == xs[1..] + [x];
      JoinSnoc(sep, xs[1..], x);
    }
  }

  /** Joining a list with a first element: the first element followed by the separator and the rest. */
  lemma JoinCons(sep: string, x: string, xs: seq<string>)
    requires |xs| >= 1
    ensures Join(sep, [x] + xs) == x + sep + Join(sep, xs)
  {
    assert ([x] + xs)[1..] == xs;
  }

  /** What a text contains, any text extended by it contains. */
  lemma ContainsInSuffix(a: string, b: string, p: string)
    requires Contains(b, p)
    ensures Contains(a + b, p)
  {
    var k :| 0 <= k <= |b| && MatchAt(b, k, p);
    assert (a + b)[|a| + k..|a| + k + |p|] == b[k..k + |p|];
    assert MatchAt(a + b, |a| + k, p);
  }

  /** What a text contains, that text followed by anything contains. */
  lemma ContainsInPrefix(a: string, b: string, p: string)
    requires Contains(a, p)
    ensures Contains(a + b, p)
  {
    var k :| 0 <= k <= |a| && MatchAt(a, k, p);
    assert (a + b)[k..k + |p|] == a[k..k + |p|];
    assert MatchAt(a + b, k, p);
  }

  /** Every element of a list occurs in the list joined with any separator. */
  lemma {:induction false} JoinContainsElement(sep: string, xs: seq<string>, j: nat)
    requires j < |xs|
    ensures Contains(Join(sep, xs), xs[j])
    decreases |xs|
  {
    assert MatchAt(xs[j], 0, xs[j]);
    if |xs| == 1 {
    } else if j == 0 {
      ContainsInPrefix(xs[0], sep + Join(sep, xs[1..]), xs[0]);
      assert Join(sep, xs) == xs[0] + (sep + Join(sep, xs[1..]));
    } else {
      JoinContainsElement(sep, xs[1..], j - 1);
      ContainsInSuffix(xs[0] + sep, Join(sep, xs[1..]), xs[j]);
    }
  }

  /** The lines of `a + "\n" + b`, when `a` has no newline, are `a` followed by the lines of `b`. */
  lemma FirstLineOf(a: string, b: string)
    requires '\n' !in a
    ensures SplitLines(a + "\n" + b)[0] == a
    ensures SplitLines(a + "\n" + b) == [a] + SplitLines(b)
  {
    var s := a + "\n" + b;
    assert s[|a|] == '\n';
    var i := IndexOfChar(s, '\n');
    assert s[..i] == a;
    assert s[i + 1..] == b;
  }

  /** Joining a newline-free first line onto more lines, then splitting, gives that line and then the lines of the rest. */
  lemma SplitJoinCons(x: string, xs: seq<string>)
    requires '\n' !in x && |xs| >= 1
    ensures SplitLines(Join("\n", [x] + xs)) == [x] + SplitLines(Join("\n", xs))
  {
    JoinCons("\n", x, xs);
    FirstLineOf(x, Join("\n", xs));
  }

  /** Four parts joined by line breaks: the first three, when newline-free, are lines of their own. */
  lemma SplitFourLines(a: string, b: string, c: string, d: string)
    requires '\n' !in a && '\n' !in b && '\n' !in c
    ensures SplitLines(Join("\n", [a, b, c, d])) == [a, b, c] + SplitLines(d)
  {
    var cd := SplitLines(Join("\n", [c, d]));
    var bcd := SplitLines(Join("\n", [b, c, d]));
    assert cd == [c] + SplitLines(d) by {
      assert [c, d] == [c] + [d];
      SplitJoinCons(c, [d]);
      assert Join("\n", [d]) == d;
    }
    assert bcd == [b] + cd by {
      assert [b, c, d] == [b] + [c, d];
      SplitJoinCons(b, [c, d]);
    }
    assert SplitLines(Join("\n", [a, b, c, d])) == [a] + bcd by {
      assert [a, b, c, d] == [a] + [b, c, d];
      SplitJoinCons(a, [b, c, d]);
    }
    assert [a] + ([b] + ([c] + SplitLines(d))) == [a, b, c] + SplitLines(d);
  }

  /**
   * A newline-free needle occurs in some line of `explode("\n", s)` exactly when it occurs
   * in `s`: scanning line by line misses nothing.
   */
  lemma {:induction false} ContainsInSomeLine(s: string, p: string)
    requires '\n' !in p
    ensures (exists i :: 0 <= i < |SplitLines(s)| && Contains(SplitLines(s)[i], p)) <==> Contains(s, p)
    decreases |s|
  {
    var lines := SplitLines(s);
    if Contains(s, p) {
      var i := LineContaining(s, p);
      assert 0 <= i < |lines| && Contains(lines[i], p);
    }
    if exists i :: 0 <= i < |lines| && Contains(lines[i], p) {
      var i :| 0 <= i < |lines| && Contains(lines[i], p);
      LineContainedIn(s, p, i);
    }
  }

  /** An occurrence of a newline-free needle lies inside one line. */
  lemma LineContaining(s: string, p: string) returns (i: nat)
    requires '\n' !in p && Contains(s, p)
    ensures i < |SplitLines(s)| && Contains(SplitLines(s)[i], p)
  {
    var k :| 0 <= k <= |s| && MatchAt(s, k, p);
    var m;
    i, m := LineContainingAt(s, p, k);
    assert MatchAt(SplitLines(s)[i], m, p);
  }

  /** One step of `explode`: the text up to the first line break, then the lines of the rest. */
  lemma SplitLinesStep(s: string) returns (n: nat)
    requires '\n' in s
    ensures n < |s| && s[n] == '\n'
    ensures SplitLines(s) == [s[..n]] + SplitLines(s[n + 1..])
  {
    n := IndexOfChar(s, '\n');
    assert n < |s| && s[n] == '\n';
  }

  /** A match inside a slice is a match in the whole text, shifted by the slice's start. */
  lemma MatchInSlice(s: string, lo: nat, hi: nat, k: nat, p: string)
    requires lo <= hi <= |s| && MatchAt(s[lo..hi], k, p)
    ensures MatchAt(s, lo + k, p)
  {
    forall j | 0 <= j < |p| ensures s[lo + k..lo + k + |p|][j] == p[j] {
      assert s[lo..hi][k..k + |p|][j] == p[j];
    }
  }

  /** A match lying within a slice is a match in that slice. */
  lemma MatchOfSlice(s: string, lo: nat, hi: nat, k: nat, p: string)
    requires lo <= k && k + |p| <= hi <= |s| && MatchAt(s, k, p)
    ensures MatchAt(s[lo..hi], k - lo, p)
  {
    forall j | 0 <= j < |p| ensures s[lo..hi][k - lo..k - lo + |p|][j] == p[j] {
      assert s[k..k + |p|][j] == p[j];
    }
  }

  /** The line holding the match of `p` at index `k` of `s`, and the match's index in that line. */
  lemma LineContainingAt(s: string, p: string, k: nat) returns (i: nat, m: nat)
    requires '\n' !in p && MatchAt(s, k, p)
    ensures i < |SplitLines(s)| && m <= |SplitLines(s)[i]| && MatchAt(SplitLines(s)[i], m, p)
    decreases |s|, 1
  {
    if '\n' !in s {
      assert SplitLines(s) == [s];
      return 0, k;
    }
    var n := SplitLinesStep(s);
    MatchAvoidsNewline(s, p, k, n);
    if k + |p| <= n {
      MatchInFirstLine(s, p, k, n);
      return 0, k;
    }
    i, m := LineContainingAfter(s, p, k, n);
  }

  /** The same, for a match after the first line break: it is in one of the later lines. */
  lemma LineContainingAfter(s: string, p: string, k: nat, n: nat) returns (i: nat, m: nat)
    requires '\n' !in p && MatchAt(s, k, p) && n < k && n < |s|
    requires SplitLines(s) == [s[..n]] + SplitLines(s[n + 1..])
    ensures i < |SplitLines(s)| && m <= |SplitLines(s)[i]| && MatchAt(SplitLines(s)[i], m, p)
    decreases |s|, 0
  {
    MatchInRest(s, p, k, n);
    var j;
    j, m := LineContainingAt(s[n + 1..], p, k - n - 1);
    i := j + 1;
  }

  /** A match of a newline-free needle lies wholly before or wholly after any line break. */
  lemma MatchAvoidsNewline(s: string, p: string, k: nat, n: nat)
    requires '\n' !in p && MatchAt(s, k, p) && n < |s| && s[n] == '\n'
    ensures k + |p| <= n || n < k
  {
    if k <= n < k + |p| {
      CharOfMatch(s, p, k, n);
    }
  }

  /** A match ending before the first line break is a match in the first line. */
  lemma MatchInFirstLine(s: string, p: string, k: nat, n: nat)
    requires MatchAt(s, k, p) && k + |p| <= n < |s|
    ensures MatchAt(s[..n], k, p)
  {
    assert s[..n] == s[0..n];
    MatchOfSlice(s, 0, n, k, p);
  }

  /** A match starting after a line break is a match in the text after it. */
  lemma MatchInRest(s: string, p: string, k: nat, n: nat)
    requires MatchAt(s, k, p) && n < k && n < |s|
    ensures MatchAt(s[n + 1..], k - n - 1, p)
  {
    assert s[n + 1..] == s[n + 1..|s|];
    MatchOfSlice(s, n + 1, |s|, k, p);
  }

  /** Inside a match of `p` at `k`, the text's character at `m` is the needle's at `m - k`. */
  lemma CharOfMatch(s: string, p: string, k: int, m: int)
    requires MatchAt(s, k, p) && k <= m < k + |p|
    ensures p[m - k] == s[m]
  {
    assert s[k..k + |p|][m - k] == s[m];
  }

  /** Every line of `explode("\n", s)` is a piece of `s`, so what a line contains, `s` contains. */
  lemma LineContainedIn(s: string, p: string, i: nat)
    requires i < |SplitLines(s)| && Contains(SplitLines(s)[i], p)
    ensures Contains(s, p)
  {
    var line := SplitLines(s)[i];
    var m :| 0 <= m <= |line| && MatchAt(line, m, p);
    var k := LineMatchIn(s, p, i, m);
    assert 0 <= k <= |s| && MatchAt(s, k, p);
  }

  /** Where a match in line `i` of `explode("\n", s)` lies in `s`. */
  lemma LineMatchIn(s: string, p: string, i: nat, m: nat) returns (k: nat)
    requires i < |SplitLines(s)| && MatchAt(SplitLines(s)[i], m, p)
    ensures MatchAt(s, k, p)
    decreases |s|, 1
  {
    if '\n' !in s {
      assert SplitLines(s) == [s];
      return m;
    }
    var n := SplitLinesStep(s);
    if i == 0 {
      assert s[..n] == s[0..n];
      MatchInSlice(s, 0, n, m, p);
      return m;
    }
    k := LineMatchInAfter(s, p, i, m, n);
  }

  /** The same, for a line after the first line break. */
  lemma LineMatchInAfter(s: string, p: string, i: nat, m: nat, n: nat) returns (k: nat)
    requires 0 < i < |SplitLines(s)| && MatchAt(SplitLines(s)[i], m, p) && n < |s|
    requires SplitLines(s) == [s[..n]] + SplitLines(s[n + 1..])
    ensures MatchAt(s, k, p)
    decreases |s|, 0
  {
    var rest := s[n + 1..];
    assert SplitLines(rest)[i - 1] == SplitLines(s)[i];
    var r := LineMatchIn(rest, p, i - 1, m);
    assert rest == s[n + 1..|s|];
    MatchInSlice(s, n + 1, |s|, r, p);
    k := n + 1 + r;
  }

  /** The first index `i >= from` at which `p` occurs case-insensitively. */
  function FindFirstCi(s: string, p: string, from: nat): (r: Option<nat>)
    ensures r.Some? ==> from <= r.value && CiMatchAt(s, r.value, p)
    ensures r.Some? ==> forall j :: from <= j < r.value ==> !CiMatchAt(s, j, p)
    ensures r.None? ==> forall j :: from <= j ==> !CiMatchAt(s, j, p)
    decreases |s| - from
  {
    if from + |p| > |s| then None
    else if CiMatchAt(s, from, p) then Some(from)
    else FindFirstCi(s, p, from + 1)
  }

  /** The last index `i` with `lo <= i <= hi` at which `p` occurs case-insensitively. */
  function FindLastCi(s: string, p: string, lo: int, hi: int): (r: Option<nat>)
    ensures r.Some? ==> lo <= r.value <= hi && CiMatchAt(s, r.value, p)
    ensures r.Some? ==> forall j :: r.value < j <= hi ==> !CiMatchAt(s, j, p)
    ensures r.None? ==> forall j :: lo <= j <= hi ==> !CiMatchAt(s, j, p)
    decreases hi - lo
  {
    if hi < lo || hi < 0 then None
    else if CiMatchAt(s, hi, p) then Some(hi)
    else FindLastCi(s, p, lo, hi - 1)
  }

  /** PHP's decimal rendering of an integer (`'Exit code: ' . $exitCode`). */
  function IntToString(i: int): string {
    if i < 0 then "-" + NatToString(-i) else NatToString(i)
  }

  function NatToString(n: nat): string
    decreases n
  {
    if n < 10 then [Digit(n)] else NatToString(n / 10) + [Digit(n % 10)]
  }

  function Digit(d: nat): char
    requires d < 10
  {
    ('0' as int + d) as char
  }

  predicate IsDigit(c: char) {
    '0' <= c <= '9'
  }

  predicate AllDigits(s: string) {
    forall i :: 0 <= i < |s| ==> IsDigit(s[i])
  }

  /** The value of a string of decimal digits, most significant first. */
  function ReadNat(s: string): nat
    requires AllDigits(s)
    decreases |s|
  {
    if |s| == 0 then 0 else ReadNat(s[..|s| - 1]) * 10 + (s[|s| - 1] as int - '0' as int)
  }

  /**
   * Reads an integer written the way PHP writes one: an optional `-`, then decimal digits
   * without a leading zero (`0` itself excepted, and never `-0`); any other text reads as nothing.
   */
  function ReadInt(s: string): Option<int> {
    if |s| >= 2 && s[0] == '-' && AllDigits(s[1..]) && s[1] != '0' then Some(-(ReadNat(s[1..]) as int))
    else if |s| >= 1 && AllDigits(s) && (s[0] != '0' || |s| == 1) then Some(ReadNat(s))
    else None
  }

  /** The decimal digits of `n`: at least one, the first a zero only for `n == 0`, reading back as `n`. */
  lemma {:induction false} NatToStringDigits(n: nat)
    ensures |NatToString(n)| >= 1 && AllDigits(NatToString(n))
    ensures NatToString(n)[0] == '0' <==> n == 0
    ensures n < 10 <==> |NatToString(n)| == 1
    ensures ReadNat(NatToString(n)) == n
    decreases n
  {
    var s := NatToString(n);
    if n < 10 {
      assert s[..0] == [];
    } else {
      NatToStringDigits(n / 10);
      var init := NatToString(n / 10);
      assert s == init + [Digit(n % 10)];
      assert s[..|s| - 1] == init;
      assert s[0] == init[0];
    }
  }

  /** An integer rendered by `IntToString` reads back as itself, and its text holds no line break. */
  lemma IntToStringReadsBack(i: int)
    ensures ReadInt(IntToString(i)) == Some(i)
    ensures '\n' !in IntToString(i)
  {
    var s := IntToString(i);
    if i < 0 {
      NatToStringDigits(-i);
      assert s[1..] == NatToString(-i);
      assert s[1] == NatToString(-i)[0];
    } else {
      NatToStringDigits(i);
    }
  }
}
