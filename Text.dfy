/**
 * String operations the JavaScript code gets from its runtime: the regular-expression
 * character classes it uses, `indexOf`, `String.prototype.replace` with a string pattern
 * (first occurrence) and with a global literal pattern (every occurrence, left to right),
 * `split` on one character, and the decimal conversions `String(n)` and `Number(digits)`.
 */
module Text {

  /** The regular-expression class `\w`. */
  predicate IsWordChar(c: char) {
    ('a' <= c <= 'z') || ('A' <= c <= 'Z') || ('0' <= c <= '9') || c == '_'
  }

  /** The regular-expression class `\d`. */
  predicate IsDigit(c: char) {
    '0' <= c <= '9'
  }

  /** The regular-expression class `\s` of JavaScript (white space and line terminators). */
  predicate IsSpace(c: char) {
    c == ' ' || c == '\t' || c == '\n' || c == '\r' || c == '\U{000B}' || c == '\U{000C}'
    || c == '\U{00A0}' || c == '\U{1680}' || ('\U{2000}' <= c <= '\U{200A}')
    || c == '\U{2028}' || c == '\U{2029}' || c == '\U{202F}' || c == '\U{205F}'
    || c == '\U{3000}' || c == '\U{FEFF}'
  }

  /** A non-empty identifier, as matched by `\w+`. */
  predicate IsWord(w: string) {
    |w| > 0 && forall i :: 0 <= i < |w| ==> IsWordChar(w[i])
  }

  lemma WordCharIsNotSpace(c: char)
    requires IsWordChar(c)
    ensures !IsSpace(c)
  {
  }

  /** The character classes the regular expressions match runs of. */
  datatype CharClass = Word | Space | Digit | DigitCommaDash

  predicate InClass(c: char, cls: CharClass) {
    match cls
    case Word => IsWordChar(c)
    case Space => IsSpace(c)
    case Digit => IsDigit(c)
    case DigitCommaDash => IsDigit(c) || c == ',' || c == '-'
  }

  /** The length of the longest run of characters of class `cls` that starts at index `i`:
    * what a greedy `+` or `*` over that class consumes there. */
  function Run(s: string, i: nat, cls: CharClass): (n: nat)
    requires i <= |s|
    ensures i + n <= |s|
    decreases |s| - i
  {
    if i < |s| && InClass(s[i], cls) then 1 + Run(s, i + 1, cls) else 0
  }

  /** A run is maximal: every character in it is of the class, and the one after it is not. */
  lemma {:induction false} RunMaximal(s: string, i: nat, cls: CharClass)
    requires i <= |s|
    ensures forall k :: i <= k < i + Run(s, i, cls) ==> InClass(s[k], cls)
    ensures i + Run(s, i, cls) == |s| || !InClass(s[i + Run(s, i, cls)], cls)
    decreases |s| - i
  {
    if i < |s| && InClass(s[i], cls) {
      RunMaximal(s, i + 1, cls);
    }
  }

  /** A run is determined by its characters and the one that stops it. */
  lemma {:induction false} RunUnique(s: string, i: nat, cls: CharClass, n: nat)
    requires i + n <= |s|
    requires forall k :: i <= k < i + n ==> InClass(s[k], cls)
    requires i + n == |s| || !InClass(s[i + n], cls)
    ensures Run(s, i, cls) == n
    decreases n
  {
    if n > 0 {
      RunUnique(s, i + 1, cls, n - 1);
    }
  }

  /** A run that stops inside a stretch of text reads the same wherever that stretch is copied:
    * `t[a..a+m]` and `u[b..b+m]` are equal and the run at `a + i` ends before `a + m`. */
  lemma RunShift(t: string, u: string, a: nat, b: nat, m: nat, i: nat, cls: CharClass)
    requires a + m <= |t| && b + m <= |u| && t[a..a + m] == u[b..b + m]
    requires i <= m && a + i + Run(t, a + i, cls) < a + m
    ensures Run(u, b + i, cls) == Run(t, a + i, cls)
  {
    var n := Run(t, a + i, cls);
    RunMaximal(t, a + i, cls);
    forall k | b + i <= k < b + i + n ensures InClass(u[k], cls) {
      assert u[b..b + m][k - b] == t[a..a + m][k - b];
      assert u[k] == t[a + (k - b)];
    }
    assert u[b..b + m][i + n] == t[a..a + m][i + n];
    assert u[b + i + n] == t[a + i + n];
    RunUnique(u, b + i, cls, n);
  }

  /** `pat` occurs in `s` starting at index `i`. */
  predicate OccursAt(s: string, pat: string, i: nat) {
    i + |pat| <= |s| && s[i..i + |pat|] == pat
  }

  /** Equal stretches of two texts have equal pieces. */
  lemma SliceCopy(t: string, u: string, a: nat, b: nat, n: nat, x: nat, y: nat)
    requires a + n <= |t| && b + n <= |u| && u[b..b + n] == t[a..a + n]
    requires x <= y <= n
    ensures u[b + x..b + y] == t[a + x..a + y]
  {
    forall k | b + x <= k < b + y ensures u[k] == t[a + (k - b)] {
      assert u[b..b + n][k - b] == t[a..a + n][k - b];
    }
  }

  /** The pieces of an occurrence are the pieces of the pattern. */
  lemma OccursPiece(s: string, t: string, p: nat, x: nat, y: nat)
    requires OccursAt(s, t, p) && x <= y <= |t|
    ensures s[p + x..p + y] == t[x..y]
    ensures x < |t| ==> s[p + x] == t[x]
  {
    forall k | x <= k < y ensures s[p + k] == t[k] {
      assert s[p..p + |t|][k] == t[k];
    }
    if x < |t| {
      assert s[p..p + |t|][x] == t[x];
    }
  }

  /** An occurrence of a concatenation is an occurrence of each part, side by side. */
  lemma OccursSplit(s: string, u: string, v: string, p: nat)
    requires OccursAt(s, u + v, p)
    ensures OccursAt(s, u, p) && OccursAt(s, v, p + |u|)
  {
    OccursPiece(s, u + v, p, 0, |u|);
    OccursPiece(s, u + v, p, |u|, |u| + |v|);
    assert (u + v)[0..|u|] == u;
    assert (u + v)[|u|..|u| + |v|] == v;
  }

  /** The second part of a concatenation occurs where the first part ends. */
  lemma OccursAppend(u: string, v: string)
    ensures OccursAt(u + v, v, |u|)
  {
    assert (u + v)[|u|..|u| + |v|] == v;
  }

  /** The first part of a concatenation occurs at its start. */
  lemma OccursFront(u: string, v: string)
    ensures OccursAt(u + v, u, 0)
  {
    assert (u + v)[0..|u|] == u;
  }

  /** An occurrence stays where it is when text is appended. */
  lemma OccursExtend(s: string, t: string, i: nat, w: string)
    requires OccursAt(s, t, i)
    ensures OccursAt(s + w, t, i)
  {
    assert (s + w)[i..i + |t|] == s[i..i + |t|];
  }

  /** An occurrence moves by the length of text put in front. */
  lemma OccursShift(u: string, s: string, w: string, t: string, i: nat, j: nat)
    requires OccursAt(s, t, i) && j == |u| + i
    ensures OccursAt(u + s + w, t, j)
  {
    assert (u + s + w)[j..j + |t|] == s[i..i + |t|];
  }

  /** Where a stretch `s[a..e]` of the text occurs again, at `j`, its first `n` characters
    * recur there. */
  lemma OccurrencePrefix(s: string, a: nat, e: nat, j: nat, n: nat)
    requires a <= e <= |s| && OccursAt(s, s[a..e], j)
    requires n <= e - a
    ensures j + n <= |s| && s[j..j + n] == s[a..a + n]
  {
    var m := e - a;
    assert s[j..j + m] == s[a..a + m];
    SliceCopy(s, s, a, j, m, 0, n);
  }

  /** `s.indexOf(pat, from)`: the index of the first occurrence of `pat` at or after `from`,
    * or -1 when there is none. */
  function IndexOf(s: string, pat: string, from: nat): (r: int)
    ensures r == -1 || (from <= r && OccursAt(s, pat, r))
    decreases |s| - from
  {
    if from + |pat| > |s| then -1
    else if OccursAt(s, pat, from) then from
    else IndexOf(s, pat, from + 1)
  }

  /** The search finds the leftmost occurrence at or after `from`, and answers -1 only when
    * there is none. */
  lemma {:induction false} IndexOfIsFirst(s: string, pat: string, from: nat)
    ensures var r := IndexOf(s, pat, from);
      && (r != -1 ==> forall j :: from <= j < r ==> !OccursAt(s, pat, j))
      && (r == -1 ==> forall j :: from <= j ==> !OccursAt(s, pat, j))
    decreases |s| - from
  {
    if from + |pat| <= |s| && !OccursAt(s, pat, from) {
      IndexOfIsFirst(s, pat, from + 1);
    }
  }

  /** A search may start anywhere in a stretch that holds no occurrence. */
  lemma {:induction false} IndexOfSkip(s: string, pat: string, i: nat, j: nat)
    requires i <= j
    requires forall k :: i <= k < j ==> !OccursAt(s, pat, k)
    ensures IndexOf(s, pat, i) == IndexOf(s, pat, j)
    decreases j - i
  {
    if i < j {
      assert !OccursAt(s, pat, i);
      if i + |pat| > |s| {
        IndexOfIsFirst(s, pat, j);
      } else {
        IndexOfSkip(s, pat, i + 1, j);
      }
    }
  }

  /** A stretch of the text is found where it stands when nothing equal to it comes earlier. */
  lemma IndexOfOwnSlice(s: string, a: nat, e: nat)
    requires a <= e <= |s|
    requires forall j :: 0 <= j < a ==> !OccursAt(s, s[a..e], j)
    ensures IndexOf(s, s[a..e], 0) == a
  {
    var fm := s[a..e];
    assert OccursAt(s, fm, a) by {
      assert a + |fm| == e;
    }
    IndexOfSkip(s, fm, 0, a);
  }

  /** `s.replace(pat, repl)` with a string pattern: only the first occurrence is replaced. */
  function ReplaceFirst(s: string, pat: string, repl: string): string {
    var j := IndexOf(s, pat, 0);
    if j == -1 then s else s[..j] + repl + s[j + |pat|..]
  }

  /** Replacing the first occurrence, once it is known where it is, is a splice there. */
  lemma ReplaceFirstAt(s: string, pat: string, repl: string, j: nat)
    requires IndexOf(s, pat, 0) == j
    ensures j + |pat| <= |s|
    ensures ReplaceFirst(s, pat, repl) == s[..j] + repl + s[j + |pat|..]
  {
  }

  /** A pattern the text starts with is the occurrence replaced. */
  lemma ReplaceFirstPrefix(pat: string, rest: string, repl: string)
    ensures ReplaceFirst(pat + rest, pat, repl) == repl + rest
  {
    var s := pat + rest;
    assert s[0..|pat|] == pat;
    assert OccursAt(s, pat, 0);
    assert s[..0] == [] && s[|pat|..] == rest;
  }

  /** Replacing a stretch of the text that occurs first where it stands splices there. */
  lemma ReplaceOwnSlice(s: string, a: nat, e: nat, repl: string)
    requires a <= e <= |s| && IndexOf(s, s[a..e], 0) == a
    ensures ReplaceFirst(s, s[a..e], repl) == s[..a] + repl + s[e..]
  {
    var fm := s[a..e];
    ReplaceFirstAt(s, fm, repl, a);
    assert a + |fm| == e;
  }

  /** `s.replace(/pat/g, repl)` for a literal, non-empty pattern: occurrences are replaced
    * left to right, the scan resuming after each replaced one. */
  function ReplaceAll(s: string, pat: string, repl: string): string
    requires |pat| > 0
    decreases |s|
  {
    if |s| == 0 then []
    else if OccursAt(s, pat, 0) then repl + ReplaceAll(s[|pat|..], pat, repl)
    else [s[0]] + ReplaceAll(s[1..], pat, repl)
  }

  /** `pat` occurs nowhere in `s`. */
  ghost predicate Absent(s: string, pat: string) {
    forall j: nat :: !OccursAt(s, pat, j)
  }

  /** Text without the pattern is left as it is. */
  lemma {:induction false} ReplaceAllAbsent(s: string, pat: string, repl: string)
    requires |pat| > 0 && Absent(s, pat)
    ensures ReplaceAll(s, pat, repl) == s
    decreases |s|
  {
    if |s| > 0 {
      assert !OccursAt(s, pat, 0);
      forall j: nat ensures !OccursAt(s[1..], pat, j) {
        assert !OccursAt(s, pat, j + 1);
        assert j + |pat| <= |s| - 1 ==> s[1..][j..j + |pat|] == s[j + 1..j + 1 + |pat|];
      }
      ReplaceAllAbsent(s[1..], pat, repl);
      assert s == [s[0]] + s[1..];
    }
  }

  /** Text that is exactly the pattern becomes exactly the replacement. */
  lemma ReplaceAllWhole(pat: string, repl: string)
    requires |pat| > 0
    ensures ReplaceAll(pat, pat, repl) == repl
  {
    assert OccursAt(pat, pat, 0);
    assert pat[|pat|..] == [];
  }

  /** `s.split(sep)` for a one-character separator. */
  function Split(s: string, sep: char): (parts: seq<string>)
    ensures |parts| >= 1
    decreases |s|
  {
    if s == [] then [""]
    else
      var rest := Split(s[1..], sep);
      if s[0] == sep then [""] + rest else [[s[0]] + rest[0]] + rest[1..]
  }

  /** Splitting distributes over a separator: the parts of `p` come first, then those of `q`. */
  lemma {:induction false} SplitAround(p: string, q: string, sep: char)
    ensures Split(p + [sep] + q, sep) == Split(p, sep) + Split(q, sep)
    decreases |p|
  {
    if p == [] {
      assert [sep] + q == p + [sep] + q;
      assert ([sep] + q)[1..] == q;
    } else {
      var s := p + [sep] + q;
      assert s[0] == p[0];
      assert s[1..] == p[1..] + [sep] + q;
      SplitAround(p[1..], q, sep);
      SplitStep(s, p, Split(q, sep), sep);
    }
  }

  /** Two texts with the same first character whose remainders split alike up to a tail of
    * parts `b` split alike up to `b`. */
  lemma SplitStep(s: string, p: string, b: seq<string>, sep: char)
    requires s != [] && p != [] && s[0] == p[0]
    requires Split(s[1..], sep) == Split(p[1..], sep) + b
    ensures Split(s, sep) == Split(p, sep) + b
  {
    var a := Split(p[1..], sep);
    if p[0] == sep {
      AppendAssoc([""], a, b);
    } else {
      DropAppend(a, b);
      AppendAssoc([[p[0]] + a[0]], a[1..], b);
    }
  }

  /** Concatenation is associative. */
  lemma AppendAssoc<T>(a: seq<T>, b: seq<T>, c: seq<T>)
    ensures (a + b) + c == a + (b + c)
  {
  }

  /** The head and the tail of a concatenation whose first part is not empty. */
  lemma DropAppend<T>(a: seq<T>, b: seq<T>)
    requires |a| >= 1
    ensures (a + b)[0] == a[0] && (a + b)[1..] == a[1..] + b
  {
  }

  /** Text without the separator is one part. */
  lemma {:induction false} SplitWithout(s: string, sep: char)
    requires sep !in s
    ensures Split(s, sep) == [s]
    decreases |s|
  {
    if s != [] {
      assert sep !in s[1..] by {
        forall i | 0 <= i < |s[1..]| ensures s[1..][i] != sep { assert s[1..][i] == s[i + 1]; }
      }
      SplitWithout(s[1..], sep);
      assert [s[0]] + s[1..] == s;
    }
  }

  /** Text with the separator in it splits into at least two parts. */
  lemma {:induction false} SplitAtSep(s: string, sep: char)
    requires sep in s
    ensures |Split(s, sep)| >= 2
    decreases |s|
  {
    if s[0] != sep {
      assert sep in s[1..] by {
        var k :| 0 <= k < |s| && s[k] == sep;
        assert s[1..][k - 1] == sep;
      }
      SplitAtSep(s[1..], sep);
    }
  }

  /** Every character of a part is a character of the text other than the separator. */
  lemma {:induction false} SplitPartChars(s: string, sep: char)
    ensures forall i, j :: 0 <= i < |Split(s, sep)| && 0 <= j < |Split(s, sep)[i]| ==>
      Split(s, sep)[i][j] != sep && Split(s, sep)[i][j] in s
    decreases |s|
  {
    if s != [] {
      var rest := Split(s[1..], sep);
      SplitPartChars(s[1..], sep);
      var parts := Split(s, sep);
      forall i, j | 0 <= i < |parts| && 0 <= j < |parts[i]| ensures parts[i][j] != sep && parts[i][j] in s {
        if s[0] == sep {
          assert parts[i] == rest[i - 1];
          assert rest[i - 1][j] in s[1..];
        } else if i == 0 {
          if j > 0 {
            assert parts[0][j] == rest[0][j - 1];
            assert rest[0][j - 1] in s[1..];
          }
        } else {
          assert parts[i] == rest[i];
          assert rest[i][j] in s[1..];
        }
      }
    }
  }


  function DigitChar(d: nat): (c: char)
    requires d < 10
    ensures IsDigit(c)
  {
    ('0' as int + d) as char
  }

  predicate AllDigits(s: string) {
    forall i :: 0 <= i < |s| ==> IsDigit(s[i])
  }

  /** `String(n)` for a natural number: its decimal digits, no leading zero. */
  function NatToString(n: nat): (s: string)
    ensures |s| >= 1 && AllDigits(s)
    ensures |s| > 1 ==> s[0] != '0'
  {
    if n < 10 then [DigitChar(n)] else NatToString(n / 10) + [DigitChar(n % 10)]
  }

  /** `String(n)` for an integer number. */
  function IntToString(n: int): string {
    if n < 0 then "-" + NatToString(-n) else NatToString(n)
  }

  /** `Number(s)` on a string of decimal digits; the empty string reads as 0. */
  function DigitsValue(s: string): nat
    requires AllDigits(s)
  {
    if s == [] then 0 else 10 * DigitsValue(s[..|s| - 1]) + (s[|s| - 1] as int - '0' as int)
  }

  /** Reading back what `String(n)` wrote gives `n`. */
  lemma {:induction false} DigitsRoundTrip(n: nat)
    ensures DigitsValue(NatToString(n)) == n
  {
    if n >= 10 {
      var s := NatToString(n);
      assert s[..|s| - 1] == NatToString(n / 10);
      DigitsRoundTrip(n / 10);
    }
  }

  predicate StartsWith(s: string, prefix: string) {
    |prefix| <= |s| && s[..|prefix|] == prefix
  }

  /** `s.endsWith(suffix)`. */
  predicate EndsWith(s: string, suffix: string) {
    |suffix| <= |s| && s[|s| - |suffix|..] == suffix
  }
}
