/**
 * The code-block component of src/components/CodeBlock.tsx, without its rendering: reading
 * the language and the line specification from the class name (`language-js{1,3-5}`), the
 * parse of the line specification into line numbers, which lines are highlighted, and the
 * code text handed to the highlighter.
 */
module CodeBlock {
  import opened Wrappers
  import opened Text

  // ---------------------------------------------------------------------------------------
  // The class name
  // ---------------------------------------------------------------------------------------

  const LanguagePrefix: string := "language-"

  /** `language-(\w+)` matches at index `i`: the length of its word, or 0 when it does not. */
  function LanguageWordAt(cls: string, i: nat): nat {
    if OccursAt(cls, LanguagePrefix, i) then Run(cls, i + 9, Word) else 0
  }

  /** The first index at or after `from` where `language-(\w+)` matches, or -1. */
  function FirstLanguage(cls: string, from: nat): (r: int)
    ensures r == -1 || (from <= r && LanguageWordAt(cls, r) > 0)
    decreases |cls| + 1 - from
  {
    if from > |cls| then -1
    else if LanguageWordAt(cls, from) > 0 then from
    else FirstLanguage(cls, from + 1)
  }

  /** The optional `\{([\d,-]+)\}` group at index `j`: the characters between the braces,
    * or the empty string when the group does not match. */
  function LineSpecAt(cls: string, j: nat): (spec: string)
    requires j <= |cls|
    ensures spec != "" ==> OccursAt(cls, "{" + spec + "}", j)
  {
    if OccursAt(cls, "{", j) then
      var n := Run(cls, j + 1, DigitCommaDash);
      if n > 0 && OccursAt(cls, "}", j + 1 + n) then
        var spec := cls[j + 1..j + 1 + n];
        assert cls[j..j + 1 + n + 1] == "{" + spec + "}" by {
          assert cls[j..j + 1 + n + 1] == cls[j..j + 1] + spec + cls[j + 1 + n..j + 1 + n + 1];
        }
        spec
      else ""
    else ""
  }

  /** What the class name yields: the language and the line specification. */
  datatype ClassInfo = ClassInfo(language: string, lineSpec: string)

  /** `/language-(\w+)(?:\{([\d,-]+)\})?/.exec(className || '')`, then `match?.[1] || 'text'`
    * and `match?.[2] || ''`. */
  function ParseClassName(className: Option<string>): (info: ClassInfo)
  {
    var cls := className.GetOr("");
    var i := FirstLanguage(cls, 0);
    if i == -1 then ClassInfo("text", "")
    else
      var j := i + 9 + LanguageWordAt(cls, i);
      ClassInfo(cls[i + 9..j], LineSpecAt(cls, j))
  }

  /** Characters of a line specification: `[\d,-]`. */
  predicate IsLineSpec(s: string) {
    forall i :: 0 <= i < |s| ==> InClass(s[i], DigitCommaDash)
  }

  /** Without a match the language is `text` and there is no line specification. */
  lemma ParseClassNameNone(className: Option<string>)
    requires FirstLanguage(className.GetOr(""), 0) == -1
    ensures ParseClassName(className) == ClassInfo("text", "")
    ensures var cls := className.GetOr("");
      forall i :: 0 <= i <= |cls| ==> LanguageWordAt(cls, i) == 0
  {
    FirstLanguageIsFirst(className.GetOr(""), 0);
  }

  /** The language is the maximal word after the first `language-` that is followed by one;
    * the line specification is taken only from braces that follow that word at once, and
    * consists of digits, commas and hyphens. */
  lemma ParseClassNameSome(className: Option<string>, i: nat)
    requires FirstLanguage(className.GetOr(""), 0) == i
    ensures var cls := className.GetOr("");
      var info := ParseClassName(className);
      && (forall k :: 0 <= k < i ==> LanguageWordAt(cls, k) == 0)
      && OccursAt(cls, LanguagePrefix + info.language, i)
      && IsWord(info.language)
      && (i + 9 + |info.language| == |cls| || !IsWordChar(cls[i + 9 + |info.language|]))
      && IsLineSpec(info.lineSpec)
      && (info.lineSpec != "" ==> OccursAt(cls, "{" + info.lineSpec + "}", i + 9 + |info.language|))
  {
    var cls := className.GetOr("");
    FirstLanguageIsFirst(cls, 0);
    var w := LanguageWordAt(cls, i);
    LanguageWord(cls, i, w);
    ParseClassNameLineSpec(className);
  }

  /** The line specification of any class name consists of digits, commas and hyphens. */
  lemma ParseClassNameLineSpec(className: Option<string>)
    ensures IsLineSpec(ParseClassName(className).lineSpec)
  {
    var cls := className.GetOr("");
    var i := FirstLanguage(cls, 0);
    if i != -1 {
      LineSpecChars(cls, i + 9 + LanguageWordAt(cls, i));
    }
  }

  /** The word of a `language-` match. */
  lemma LanguageWord(cls: string, i: nat, w: nat)
    requires w == LanguageWordAt(cls, i) && w > 0
    ensures i + 9 + w <= |cls|
    ensures OccursAt(cls, LanguagePrefix + cls[i + 9..i + 9 + w], i)
    ensures IsWord(cls[i + 9..i + 9 + w])
    ensures i + 9 + w == |cls| || !IsWordChar(cls[i + 9 + w])
  {
    var j := i + 9 + w;
    RunMaximal(cls, i + 9, Word);
    var word := cls[i + 9..j];
    assert cls[i..j] == cls[i..i + 9] + word;
    forall k | 0 <= k < w ensures IsWordChar(word[k]) {
      assert word[k] == cls[i + 9 + k];
    }
  }

  /** The line specification between the braces consists of digits, commas and hyphens. */
  lemma LineSpecChars(cls: string, j: nat)
    requires j <= |cls|
    ensures IsLineSpec(LineSpecAt(cls, j))
  {
    var spec := LineSpecAt(cls, j);
    if spec != "" {
      RunMaximal(cls, j + 1, DigitCommaDash);
      forall k | 0 <= k < |spec| ensures InClass(spec[k], DigitCommaDash) {
        assert spec[k] == cls[j + 1 + k];
      }
    }
  }

  lemma {:induction false} FirstLanguageIsFirst(cls: string, from: nat)
    ensures var i := FirstLanguage(cls, from);
      if i == -1 then forall k :: from <= k <= |cls| ==> LanguageWordAt(cls, k) == 0
      else forall k :: from <= k < i ==> LanguageWordAt(cls, k) == 0
    decreases |cls| + 1 - from
  {
    if from <= |cls| && LanguageWordAt(cls, from) == 0 {
      FirstLanguageIsFirst(cls, from + 1);
    }
  }

  // ---------------------------------------------------------------------------------------
  // parseHighlightLines
  // ---------------------------------------------------------------------------------------

  /** A segment of a part: digits and hyphens. */
  predicate IsSegment(s: string) {
    forall i :: 0 <= i < |s| ==> IsDigit(s[i]) || s[i] == '-'
  }

  /** `Number(s)` on a string of digits and hyphens: decimal digits (none reads as 0), a
    * minus sign followed by at least one digit, or `NaN` (`None`) for anything else. */
  function NumberOf(s: string): (r: Option<int>)
    requires IsSegment(s)
  {
    if AllDigits(s) then Some(DigitsValue(s) as int)
    else if |s| >= 2 && s[0] == '-' && AllDigits(s[1..]) then
      var n: int := DigitsValue(s[1..]);
      Some(-n)
    else None
  }

  /** `start, start + 1, ..., end`; empty when `start > end`. */
  function Range(start: int, end: int): (r: seq<int>)
    ensures |r| == if start <= end then end - start + 1 else 0
    ensures forall k :: 0 <= k < |r| ==> r[k] == start + k
    decreases end - start + 1
  {
    if start > end then [] else [start] + Range(start + 1, end)
  }

  /** The parts of a specification are segments. */
  lemma PartsAreSegments(lineStr: string)
    requires IsLineSpec(lineStr)
    ensures forall i :: 0 <= i < |Split(lineStr, ',')| ==> IsSegment(Split(lineStr, ',')[i])
  {
    SplitPartChars(lineStr, ',');
    var parts := Split(lineStr, ',');
    forall i, j | 0 <= i < |parts| && 0 <= j < |parts[i]| ensures IsDigit(parts[i][j]) || parts[i][j] == '-' {
      var k :| 0 <= k < |lineStr| && lineStr[k] == parts[i][j];
    }
  }

  /** The pieces of a range part are digit strings; there are at least two of them. */
  lemma BoundsAreDigits(part: string)
    requires IsSegment(part) && '-' in part
    ensures |Split(part, '-')| >= 2
    ensures forall i :: 0 <= i < |Split(part, '-')| ==> AllDigits(Split(part, '-')[i])
  {
    SplitAtSep(part, '-');
    SplitPartChars(part, '-');
    var bounds := Split(part, '-');
    forall i, j | 0 <= i < |bounds| && 0 <= j < |bounds[i]| ensures IsDigit(bounds[i][j]) {
      var k :| 0 <= k < |part| && part[k] == bounds[i][j];
    }
  }

  /** The numbers one part contributes: a range `a-b` from its first two numbers, or a
    * single number; a part with a `NaN` in it contributes nothing. */
  function PartLines(part: string): seq<int>
    requires IsSegment(part)
  {
    if '-' in part then
      BoundsAreDigits(part);
      var bounds := Split(part, '-');
      var start, end := NumberOf(bounds[0]), NumberOf(bounds[1]);
      if start.Some? && end.Some? then Range(start.value, end.value) else []
    else
      match NumberOf(part)
      case Some(n) => [n]
      case None => []
  }

  function PartsLines(parts: seq<string>): seq<int>
    requires forall i :: 0 <= i < |parts| ==> IsSegment(parts[i])
  {
    if parts == [] then [] else PartLines(parts[0]) + PartsLines(parts[1..])
  }

  /** `parseHighlightLines`, as a function of the specification. */
  function HighlightLines(lineStr: string): seq<int>
    requires IsLineSpec(lineStr)
  {
    if lineStr == "" then []
    else
      PartsAreSegments(lineStr);
      PartsLines(Split(lineStr, ','))
  }

  /** A range contributes its numbers one by one: the range up to `i` is the range up to
    * `i - 1` and then `i`. */
  lemma {:induction false} RangeSnoc(start: int, i: int)
    requires start <= i
    ensures Range(start, i) == Range(start, i - 1) + [i]
  {
    var r, q := Range(start, i), Range(start, i - 1);
    assert |r| == |q| + 1;
    forall k | 0 <= k < |r| ensures r[k] == (q + [i])[k] {
    }
  }

  /** The inner loop of the callback: push `start, ..., end`. */
  method PushRange(lines: seq<int>, start: int, end: int) returns (result: seq<int>)
    ensures result == lines + Range(start, end)
  {
    result := lines;
    var i := start;
    while i <= end
      invariant start <= i && (start <= end ==> i <= end + 1)
      invariant start > end ==> i == start
      invariant result == lines + Range(start, i - 1)
      decreases end - i
    {
      RangeSnoc(start, i);
      result := result + [i];
      i := i + 1;
    }
    if start > end {
      assert Range(start, i - 1) == [] == Range(start, end);
    }
  }

  /** The callback `parseHighlightLines` runs on each part: push the part's numbers. */
  method PushPart(lines: seq<int>, part: string) returns (result: seq<int>)
    requires IsSegment(part)
    ensures result == lines + PartLines(part)
  {
    result := lines;
    if '-' in part {
      BoundsAreDigits(part);
      var bounds := Split(part, '-');
      var start, end := NumberOf(bounds[0]), NumberOf(bounds[1]);
      if start.Some? && end.Some? {
        result := PushRange(result, start.value, end.value);
      }
    } else {
      var lineNum := NumberOf(part);
      if lineNum.Some? {
        result := result + [lineNum.value];
      }
    }
  }

  /** `parseHighlightLines`: each part in turn pushes its numbers onto `lines`. */
  method ParseHighlightLines(lineStr: string) returns (lines: seq<int>)
    requires IsLineSpec(lineStr)
    ensures lines == HighlightLines(lineStr)
  {
    if lineStr == "" {
      return [];
    }
    var parts := Split(lineStr, ',');
    PartsAreSegments(lineStr);
    lines := PushParts(parts);
  }

  /** The `forEach` over the parts: each part in turn pushes its numbers onto `lines`. */
  method PushParts(parts: seq<string>) returns (lines: seq<int>)
    requires forall i :: 0 <= i < |parts| ==> IsSegment(parts[i])
    ensures lines == PartsLines(parts)
  {
    lines := [];
    assert parts[0..] == parts;
    assert lines + PartsLines(parts) == PartsLines(parts);
    for p := 0 to |parts|
      invariant lines + PartsLines(parts[p..]) == PartsLines(parts)
    {
      var before := lines;
      lines := PushPart(lines, parts[p]);
      PushStep(parts, p, before, lines);
    }
    assert parts[|parts|..] == [];
    assert lines + [] == lines;
  }

  /** After the `p`th part has pushed its numbers, the parts after it are what is left. */
  lemma PushStep(parts: seq<string>, p: nat, before: seq<int>, after: seq<int>)
    requires forall i :: 0 <= i < |parts| ==> IsSegment(parts[i])
    requires p < |parts| && after == before + PartLines(parts[p])
    ensures after + PartsLines(parts[p + 1..]) == before + PartsLines(parts[p..])
  {
    PartsLinesFrom(parts, p);
    AppendAssoc(before, PartLines(parts[p]), PartsLines(parts[p + 1..]));
  }

  /** The parts from the `p`th on contribute the `p`th part's numbers and then the rest's. */
  lemma PartsLinesFrom(parts: seq<string>, p: nat)
    requires forall i :: 0 <= i < |parts| ==> IsSegment(parts[i])
    requires p < |parts|
    ensures PartsLines(parts[p..]) == PartLines(parts[p]) + PartsLines(parts[p + 1..])
  {
    assert parts[p..][1..] == parts[p + 1..];
  }

  /** On a specification of digits, commas and hyphens no part meets a `NaN`: a range part
    * has numbers at both ends and any other part is a number. */
  lemma NoNaN(lineStr: string, p: nat)
    requires IsLineSpec(lineStr) && p < |Split(lineStr, ',')|
    ensures var part := Split(lineStr, ',')[p];
      if '-' in part then
        && |Split(part, '-')| >= 2
        && AllDigits(Split(part, '-')[0]) && NumberOf(Split(part, '-')[0]).Some?
        && AllDigits(Split(part, '-')[1]) && NumberOf(Split(part, '-')[1]).Some?
      else AllDigits(part) && NumberOf(part).Some?
  {
    PartsAreSegments(lineStr);
    var part := Split(lineStr, ',')[p];
    if '-' !in part {
      assert AllDigits(part);
    } else {
      BoundsAreDigits(part);
    }
  }

  /** An empty segment reads as 0. */
  lemma EmptyReadsZero()
    ensures NumberOf("") == Some(0)
  {
  }

  /** Parts contribute in order and side by side: nothing is sorted or removed. */
  lemma HighlightLinesConcat(p: string, q: string)
    requires IsLineSpec(p) && IsLineSpec(q) && p != "" && q != ""
    ensures IsLineSpec(p + "," + q)
    ensures HighlightLines(p + "," + q) == HighlightLines(p) + HighlightLines(q)
  {
    var s := p + "," + q;
    assert IsLineSpec(s) by {
      forall i | 0 <= i < |s| ensures InClass(s[i], DigitCommaDash) {
        if i < |p| { assert s[i] == p[i]; } else if i > |p| { assert s[i] == q[i - |p| - 1]; }
      }
    }
    SplitAround(p, q, ',');
    assert s == p + [','] + q;
    PartsAreSegments(p);
    PartsAreSegments(q);
    PartsLinesAppend(Split(p, ','), Split(q, ','));
  }

  lemma {:induction false} PartsLinesAppend(a: seq<string>, b: seq<string>)
    requires forall i :: 0 <= i < |a| ==> IsSegment(a[i])
    requires forall i :: 0 <= i < |b| ==> IsSegment(b[i])
    ensures PartsLines(a + b) == PartsLines(a) + PartsLines(b)
    decreases |a|
  {
    if a == [] {
      assert a + b == b;
    } else {
      assert (a + b)[1..] == a[1..] + b;
      PartsLinesAppend(a[1..], b);
    }
  }

  /** Digits do not contain the hyphen. */
  lemma NoHyphen(a: string)
    requires AllDigits(a)
    ensures '-' !in a
  {
    forall i | 0 <= i < |a| ensures a[i] != '-' {
      assert IsDigit(a[i]);
    }
  }

  /** A range part `a-b` with digit ends gives `a, ..., b`, and only the first two numbers
    * of a part count: `a-b-c...` gives the same as `a-b`. */
  lemma RangePart(a: string, b: string, tail: string)
    requires AllDigits(a) && AllDigits(b) && IsSegment(tail)
    requires tail == "" || tail[0] == '-'
    ensures IsSegment(a + "-" + b + tail)
    ensures PartLines(a + "-" + b + tail) == Range(DigitsValue(a), DigitsValue(b))
  {
    var part := a + "-" + b + tail;
    RangePartSegment(a, b, tail);
    assert part[|a|] == '-';
    RangePartBounds(a, b, tail);
  }

  /** Digits, a hyphen, digits and hyphen-led characters form a segment. */
  lemma RangePartSegment(a: string, b: string, tail: string)
    requires AllDigits(a) && AllDigits(b) && IsSegment(tail)
    ensures IsSegment(a + "-" + b + tail)
  {
    var part := a + "-" + b + tail;
    forall i | 0 <= i < |part| ensures IsDigit(part[i]) || part[i] == '-' {
      if i < |a| { assert part[i] == a[i]; }
      else if |a| < i < |a| + 1 + |b| { assert part[i] == b[i - |a| - 1]; }
      else if i >= |a| + 1 + |b| { assert part[i] == tail[i - |a| - 1 - |b|]; }
    }
  }

  /** The first two hyphen-separated pieces of `a-b...` are `a` and `b`. */
  lemma RangePartBounds(a: string, b: string, tail: string)
    requires AllDigits(a) && AllDigits(b)
    requires tail == "" || tail[0] == '-'
    ensures var bounds := Split(a + "-" + b + tail, '-');
      |bounds| >= 2 && bounds[0] == a && bounds[1] == b
  {
    var part := a + "-" + b + tail;
    assert part == a + ['-'] + (b + tail);
    SplitAround(a, b + tail, '-');
    NoHyphen(a);
    NoHyphen(b);
    SplitWithout(a, '-');
    SplitWithout(b, '-');
    if tail != "" {
      assert b + tail == b + ['-'] + tail[1..];
      SplitAround(b, tail[1..], '-');
    } else {
      assert b + tail == b;
    }
  }

  /** A specification without a comma is one part. */
  lemma SinglePart(part: string)
    requires IsLineSpec(part) && part != "" && ',' !in part
    ensures IsSegment(part) && HighlightLines(part) == PartLines(part)
  {
    SplitWithout(part, ',');
    PartsAreSegments(part);
    assert [part][1..] == [];
    assert PartsLines([part]) == PartLines(part) + PartsLines([]);
  }

  /** A single number reads as itself. */
  lemma NumberPart(a: string)
    requires AllDigits(a)
    ensures IsSegment(a) && PartLines(a) == [DigitsValue(a)]
  {
    NoHyphen(a);
  }

  /** How the example specification is put together. */
  lemma ExamplePieces()
    ensures "1" + "," + "3-5,8" == "1,3-5,8"
    ensures "3-5" + "," + "8" == "3-5,8"
    ensures "3" + "-" + "5" + "" == "3-5"
  {
    assert "1" + "," == "1,";
    assert "3-5" + "," == "3-5,";
    assert "3" + "-" == "3-";
  }

  lemma ExampleNumbers()
    ensures IsLineSpec("1") && HighlightLines("1") == [1]
    ensures IsLineSpec("8") && HighlightLines("8") == [8]
  {
    assert DigitsValue("1") == 1 && DigitsValue("8") == 8;
    SinglePart("1");
    NumberPart("1");
    SinglePart("8");
    NumberPart("8");
  }

  lemma ExampleRange()
    ensures IsLineSpec("3-5") && HighlightLines("3-5") == [3, 4, 5]
  {
    ExamplePieces();
    assert DigitsValue("3") == 3 && DigitsValue("5") == 5;
    SinglePart("3-5");
    RangePart("3", "5", "");
    ExampleDisplays();
  }

  /** The specification `1,3-5,8` highlights lines 1, 3, 4, 5 and 8, and the empty one none. */
  lemma HighlightExample()
    ensures IsLineSpec("1,3-5,8") && HighlightLines("1,3-5,8") == [1, 3, 4, 5, 8]
    ensures HighlightLines("") == []
  {
    ExamplePieces();
    ExampleNumbers();
    ExampleTail();
    HighlightLinesConcat("1", "3-5,8");
    ExampleDisplays();
  }

  lemma ExampleTail()
    ensures IsLineSpec("3-5,8") && HighlightLines("3-5,8") == [3, 4, 5, 8]
  {
    ExamplePieces();
    ExampleNumbers();
    ExampleRange();
    HighlightLinesConcat("3-5", "8");
    ExampleDisplays();
  }

  /** How the example's numbers are put together. */
  lemma ExampleDisplays()
    ensures Range(3, 5) == [3, 4, 5]
    ensures [3, 4, 5] + [8] == [3, 4, 5, 8]
    ensures [1] + [3, 4, 5, 8] == [1, 3, 4, 5, 8]
  {
  }

  // ---------------------------------------------------------------------------------------
  // Line highlighting and the code text
  // ---------------------------------------------------------------------------------------

  /** `lineProps`: the class a line gets, `highlighted-line` exactly for the listed lines. */
  function LineClass(linesToHighlight: seq<int>, lineNumber: int): (c: Option<string>)
    ensures c.Some? <==> lineNumber in linesToHighlight
    ensures c.Some? ==> c.value == "highlighted-line"
  {
    if lineNumber in linesToHighlight then Some("highlighted-line") else None
  }

  /** `String(children).replace(/\n$/, '')`: one final line feed removed, if there is one. */
  function StripFinalNewline(code: string): (r: string)
    ensures EndsWith(code, "\n") ==> r + "\n" == code
    ensures !EndsWith(code, "\n") ==> r == code
  {
    if |code| > 0 && code[|code| - 1] == '\n' then code[..|code| - 1] else code
  }

  /** What the component hands on: inline code as it is, or a block with its language, the
    * lines to highlight and the code text. */
  datatype View =
    | Inline(code: string)
    | Block(language: string, linesToHighlight: seq<int>, code: string)

  /** The component: parse the class name and the line specification, then choose the view. */
  method Render(children: string, className: Option<string>, inline: bool) returns (v: View)
    ensures var info := ParseClassName(className);
      IsLineSpec(info.lineSpec) &&
      v == if inline then Inline(children)
           else Block(info.language, HighlightLines(info.lineSpec), StripFinalNewline(children))
  {
    var info := ParseClassName(className);
    ParseClassNameLineSpec(className);
    var linesToHighlight := ParseHighlightLines(info.lineSpec);
    if inline {
      return Inline(children);
    }
    return Block(info.language, linesToHighlight, StripFinalNewline(children));
  }
}
