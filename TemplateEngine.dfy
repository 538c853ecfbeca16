/**
 * The HTML template engine of src/utils/templateEngine.ts.
 *
 * Rendering runs three passes in a fixed order: partial includes `{{>name}}`, conditional
 * blocks `{{#if NAME}}...{{/if}}`, and variable substitution `{{name}}`. Named templates are
 * fetched from the server's template directory and kept in a name-keyed cache.
 *
 * The server's directory is the map `files` of a `TemplateStore`: a name is present when the
 * fetch of `/templates/<name>.html` answers with a success status, and maps to the text it
 * answers with.
 */
module TemplateEngine {
  import opened Wrappers
  import opened Text

  /** A value of the render data mapping. A key that is absent and a key bound to
    * `undefined` behave alike in every pass, so `undefined` is an absent key here. */
  datatype Value = Str(s: string) | Num(n: int) | Bool(b: bool) | Null

  type Data = map<string, Value>

  /** A directive recognised in the text: the identifier it names and how many characters it spans. */
  datatype Tag = Tag(name: string, len: nat)

  const CloseIf: string := "{{/if}}"

  /** The text of a partial include directive. */
  function IncludeText(name: string): string {
    "{{>" + name + "}}"
  }

  // ---------------------------------------------------------------------------------------
  // Recognisers for the three directive regular expressions, each at the start of `t`.
  // Every greedy run in these patterns is followed by a character outside its class, so
  // the first way the regular expression can match is the only one.
  // ---------------------------------------------------------------------------------------

  /** `\{\{(\w+)\}\}` at the start of `t`. */
  function VarTag(t: string): (r: Option<Tag>)
    ensures r.Some? ==> 0 < r.value.len <= |t|
  {
    if StartsWith(t, "{{") then
      var w := Run(t, 2, Word);
      if w > 0 && OccursAt(t, "}}", 2 + w) then Some(Tag(t[2..2 + w], w + 4)) else None
    else None
  }

  /** `\{\{>(\w+)\}\}` at the start of `t`. */
  function IncludeTag(t: string): (r: Option<Tag>)
    ensures r.Some? ==> 0 < r.value.len <= |t|
  {
    if StartsWith(t, "{{>") then
      var w := Run(t, 3, Word);
      if w > 0 && OccursAt(t, "}}", 3 + w) then Some(Tag(t[3..3 + w], w + 5)) else None
    else None
  }

  /** `\{\{#if\s+(\w+)\}\}` at index `i` of `s`. */
  function IfTagAt(s: string, i: nat): (r: Option<Tag>)
    ensures r.Some? ==> 0 < r.value.len && i + r.value.len <= |s|
  {
    if OccursAt(s, "{{#if", i) then
      var sp := Run(s, i + 5, Space);
      var w := Run(s, i + 5 + sp, Word);
      if sp > 0 && w > 0 && OccursAt(s, "}}", i + 5 + sp + w)
      then Some(Tag(s[i + 5 + sp..i + 5 + sp + w], 7 + sp + w))
      else None
    else None
  }

  /** How an opening tag decomposes: `{{#if`, `sp` spaces, a `w`-character name, `}}`. */
  lemma IfTagParts(s: string, i: nat, g: Tag) returns (sp: nat, w: nat)
    requires IfTagAt(s, i) == Some(g)
    ensures OccursAt(s, "{{#if", i) && i + 5 + sp + w <= |s|
    ensures sp == Run(s, i + 5, Space) && w == Run(s, i + 5 + sp, Word)
    ensures sp > 0 && w > 0 && OccursAt(s, "}}", i + 5 + sp + w)
    ensures g == Tag(s[i + 5 + sp..i + 5 + sp + w], 7 + sp + w)
  {
    sp := Run(s, i + 5, Space);
    w := Run(s, i + 5 + sp, Word);
  }

  lemma IfTagFromParts(s: string, i: nat, sp: nat, w: nat)
    requires OccursAt(s, "{{#if", i) && i + 5 + sp + w <= |s|
    requires sp == Run(s, i + 5, Space) && w == Run(s, i + 5 + sp, Word)
    requires sp > 0 && w > 0 && OccursAt(s, "}}", i + 5 + sp + w)
    ensures IfTagAt(s, i) == Some(Tag(s[i + 5 + sp..i + 5 + sp + w], 7 + sp + w))
  {
  }

  /** The pieces of an opening tag at `a` in `t` recur in a copy of it at `b` in `u`. */
  lemma IfTagPartsCopy(t: string, u: string, a: nat, b: nat, sp: nat, w: nat)
    requires OccursAt(t, "{{#if", a) && a + 7 + sp + w <= |t|
    requires sp == Run(t, a + 5, Space) && w == Run(t, a + 5 + sp, Word)
    requires var n := 7 + sp + w; b + n <= |u| && u[b..b + n] == t[a..a + n]
    ensures OccursAt(u, "{{#if", b)
    ensures sp == Run(u, b + 5, Space) && w == Run(u, b + 5 + sp, Word)
    ensures u[b + 5 + sp..b + 7 + sp + w] == t[a + 5 + sp..a + 7 + sp + w]
  {
    IfTagHeadCopy(t, u, a, b, sp, w);
    IfTagNameCopy(t, u, a, b, sp, w);
  }

  lemma IfTagHeadCopy(t: string, u: string, a: nat, b: nat, sp: nat, w: nat)
    requires OccursAt(t, "{{#if", a) && a + 7 + sp + w <= |t|
    requires sp == Run(t, a + 5, Space)
    requires var n := 7 + sp + w; b + n <= |u| && u[b..b + n] == t[a..a + n]
    ensures OccursAt(u, "{{#if", b) && sp == Run(u, b + 5, Space)
  {
    var n := 7 + sp + w;
    SliceCopy(t, u, a, b, n, 0, 5);
    RunShift(t, u, a, b, n, 5, Space);
  }

  lemma IfTagNameCopy(t: string, u: string, a: nat, b: nat, sp: nat, w: nat)
    requires a + 7 + sp + w <= |t| && w == Run(t, a + 5 + sp, Word)
    requires var n := 7 + sp + w; b + n <= |u| && u[b..b + n] == t[a..a + n]
    ensures w == Run(u, b + 5 + sp, Word)
    ensures u[b + 5 + sp..b + 7 + sp + w] == t[a + 5 + sp..a + 7 + sp + w]
  {
    var n := 7 + sp + w;
    RunShift(t, u, a, b, n, 5 + sp, Word);
    SliceCopy(t, u, a, b, n, 5 + sp, 7 + sp + w);
  }

  /** Whether an opening tag matches depends only on the characters it spans: a copy of
    * them elsewhere, in the same text or another, is the same tag. */
  lemma IfTagCopy(t: string, u: string, a: nat, b: nat, g: Tag)
    requires IfTagAt(t, a) == Some(g)
    requires b + g.len <= |u| && u[b..b + g.len] == t[a..a + g.len]
    ensures IfTagAt(u, b) == Some(g)
  {
    var sp, w := IfTagParts(t, a, g);
    IfTagPartsCopy(t, u, a, b, sp, w);
    var x, y := u[b + 5 + sp..b + 7 + sp + w], t[a + 5 + sp..a + 7 + sp + w];
    assert x[..w] == u[b + 5 + sp..b + 5 + sp + w] && y[..w] == t[a + 5 + sp..a + 5 + sp + w];
    assert x[w..] == u[b + 5 + sp + w..b + 7 + sp + w] && y[w..] == t[a + 5 + sp + w..a + 7 + sp + w];
    IfTagFromParts(u, b, sp, w);
  }

  /** A match of the opening-tag expression: the index it starts at and the tag it reads. */
  datatype IfMatch = NoIf | IfAt(at: nat, tag: Tag) {
    /** The index just after the matched tag. */
    function End(): nat
      requires IfAt?
    {
      at + tag.len
    }
  }

  /** The first opening tag at or after index `from`: `s.substring(from).match(...)`, with the
    * index counted from the start of `s`. */
  function FirstIf(s: string, from: nat): (r: IfMatch)
    ensures r.IfAt? ==> from <= r.at < r.End() <= |s|
    decreases |s| + 1 - from
  {
    if from > |s| then NoIf
    else match IfTagAt(s, from)
      case Some(g) => IfAt(from, g)
      case None => FirstIf(s, from + 1)
  }

  /** The search finds the leftmost opening tag at or after `from`. */
  lemma FirstIfIsFirst(s: string, from: nat)
    ensures var r := FirstIf(s, from);
      r.IfAt? ==> (IfTagAt(s, r.at) == Some(r.tag)
        && forall j :: from <= j < r.at ==> IfTagAt(s, j).None?)
  {
    FirstIfFound(s, from);
    FirstIfNoneBefore(s, from);
  }

  lemma {:induction false} FirstIfFound(s: string, from: nat)
    ensures var r := FirstIf(s, from);
      r.IfAt? ==> IfTagAt(s, r.at) == Some(r.tag)
    decreases |s| + 1 - from
  {
    if from <= |s| && IfTagAt(s, from).None? {
      FirstIfFound(s, from + 1);
    }
  }

  lemma {:induction false} FirstIfNoneBefore(s: string, from: nat)
    ensures var r := FirstIf(s, from);
      r.IfAt? ==> forall j :: from <= j < r.at ==> IfTagAt(s, j).None?
    decreases |s| + 1 - from
  {
    if from <= |s| && IfTagAt(s, from).None? {
      var r := FirstIf(s, from + 1);
      FirstIfNoneBefore(s, from + 1);
      if r.IfAt? {
        forall j | from <= j < r.at ensures IfTagAt(s, j).None? {
          if j > from {
            assert from + 1 <= j;
          }
        }
      }
    }
  }

  /** The search finds no opening tag only when there is none. */
  lemma {:induction false} FirstIfNone(s: string, from: nat)
    ensures FirstIf(s, from).NoIf? ==> forall j :: from <= j ==> IfTagAt(s, j).None?
    decreases |s| + 1 - from
  {
    if from <= |s| && IfTagAt(s, from).None? {
      FirstIfNone(s, from + 1);
    }
  }

  // ---------------------------------------------------------------------------------------
  // Conditional blocks
  // ---------------------------------------------------------------------------------------

  /** JavaScript truthiness of a present value (NaN is not a value of this model). */
  predicate JsTruthy(v: Value) {
    match v
    case Str(s) => s != ""
    case Num(n) => n != 0
    case Bool(b) => b
    case Null => false
  }

  /** `value && value !== false && value !== 'false' && value !== 0 && value !== ''`
    * for `value = data[name]`. */
  predicate ShouldShow(data: Data, name: string) {
    && name in data
    && JsTruthy(data[name])
    && data[name] != Bool(false) && data[name] != Str("false")
    && data[name] != Num(0) && data[name] != Str("")
  }

  /** The exact exclusion list: a block is kept unless its key is missing or holds one of
    * `false`, `0`, `""`, `"false"`, `null`; in particular `"0"` keeps it. */
  lemma ShouldShowExactly(data: Data, name: string)
    ensures ShouldShow(data, name) <==>
      name in data && data[name] !in {Bool(false), Num(0), Str(""), Str("false"), Null}
  {
  }

/** The index just after a `{{/if}}` that starts at `e`. */
  function AfterClose(e: nat): nat {
    e + |CloseIf|
  }

  /** What the depth-counting scan meets first from index `pos`. */
  datatype Event =
    | NoClose           // no `{{/if}}` at or after `pos`
    | Open(m: IfMatch)  // an opening tag that starts before the next `{{/if}}`
    | Close(at: nat)    // the next `{{/if}}`, with no opening tag before it

  function NextEvent(s: string, pos: nat): (ev: Event)
    ensures ev.Open? ==> ev.m.IfAt? && pos <= ev.m.at < ev.m.End() <= |s|
    ensures ev.Close? ==> pos <= ev.at && AfterClose(ev.at) <= |s|
  {
    var endIfPos := IndexOf(s, CloseIf, pos);
    if endIfPos == -1 then NoClose
    else
      var nextIf := FirstIf(s, pos);
      if nextIf.IfAt? && nextIf.at < endIfPos then Open(nextIf) else Close(endIfPos)
  }

  /** Where the block opened just before `pos` ends: the depth-counting scan of the inner
    * loop, from index `pos` with `depth` blocks still open; -1 when the text runs out first. */
  function MatchingEnd(s: string, pos: nat, depth: nat): (r: int)
    requires depth >= 1
    ensures r == -1 || (pos <= r && AfterClose(r) <= |s|)
    decreases |s| - pos
  {
    if pos >= |s| then -1
    else match NextEvent(s, pos)
      case NoClose => -1
      case Open(m) => MatchingEnd(s, m.End(), depth + 1)
      case Close(e) => if depth == 1 then e else MatchingEnd(s, AfterClose(e), depth - 1)
  }

  /** The first block rewritten: its opening tag `m`, its matching `{{/if}}` at `e` and what
    * lies between are replaced by that content when the condition holds, and by nothing
    * otherwise. */
  function Rewrite(s: string, data: Data, m: IfMatch, e: nat): (r: string)
    requires m.IfAt? && m.End() <= e && AfterClose(e) <= |s|
    ensures |r| < |s|
  {
    s[..m.at] + (if ShouldShow(data, m.tag.name) then s[m.End()..e] else "") + s[AfterClose(e)..]
  }

  /** One rewrite of the conditional pass, on the first opening tag of the text. None when
    * there is no opening tag, or the first one has no matching `{{/if}}`. */
  function NextBlock(s: string, data: Data): (r: Option<string>)
    ensures r.Some? ==> |r.value| < |s|
  {
    var m := FirstIf(s, 0);
    if m.NoIf? then None
    else
      var e := MatchingEnd(s, m.End(), 1);
      if e == -1 then None else Some(Rewrite(s, data, m, e))
  }

  /** The conditional pass: blocks are rewritten one at a time, the first one first, until
    * no rewrite applies. */
  function Conditionals(s: string, data: Data): (r: string)
    ensures |r| <= |s|
    decreases |s|
  {
    match NextBlock(s, data)
    case None => s
    case Some(next) => Conditionals(next, data)
  }

  /** One step of the depth-counting scan from `pos`, in terms of the two searches the inner
    * loop makes there. */
  lemma ScanStep(s: string, pos: nat, depth: nat, nextIf: IfMatch, endIfPos: int)
    requires depth >= 1 && pos < |s|
    requires nextIf == FirstIf(s, pos) && endIfPos == IndexOf(s, CloseIf, pos)
    ensures endIfPos == -1 ==> MatchingEnd(s, pos, depth) == -1
    ensures endIfPos != -1 && nextIf.IfAt? && nextIf.at < endIfPos ==>
      MatchingEnd(s, pos, depth) == MatchingEnd(s, nextIf.End(), depth + 1)
    ensures endIfPos != -1 && !(nextIf.IfAt? && nextIf.at < endIfPos) && depth == 1 ==>
      MatchingEnd(s, pos, depth) == endIfPos
    ensures endIfPos != -1 && !(nextIf.IfAt? && nextIf.at < endIfPos) && depth > 1 ==>
      MatchingEnd(s, pos, depth) == MatchingEnd(s, AfterClose(endIfPos), depth - 1)
  {
    if endIfPos != -1 {
      assert NextEvent(s, pos) == if nextIf.IfAt? && nextIf.at < endIfPos then Open(nextIf) else Close(endIfPos);
    }
  }

  /** The scan finds nothing once the text is used up. */
  lemma ScanAtEnd(s: string, pos: nat, depth: nat)
    requires depth >= 1 && pos >= |s|
    ensures MatchingEnd(s, pos, depth) == -1
  {
  }

  /** A copy of text that begins with an opening tag begins with the same tag. */
  lemma CopyStartsWithTag(s: string, start: nat, e: nat, g: Tag, j: nat)
    requires IfTagAt(s, start) == Some(g) && start + g.len <= e <= |s|
    ensures OccursAt(s, s[start..e], j) ==> IfTagAt(s, j) == Some(g)
  {
    if OccursAt(s, s[start..e], j) {
      OccurrencePrefix(s, start, e, j, g.len);
      IfTagCopy(s, s, start, j, g);
    }
  }

  /** Text that begins with the first opening tag occurs first where it stands. */
  lemma TaggedTextFirstOccurrence(s: string, start: nat, e: nat, g: Tag)
    requires IfTagAt(s, start) == Some(g) && start + g.len <= e <= |s|
    requires forall j :: 0 <= j < start ==> IfTagAt(s, j).None?
    ensures IndexOf(s, s[start..e], 0) == start
  {
    forall j | 0 <= j < start ensures !OccursAt(s, s[start..e], j) {
      CopyStartsWithTag(s, start, e, g, j);
    }
    IndexOfOwnSlice(s, start, e);
  }

  /** The block found by the scan is also the first occurrence of its own text, so
    * `result.replace(fullMatch, ...)` rewrites that very block. */
  lemma BlockIsFirstOccurrence(s: string, m: IfMatch, e: nat)
    requires m == FirstIf(s, 0) && m.IfAt?
    requires m.End() <= e <= |s|
    ensures IndexOf(s, s[m.at..e], 0) == m.at
  {
    FirstIfIsFirst(s, 0);
    TaggedTextFirstOccurrence(s, m.at, e, m.tag);
  }

  /** Replacing the first block's text is the rewrite of that block. */
  lemma ReplaceBlock(s: string, data: Data, m: IfMatch, e: nat)
    requires m == FirstIf(s, 0) && m.IfAt?
    requires m.End() <= e && AfterClose(e) <= |s|
    ensures ReplaceFirst(s, s[m.at..AfterClose(e)],
                         if ShouldShow(data, m.tag.name) then s[m.End()..e] else "")
         == Rewrite(s, data, m, e)
  {
    BlockIsFirstOccurrence(s, m, AfterClose(e));
    ReplaceOwnSlice(s, m.at, AfterClose(e), if ShouldShow(data, m.tag.name) then s[m.End()..e] else "");
  }

  /** The rewrite of the first block, once its matching `{{/if}}` is known. */
  lemma NextBlockAt(s: string, data: Data, m: IfMatch, e: nat)
    requires m == FirstIf(s, 0) && m.IfAt?
    requires MatchingEnd(s, m.End(), 1) == e
    ensures m.End() <= e && AfterClose(e) <= |s|
    ensures NextBlock(s, data) == Some(Rewrite(s, data, m, e))
  {
  }

  /** Rewriting a block moves the pass on to the rewritten text. */
  lemma ConditionalsStep(s: string, data: Data, next: string)
    requires NextBlock(s, data) == Some(next)
    ensures Conditionals(s, data) == Conditionals(next, data)
  {
  }

  /** A first block without a matching `{{/if}}` stops the pass. */
  lemma StopsUnclosed(s: string, data: Data, m: IfMatch)
    requires m == FirstIf(s, 0) && m.IfAt?
    requires MatchingEnd(s, m.End(), 1) == -1
    ensures Conditionals(s, data) == s
  {
    assert NextBlock(s, data).None?;
  }

  /** Text without an opening tag is left as it is. */
  lemma StopsWithoutTag(s: string, data: Data)
    requires FirstIf(s, 0).NoIf?
    ensures Conditionals(s, data) == s
  {
    assert NextBlock(s, data).None?;
  }

  method FindMatchingEnd(result: string, contentStart: nat) returns (endPos: int)
    ensures endPos == MatchingEnd(result, contentStart, 1)
  {
    var depth := 1;
    var pos := contentStart;
    ghost var target := MatchingEnd(result, contentStart, 1);
    endPos := -1;
    while pos < |result| && depth > 0
      invariant endPos == -1 ==> depth >= 1 && target == MatchingEnd(result, pos, depth)
      invariant endPos != -1 ==> depth == 0 && target == endPos
      decreases |result| - pos, depth
    {
      var nextIf := FirstIf(result, pos);
      var nextEndIf := IndexOf(result, CloseIf, pos);
      ScanStep(result, pos, depth, nextIf, nextEndIf);
      if nextEndIf == -1 {
        // No closing tag: the template is malformed.
        return -1;
      }
      if nextIf.IfAt? && nextIf.at < nextEndIf {
        depth := depth + 1;
        pos := nextIf.End();
      } else {
        depth := depth - 1;
        if depth == 0 {
          endPos := nextEndIf;
        } else {
          pos := AfterClose(nextEndIf);
        }
      }
    }
    if endPos == -1 {
      ScanAtEnd(result, pos, depth);
    }
  }

  /** The pass stops at a text no rewrite applies to. */
  lemma {:induction false} ConditionalsSettles(s: string, data: Data)
    ensures NextBlock(Conditionals(s, data), data).None?
    decreases |s|
  {
    match NextBlock(s, data)
    case None =>
    case Some(next) => ConditionalsSettles(next, data);
  }

  /** Running the pass again changes nothing. */
  lemma ConditionalsIdempotent(s: string, data: Data)
    ensures Conditionals(Conditionals(s, data), data) == Conditionals(s, data)
  {
    ConditionalsSettles(s, data);
  }

  /** A search that meets no opening tag from `from` on finds none. */
  lemma {:induction false} FirstIfWhenNone(s: string, from: nat)
    requires forall j :: from <= j ==> IfTagAt(s, j).None?
    ensures FirstIf(s, from).NoIf?
    decreases |s| + 1 - from
  {
    if from <= |s| {
      FirstIfWhenNone(s, from + 1);
    }
  }

  /** `processConditionals`: rewrite the first block until no rewrite applies. */
  method ProcessConditionals(template: string, data: Data) returns (result: string)
    ensures result == Conditionals(template, data)
  {
    result := template;
    var hasConditionals := true;
    while hasConditionals
      invariant hasConditionals
      invariant Conditionals(result, data) == Conditionals(template, data)
      decreases |result|
    {
      var ifMatch := FirstIf(result, 0);
      if ifMatch.NoIf? {
        StopsWithoutTag(result, data);
        hasConditionals := false;
        break;
      }
      var condition := ifMatch.tag.name;
      var startPos := ifMatch.at;
      var contentStart := ifMatch.End();
      var endPos := FindMatchingEnd(result, contentStart);
      if endPos == -1 {
        StopsUnclosed(result, data, ifMatch);
        hasConditionals := false;
        break;
      }
      NextBlockAt(result, data, ifMatch, endPos);
      var content := result[contentStart..endPos];
      var fullMatch := result[startPos..AfterClose(endPos)];
      var shouldShow := ShouldShow(data, condition);
      ReplaceBlock(result, data, ifMatch, endPos);
      ghost var before := result;
      result := ReplaceFirst(result, fullMatch, if shouldShow then content else "");
      ConditionalsStep(before, data, result);
    }
  }

  // ---------------------------------------------------------------------------------------
  // Variables
  // ---------------------------------------------------------------------------------------

  /** `String(data[name])`, or the empty string for a missing key or `null`. */
  function ValueText(data: Data, name: string): string {
    if name !in data then ""
    else match data[name]
      case Str(s) => s
      case Num(n) => IntToString(n)
      case Bool(b) => if b then "true" else "false"
      case Null => ""
  }

  /** `processVariables`: one global, left-to-right replacement of `{{\w+}}`; the text a
    * directive is replaced with is never scanned again. */
  function Variables(s: string, data: Data): string
    decreases |s|
  {
    if s == [] then []
    else match VarTag(s)
      case Some(g) => ValueText(data, g.name) + Variables(s[g.len..], data)
      case None => [s[0]] + Variables(s[1..], data)
  }

  // ---------------------------------------------------------------------------------------
  // Includes and rendering
  // ---------------------------------------------------------------------------------------

  /** `[...template.matchAll(/\{\{>(\w+)\}\}/g)]`: the include directives of `s`, left to right. */
  function IncludeTags(s: string): seq<Tag>
    decreases |s|
  {
    if s == [] then []
    else match IncludeTag(s)
      case Some(g) => [g] + IncludeTags(s[g.len..])
      case None => IncludeTags(s[1..])
  }

  /** `renderTemplate`: includes, then conditionals, then variables. `fuel` bounds how deep
    * partials nest; for an acyclic set of partials (see `Ranked`) a fuel above every rank
    * is never exhausted. */
  function Render(files: map<string, string>, t: string, data: Data, fuel: nat): string
    decreases fuel, 2
  {
    Variables(Conditionals(Includes(files, t, data, fuel), data), data)
  }

  /** `processIncludes`. */
  function Includes(files: map<string, string>, t: string, data: Data, fuel: nat): string
    decreases fuel, 1
  {
    SpliceIncludes(files, t, IncludeTags(t), data, fuel)
  }

  /** The loop of `processIncludes`: each directive found in the original template is
    * replaced, at its first occurrence in the text as it is by then, by the rendered partial. */
  function SpliceIncludes(files: map<string, string>, result: string, tags: seq<Tag>,
                          data: Data, fuel: nat): string
    decreases fuel, 0, |tags|
  {
    if tags == [] then result
    else
      var rendered := Partial(files, tags[0].name, data, fuel);
      SpliceIncludes(files, ReplaceFirst(result, IncludeText(tags[0].name), rendered), tags[1..], data, fuel)
  }

  /** The text an include of `name` is replaced with: the partial rendered with the same
    * data, or the empty string when it cannot be loaded. */
  function Partial(files: map<string, string>, name: string, data: Data, fuel: nat): string
    decreases fuel, 0, 0
  {
    if name in files && fuel > 0 then Render(files, files[name], data, fuel - 1) else ""
  }

  /** The variable directive of `name` followed by `rest` is replaced by the value's text,
    * which is not scanned again, and the scan goes on after the directive. */
  lemma VariablesOfTag(name: string, rest: string, data: Data)
    requires IsWord(name)
    ensures Variables("{{" + name + "}}" + rest, data) == ValueText(data, name) + Variables(rest, data)
  {
    var t := "{{" + name + "}}" + rest;
    var n := |name|;
    assert t[..2] == "{{";
    forall k | 2 <= k < 2 + n ensures InClass(t[k], Word) {
      assert t[k] == name[k - 2];
    }
    assert t[2 + n] == '}';
    RunUnique(t, 2, Word, n);
    assert t[2 + n..2 + n + 2] == "}}";
    assert t[2..2 + n] == name;
    assert t[n + 4..] == rest;
  }

  /** Text in which no `{{` occurs: no directive of any of the three passes can start in it. */
  ghost predicate Plain(t: string) {
    forall i :: 0 <= i && i + 1 < |t| ==> !(t[i] == '{' && t[i + 1] == '{')
  }

  lemma PlainHasNoTags(t: string, i: nat)
    requires Plain(t)
    ensures IfTagAt(t, i).None?
    ensures |t| > 0 ==> VarTag(t).None? && IncludeTag(t).None?
    ensures |t| > 0 ==> Plain(t[1..])
  {
    if i + 5 <= |t| {
      assert t[i..i + 5][0] == t[i] && t[i..i + 5][1] == t[i + 1];
    }
    if 2 <= |t| {
      assert t[..2][0] == t[0] && t[..2][1] == t[1];
    }
    if |t| > 0 {
      forall j | 0 <= j && j + 1 < |t[1..]| ensures !(t[1..][j] == '{' && t[1..][j + 1] == '{') {
        assert t[1..][j] == t[j + 1] && t[1..][j + 1] == t[j + 2];
      }
    }
  }

  lemma {:induction false} VariablesPlain(t: string, data: Data)
    requires Plain(t)
    ensures Variables(t, data) == t
    decreases |t|
  {
    if t != [] {
      PlainHasNoTags(t, 0);
      VariablesPlain(t[1..], data);
    }
  }

  lemma {:induction false} IncludeTagsPlain(t: string)
    requires Plain(t)
    ensures IncludeTags(t) == []
    decreases |t|
  {
    if t != [] {
      PlainHasNoTags(t, 0);
      IncludeTagsPlain(t[1..]);
    }
  }

  /** A text with no `{{` renders as itself, whatever the data and the partials. */
  lemma RenderPlain(files: map<string, string>, t: string, data: Data, fuel: nat)
    requires Plain(t)
    ensures Render(files, t, data, fuel) == t
  {
    IncludeTagsPlain(t);
    assert Includes(files, t, data, fuel) == t;
    forall j | 0 <= j ensures IfTagAt(t, j).None? {
      PlainHasNoTags(t, j);
    }
    FirstIfWhenNone(t, 0);
    StopsWithoutTag(t, data);
    VariablesPlain(t, data);
  }

  // ---------------------------------------------------------------------------------------
  // Blocks in context
  // ---------------------------------------------------------------------------------------

  /** An opening tag written with one space: `{{#if name}}`. */
  function OpenTag(name: string): (t: string)
    ensures |t| == |name| + 8
  {
    "{{#if " + name + "}}"
  }

  /** The index just after an opening tag `OpenTag(name)` written at `p`. */
  function BodyStart(p: nat, name: string): nat {
    p + |OpenTag(name)|
  }

  /** No opening-tag text starts in `[lo, hi)`. */
  ghost predicate NoIfIn(s: string, lo: nat, hi: nat) {
    forall j :: lo <= j < hi ==> !OccursAt(s, "{{#if", j)
  }

  /** No `{{/if}}` starts in `[lo, hi)`. */
  ghost predicate NoCloseIn(s: string, lo: nat, hi: nat) {
    forall j :: lo <= j < hi ==> !OccursAt(s, CloseIf, j)
  }

  /** The search for an opening tag passes over a stretch that holds none. */
  lemma {:induction false} SkipNoIf(s: string, lo: nat, hi: nat)
    requires lo <= hi <= |s| && NoIfIn(s, lo, hi)
    ensures FirstIf(s, lo) == FirstIf(s, hi)
    decreases hi - lo
  {
    if lo < hi {
      assert !OccursAt(s, "{{#if", lo);
      assert FirstIf(s, lo) == FirstIf(s, lo + 1);
      SkipNoIf(s, lo + 1, hi);
    }
  }

  /** The search for `{{/if}}` passes over a stretch that holds none. */
  lemma SkipNoClose(s: string, lo: nat, hi: nat)
    requires lo <= hi && NoCloseIn(s, lo, hi)
    ensures IndexOf(s, CloseIf, lo) == IndexOf(s, CloseIf, hi)
  {
    IndexOfSkip(s, CloseIf, lo, hi);
  }

  /** A `{{/if}}` is found where it stands, and no opening tag starts inside it. */
  lemma CloseTagAt(s: string, e: nat)
    requires OccursAt(s, CloseIf, e)
    ensures IndexOf(s, CloseIf, e) == e
    ensures NoIfIn(s, e, AfterClose(e))
  {
    var c := s[e..e + 7];
    assert c == CloseIf;
    forall j | e <= j < AfterClose(e) ensures !OccursAt(s, "{{#if", j) {
      assert c[j - e] == s[j];
      assert j + 1 < e + 7 ==> c[j + 1 - e] == s[j + 1];
      assert j + 2 < e + 7 ==> c[j + 2 - e] == s[j + 2];
      assert j + 5 <= |s| ==> s[j..j + 5][0] == s[j] && s[j..j + 5][1] == s[j + 1] && s[j..j + 5][2] == s[j + 2];
    }
  }

  /** An opening tag written as `OpenTag(name)` is read as that tag, and no `{{/if}}` starts
    * inside it. */
  lemma OpenTagAt(s: string, p: nat, name: string)
    requires IsWord(name) && OccursAt(s, OpenTag(name), p)
    ensures IfTagAt(s, p) == Some(Tag(name, |OpenTag(name)|))
    ensures NoCloseIn(s, p, BodyStart(p, name))
  {
    var n := |name|;
    OpenTagPieces(s, p, name);
    OpenTagRuns(s, p, name);
    IfTagFromParts(s, p, 1, n);
    OpenTagNoClose(s, p, name);
  }

  /** The pieces of an opening tag written as `OpenTag(name)`. */
  lemma OpenTagPieces(s: string, p: nat, name: string)
    requires OccursAt(s, OpenTag(name), p)
    ensures OccursAt(s, "{{#if", p) && OccursAt(s, "}}", p + 6 + |name|)
    ensures s[p + 5] == ' ' && s[p + 6..p + 6 + |name|] == name
  {
    var head := "{{#if" + " ";
    assert OpenTag(name) == (head + name) + "}}";
    OccursSplit(s, head + name, "}}", p);
    OccursSplit(s, head, name, p);
    OccursSplit(s, "{{#if", " ", p);
    OccursPiece(s, " ", p + 5, 0, 1);
    OccursPiece(s, name, p + 6, 0, |name|);
  }

  /** The runs an opening tag written as `OpenTag(name)` is read with: one space, then the name. */
  lemma OpenTagRuns(s: string, p: nat, name: string)
    requires IsWord(name) && p + 8 + |name| <= |s|
    requires s[p + 5] == ' ' && s[p + 6..p + 6 + |name|] == name && s[p + 6 + |name|] == '}'
    ensures Run(s, p + 5, Space) == 1 && Run(s, p + 6, Word) == |name|
  {
    var n := |name|;
    assert s[p + 6] == name[0];
    WordCharIsNotSpace(name[0]);
    RunUnique(s, p + 5, Space, 1);
    forall k | p + 6 <= k < p + 6 + n ensures InClass(s[k], Word) {
      assert s[k] == s[p + 6..p + 6 + n][k - p - 6];
    }
    RunUnique(s, p + 6, Word, n);
  }

  /** The characters of an opening tag hold no `{{/if}}`. */
  lemma OpenTagNoClose(s: string, p: nat, name: string)
    requires IsWord(name) && OccursAt(s, OpenTag(name), p)
    ensures NoCloseIn(s, p, BodyStart(p, name))
  {
    var head := "#if ";
    var rest := head + name + "}}";
    assert OpenTag(name) == "{{" + rest;
    OccursSplit(s, "{{", rest, p);
    assert NoBrace(head) && NoBrace("}}");
    assert NoBrace(name) by {
      forall k | 0 <= k < |name| ensures name[k] != '{' {
        assert IsWordChar(name[k]);
      }
    }
    NoBraceConcat(head, name);
    NoBraceConcat(head + name, "}}");
    NoBraceQuiet(s, p + 2, rest);
    OccursPiece(s, rest, p + 2, 0, 1);
    assert s[p + 2] == '#';
    assert p + 2 + |rest| == BodyStart(p, name);
    forall j | p <= j < BodyStart(p, name) ensures !OccursAt(s, CloseIf, j) {
      if j == p {
        assert j + 7 <= |s| ==> s[j..j + 7][2] == s[p + 2];
      } else if j == p + 1 {
        assert j + 7 <= |s| ==> s[j..j + 7][1] == s[p + 2];
      }
    }
  }

  /** The scan meets a `{{/if}}` after a stretch without tags: the innermost block open ends
    * there. */
  lemma CloseAfterQuiet(s: string, pos: nat, e: nat, depth: nat)
    requires depth >= 1 && pos <= e && OccursAt(s, CloseIf, e)
    requires NoIfIn(s, pos, e) && NoCloseIn(s, pos, e)
    ensures MatchingEnd(s, pos, depth) == if depth == 1 then e else MatchingEnd(s, AfterClose(e), depth - 1)
  {
    CloseTagAt(s, e);
    SkipNoClose(s, pos, e);
    SkipNoIf(s, pos, e);
    ScanStep(s, pos, depth, FirstIf(s, pos), IndexOf(s, CloseIf, pos));
  }

  /** The scan meets an opening tag after a stretch without tags, and a `{{/if}}` follows it:
    * one more block is open after the tag. */
  lemma OpenAfterQuiet(s: string, pos: nat, p: nat, name: string, e: nat, depth: nat)
    requires IsWord(name) && depth >= 1 && pos <= p && OccursAt(s, OpenTag(name), p)
    requires NoIfIn(s, pos, p) && NoCloseIn(s, pos, p)
    requires BodyStart(p, name) <= e && OccursAt(s, CloseIf, e) && NoCloseIn(s, BodyStart(p, name), e)
    ensures MatchingEnd(s, pos, depth) == MatchingEnd(s, BodyStart(p, name), depth + 1)
  {
    var q := BodyStart(p, name);
    OpenTagAt(s, p, name);
    CloseTagAt(s, e);
    SkipNoClose(s, q, e);
    SkipNoClose(s, p, q);
    SkipNoClose(s, pos, p);
    var endIfPos := IndexOf(s, CloseIf, pos);
    assert endIfPos == e;
    SkipNoIf(s, pos, p);
    var nextIf := FirstIf(s, pos);
    assert nextIf == IfAt(p, Tag(name, |OpenTag(name)|));
    assert nextIf.End() == q;
    assert nextIf.IfAt? && nextIf.at < endIfPos;
    ScanStep(s, pos, depth, nextIf, endIfPos);
    assert MatchingEnd(s, pos, depth) == MatchingEnd(s, nextIf.End(), depth + 1);
  }

  /** The pass rewrites the first block, found at `p` with its matching `{{/if}}` at `e`:
    * the block is replaced by its content when the condition holds and by nothing otherwise,
    * and the pass goes on from the rewritten text. */
  lemma {:induction false} FirstBlock(s: string, data: Data, p: nat, name: string, e: nat)
    requires IsWord(name) && OccursAt(s, OpenTag(name), p) && NoIfIn(s, 0, p)
    requires MatchingEnd(s, BodyStart(p, name), 1) == e
    ensures BodyStart(p, name) <= e && AfterClose(e) <= |s|
    ensures Conditionals(s, data) ==
      Conditionals(s[..p] + (if ShouldShow(data, name) then s[BodyStart(p, name)..e] else "") + s[AfterClose(e)..], data)
  {
    FirstTagAt(s, p, name);
    var m := IfAt(p, Tag(name, |OpenTag(name)|));
    assert m.End() == BodyStart(p, name);
    NextBlockAt(s, data, m, e);
    var kept := if ShouldShow(data, name) then s[BodyStart(p, name)..e] else "";
    var next := Rewrite(s, data, m, e);
    assert next == s[..p] + kept + s[AfterClose(e)..];
    ConditionalsStep(s, data, next);
  }

  /** An opening tag with none before it is the one the search finds first. */
  lemma FirstTagAt(s: string, p: nat, name: string)
    requires IsWord(name) && OccursAt(s, OpenTag(name), p) && NoIfIn(s, 0, p)
    ensures FirstIf(s, 0) == IfAt(p, Tag(name, |OpenTag(name)|))
  {
    OpenTagAt(s, p, name);
    SkipNoIf(s, 0, p);
  }

  /** A block whose content holds no other block. */
  lemma SingleBlock(s: string, data: Data, p: nat, name: string, e: nat)
    requires IsWord(name) && OccursAt(s, OpenTag(name), p) && NoIfIn(s, 0, p)
    requires BodyStart(p, name) <= e && OccursAt(s, CloseIf, e)
    requires NoIfIn(s, BodyStart(p, name), e) && NoCloseIn(s, BodyStart(p, name), e)
    ensures Conditionals(s, data) ==
      Conditionals(s[..p] + (if ShouldShow(data, name) then s[BodyStart(p, name)..e] else "") + s[AfterClose(e)..], data)
  {
    CloseAfterQuiet(s, BodyStart(p, name), e, 1);
    FirstBlock(s, data, p, name, e);
  }

  /** A block whose content holds no other block and whose name is not set is removed with
    * its content. */
  lemma DroppedBlock(s: string, data: Data, p: nat, name: string, e: nat)
    requires IsWord(name) && OccursAt(s, OpenTag(name), p) && NoIfIn(s, 0, p)
    requires BodyStart(p, name) <= e && OccursAt(s, CloseIf, e)
    requires NoIfIn(s, BodyStart(p, name), e) && NoCloseIn(s, BodyStart(p, name), e)
    requires !ShouldShow(data, name)
    ensures Conditionals(s, data) == Conditionals(s[..p] + s[AfterClose(e)..], data)
  {
    SingleBlock(s, data, p, name, e);
    assert s[..p] + "" == s[..p];
  }

  /** A block `{{#if a}}X{{#if b}}Y{{/if}}Z{{/if}}`: the depth count matches the outer
    * opening tag with the second `{{/if}}`, so the whole of `X{{#if b}}Y{{/if}}Z` is kept
    * or dropped together. */
  lemma NestedBlock(s: string, data: Data, p: nat, a: string, p1: nat, b: string, e1: nat, e2: nat)
    requires IsWord(a) && IsWord(b) && OccursAt(s, OpenTag(a), p) && NoIfIn(s, 0, p)
    requires BodyStart(p, a) <= p1 && OccursAt(s, OpenTag(b), p1)
    requires NoIfIn(s, BodyStart(p, a), p1) && NoCloseIn(s, BodyStart(p, a), p1)
    requires BodyStart(p1, b) <= e1 && OccursAt(s, CloseIf, e1)
    requires NoIfIn(s, BodyStart(p1, b), e1) && NoCloseIn(s, BodyStart(p1, b), e1)
    requires AfterClose(e1) <= e2 && OccursAt(s, CloseIf, e2)
    requires NoIfIn(s, AfterClose(e1), e2) && NoCloseIn(s, AfterClose(e1), e2)
    ensures Conditionals(s, data) ==
      Conditionals(s[..p] + (if ShouldShow(data, a) then s[BodyStart(p, a)..e2] else "") + s[AfterClose(e2)..], data)
  {
    var q := BodyStart(p, a);
    OpenAfterQuiet(s, q, p1, b, e1, 1);
    CloseAfterQuiet(s, BodyStart(p1, b), e1, 2);
    CloseAfterQuiet(s, AfterClose(e1), e2, 1);
    FirstBlock(s, data, p, a, e2);
  }

  /** Text without `{` holds no tag of either kind. */
  ghost predicate NoBrace(t: string) {
    forall k :: 0 <= k < |t| ==> t[k] != '{'
  }

  lemma NoBraceQuiet(s: string, lo: nat, t: string)
    requires OccursAt(s, t, lo) && NoBrace(t)
    ensures NoIfIn(s, lo, lo + |t|) && NoCloseIn(s, lo, lo + |t|)
  {
    forall j | lo <= j < lo + |t| ensures s[j] != '{' {
      assert s[lo..lo + |t|][j - lo] == s[j];
    }
    forall j | lo <= j < lo + |t| ensures !OccursAt(s, "{{#if", j) && !OccursAt(s, CloseIf, j) {
      assert j + 5 <= |s| ==> s[j..j + 5][0] == s[j];
      assert j + 7 <= |s| ==> s[j..j + 7][0] == s[j];
    }
  }

  lemma NoBracePlain(t: string)
    requires NoBrace(t)
    ensures Plain(t)
  {
  }

  /** The conditional pass leaves text with no `{{` as it is. */
  lemma ConditionalsPlain(t: string, data: Data)
    requires Plain(t)
    ensures Conditionals(t, data) == t
  {
    forall j | 0 <= j ensures IfTagAt(t, j).None? {
      PlainHasNoTags(t, j);
    }
    FirstIfWhenNone(t, 0);
    StopsWithoutTag(t, data);
  }

  lemma NoBraceConcat(u: string, v: string)
    requires NoBrace(u) && NoBrace(v)
    ensures NoBrace(u + v)
  {
    forall k | 0 <= k < |u + v| ensures (u + v)[k] != '{' {
      if k < |u| { assert (u + v)[k] == u[k]; } else { assert (u + v)[k] == v[k - |u|]; }
    }
  }

  /** Where the pieces of `X{{#if b}}Y{{/if}}Z` stand. */
  lemma SinglePieces(b: string, x: string, y: string, z: string)
    ensures var s := x + OpenTag(b) + y + CloseIf + z;
      var e := BodyStart(|x|, b) + |y|;
      && OccursAt(s, x, 0) && OccursAt(s, OpenTag(b), |x|) && OccursAt(s, y, BodyStart(|x|, b))
      && OccursAt(s, CloseIf, e) && OccursAt(s, z, AfterClose(e)) && AfterClose(e) + |z| == |s|
  {
    var s1 := x + OpenTag(b);
    var s2 := s1 + y;
    var s3 := s2 + CloseIf;
    var s := s3 + z;
    OccursFront(x, OpenTag(b));
    OccursExtend(s1, x, 0, y);
    OccursExtend(s2, x, 0, CloseIf);
    OccursExtend(s3, x, 0, z);
    OccursAppend(x, OpenTag(b));
    OccursExtend(s1, OpenTag(b), |x|, y);
    OccursExtend(s2, OpenTag(b), |x|, CloseIf);
    OccursExtend(s3, OpenTag(b), |x|, z);
    OccursAppend(s1, y);
    OccursExtend(s2, y, |s1|, CloseIf);
    OccursExtend(s3, y, |s1|, z);
    OccursAppend(s2, CloseIf);
    OccursExtend(s3, CloseIf, |s2|, z);
    OccursAppend(s3, z);
  }

  /** `X{{#if b}}Y{{/if}}Z` gives `XYZ` when `b` is set and `XZ` otherwise. */
  lemma SingleBlockExample(b: string, x: string, y: string, z: string, data: Data)
    requires IsWord(b) && NoBrace(x) && NoBrace(y) && NoBrace(z)
    ensures Conditionals(x + OpenTag(b) + y + CloseIf + z, data) ==
      if ShouldShow(data, b) then x + y + z else x + z
  {
    var s := x + OpenTag(b) + y + CloseIf + z;
    var p, q := |x|, BodyStart(|x|, b);
    var e := q + |y|;
    SinglePieces(b, x, y, z);
    assert s[..p] == x by { assert s[..p] == s[0..|x|]; }
    assert s[q..e] == y;
    assert s[AfterClose(e)..] == z by { assert s[AfterClose(e)..] == s[AfterClose(e)..AfterClose(e) + |z|]; }
    NoBraceQuiet(s, 0, x);
    NoBraceQuiet(s, q, y);
    SingleBlock(s, data, p, b, e);
    var r := if ShouldShow(data, b) then x + y + z else x + z;
    var kept := s[..p] + (if ShouldShow(data, b) then s[q..e] else "") + s[AfterClose(e)..];
    assert kept == r by {
      if ShouldShow(data, b) {
        assert kept == x + y + z;
      } else {
        assert kept == x + "" + z;
        assert x + "" == x;
      }
    }
    NoBraceConcat(x, y);
    NoBraceConcat(x + y, z);
    NoBraceConcat(x, z);
    NoBracePlain(r);
    ConditionalsPlain(r, data);
  }

  /** Where the pieces of `{{#if a}}X{{#if b}}Y{{/if}}Z{{/if}}` stand in `s`. */
  ghost predicate NestedLayout(s: string, a: string, b: string, x: string, y: string, z: string) {
    var q := |OpenTag(a)|;
    var p1 := q + |x|;
    var e1 := BodyStart(p1, b) + |y|;
    var e2 := AfterClose(e1) + |z|;
    && OccursAt(s, OpenTag(a), 0) && OccursAt(s, x, q) && OccursAt(s, OpenTag(b), p1)
    && OccursAt(s, y, BodyStart(p1, b)) && OccursAt(s, CloseIf, e1)
    && OccursAt(s, z, AfterClose(e1)) && OccursAt(s, CloseIf, e2)
    && OccursAt(s, x + OpenTag(b) + y + CloseIf + z, q) && AfterClose(e2) == |s|
    && e2 == q + |x + OpenTag(b) + y + CloseIf + z|
  }

  /** The opening tags and the text before the first `{{/if}}` of the nested example. */
  lemma NestedFront(a: string, b: string, x: string, y: string, z: string)
    ensures var s := OpenTag(a) + (x + OpenTag(b) + y + CloseIf + z) + CloseIf;
      var q := |OpenTag(a)|;
      var p1 := q + |x|;
      && OccursAt(s, OpenTag(a), 0) && OccursAt(s, x, q) && OccursAt(s, OpenTag(b), p1)
      && OccursAt(s, y, BodyStart(p1, b))
  {
    var inner := x + OpenTag(b) + y + CloseIf + z;
    var u := OpenTag(a);
    var q := |u|;
    SinglePieces(b, x, y, z);
    OccursFront(u, inner);
    OccursExtend(u + inner, u, 0, CloseIf);
    OccursShift(u, inner, CloseIf, x, 0, q);
    OccursShift(u, inner, CloseIf, OpenTag(b), |x|, q + |x|);
    OccursShift(u, inner, CloseIf, y, BodyStart(|x|, b), BodyStart(q + |x|, b));
  }

  /** The two `{{/if}}` tags of the nested example and what lies between and around them. */
  lemma NestedBack(a: string, b: string, x: string, y: string, z: string)
    ensures var s := OpenTag(a) + (x + OpenTag(b) + y + CloseIf + z) + CloseIf;
      var q := |OpenTag(a)|;
      var e1 := BodyStart(q + |x|, b) + |y|;
      var e2 := AfterClose(e1) + |z|;
      && OccursAt(s, CloseIf, e1) && OccursAt(s, z, AfterClose(e1)) && OccursAt(s, CloseIf, e2)
      && OccursAt(s, x + OpenTag(b) + y + CloseIf + z, q) && AfterClose(e2) == |s|
      && e2 == q + |x + OpenTag(b) + y + CloseIf + z|
  {
    NestedBackTags(a, b, x, y, z);
    NestedBackSpan(a, b, x, y, z);
  }

  lemma NestedBackTags(a: string, b: string, x: string, y: string, z: string)
    ensures var s := OpenTag(a) + (x + OpenTag(b) + y + CloseIf + z) + CloseIf;
      var q := |OpenTag(a)|;
      var e1 := BodyStart(q + |x|, b) + |y|;
      && OccursAt(s, CloseIf, e1) && OccursAt(s, z, AfterClose(e1))
  {
    var inner := x + OpenTag(b) + y + CloseIf + z;
    var u := OpenTag(a);
    var e := BodyStart(|x|, b) + |y|;
    var e1 := BodyStart(|u| + |x|, b) + |y|;
    assert e1 == |u| + e;
    InnerClose(b, x, y, z);
    OccursShift(u, inner, CloseIf, CloseIf, e, e1);
    OccursShift(u, inner, CloseIf, z, AfterClose(e), AfterClose(e1));
  }

  /** The `{{/if}}` of `X{{#if b}}Y{{/if}}Z` and the text after it. */
  lemma InnerClose(b: string, x: string, y: string, z: string)
    ensures var s := x + OpenTag(b) + y + CloseIf + z;
      var e := BodyStart(|x|, b) + |y|;
      OccursAt(s, CloseIf, e) && OccursAt(s, z, AfterClose(e))
  {
    SinglePieces(b, x, y, z);
  }

  lemma NestedBackSpan(a: string, b: string, x: string, y: string, z: string)
    ensures var s := OpenTag(a) + (x + OpenTag(b) + y + CloseIf + z) + CloseIf;
      var q := |OpenTag(a)|;
      var e1 := BodyStart(q + |x|, b) + |y|;
      var e2 := AfterClose(e1) + |z|;
      && OccursAt(s, CloseIf, e2)
      && OccursAt(s, x + OpenTag(b) + y + CloseIf + z, q) && AfterClose(e2) == |s|
      && e2 == q + |x + OpenTag(b) + y + CloseIf + z|
  {
    var inner := x + OpenTag(b) + y + CloseIf + z;
    var u := OpenTag(a);
    var q := |u|;
    var e1 := BodyStart(q + |x|, b) + |y|;
    assert |inner| == |x| + |OpenTag(b)| + |y| + |CloseIf| + |z|;
    assert AfterClose(e1) + |z| == |u + inner|;
    OccursAppend(u + inner, CloseIf);
    OccursShift(u, inner, CloseIf, inner, 0, q);
  }

  lemma NestedPieces(a: string, b: string, x: string, y: string, z: string)
    ensures NestedLayout(OpenTag(a) + (x + OpenTag(b) + y + CloseIf + z) + CloseIf, a, b, x, y, z)
  {
    NestedFront(a, b, x, y, z);
    NestedBack(a, b, x, y, z);
  }

  /** With the pieces in place and `a` set, the outer block keeps exactly its content. */
  lemma NestedKept(s: string, data: Data, a: string, b: string, x: string, y: string, z: string)
    requires IsWord(a) && IsWord(b) && NoBrace(x) && NoBrace(y) && NoBrace(z) && ShouldShow(data, a)
    requires NestedLayout(s, a, b, x, y, z)
    ensures Conditionals(s, data) == Conditionals(x + OpenTag(b) + y + CloseIf + z, data)
  {
    var q := |OpenTag(a)|;
    var p1 := q + |x|;
    var e1 := BodyStart(p1, b) + |y|;
    var e2 := AfterClose(e1) + |z|;
    NoBraceQuiet(s, q, x);
    NoBraceQuiet(s, BodyStart(p1, b), y);
    NoBraceQuiet(s, AfterClose(e1), z);
    NestedBlock(s, data, 0, a, p1, b, e1, e2);
    NestedKeptText(s, a, b, x, y, z);
  }

  /** The outer block's content, with nothing before or after it. */
  lemma NestedKeptText(s: string, a: string, b: string, x: string, y: string, z: string)
    requires NestedLayout(s, a, b, x, y, z)
    ensures var e2 := AfterClose(BodyStart(|OpenTag(a)| + |x|, b) + |y|) + |z|;
      s[..0] + s[BodyStart(0, a)..e2] + s[AfterClose(e2)..] == x + OpenTag(b) + y + CloseIf + z
  {
    var inner := x + OpenTag(b) + y + CloseIf + z;
    var q := |OpenTag(a)|;
    var e2 := AfterClose(BodyStart(q + |x|, b) + |y|) + |z|;
    assert BodyStart(0, a) == q;
    assert s[q..e2] == inner by { assert e2 == q + |inner|; }
    var m := s[q..e2];
    assert s[..0] == [] && s[AfterClose(e2)..] == [];
    assert [] + m == m && m + [] == m;
  }

  /** `{{#if a}}X{{#if b}}Y{{/if}}Z{{/if}}` with `a` set and `b` not gives `XZ`: the depth
    * count matches the outer tag with the second `{{/if}}`, the kept block loses only its
    * own tags, and the inner block is dropped whole. */
  lemma NestedExample(a: string, b: string, x: string, y: string, z: string, data: Data)
    requires IsWord(a) && IsWord(b) && NoBrace(x) && NoBrace(y) && NoBrace(z)
    requires ShouldShow(data, a) && !ShouldShow(data, b)
    ensures Conditionals(OpenTag(a) + (x + OpenTag(b) + y + CloseIf + z) + CloseIf, data) == x + z
  {
    NestedPieces(a, b, x, y, z);
    NestedKept(OpenTag(a) + (x + OpenTag(b) + y + CloseIf + z) + CloseIf, data, a, b, x, y, z);
    SingleBlockExample(b, x, y, z, data);
  }

  /** The nested example written out, with `a` set to `true` and `b` to `0`. */
  lemma NestedLiteralExample()
    ensures Conditionals("{{#if a}}X{{#if b}}Y{{/if}}Z{{/if}}", map["a" := Bool(true), "b" := Num(0)]) == "XZ"
  {
    var data := map["a" := Bool(true), "b" := Num(0)];
    NestedLiteralPieces();
    assert ShouldShow(data, "a") && !ShouldShow(data, "b");
    NestedExample("a", "b", "X", "Y", "Z", data);
  }

  /** How the nested example is put together. */
  lemma NestedLiteralPieces()
    ensures "{{#if a}}X{{#if b}}Y{{/if}}Z{{/if}}" == OpenTag("a") + ("X" + OpenTag("b") + "Y" + CloseIf + "Z") + CloseIf
    ensures IsWord("a") && IsWord("b")
    ensures NoBrace("X") && NoBrace("Y") && NoBrace("Z")
    ensures "X" + "Z" == "XZ"
  {
    NestedLiteralText();
    assert IsWord("a") && IsWord("b");
  }

  lemma NestedLiteralText()
    ensures "{{#if a}}X{{#if b}}Y{{/if}}Z{{/if}}" == OpenTag("a") + ("X" + OpenTag("b") + "Y" + CloseIf + "Z") + CloseIf
  {
    assert OpenTag("a") == "{{#if a}}";
    NestedLiteralInner();
    assert "{{#if a}}" + "X{{#if b}}Y{{/if}}Z" == "{{#if a}}X{{#if b}}Y{{/if}}Z";
    assert "{{#if a}}X{{#if b}}Y{{/if}}Z" + "{{/if}}" == "{{#if a}}X{{#if b}}Y{{/if}}Z{{/if}}";
  }

  lemma NestedLiteralInner()
    ensures "X" + OpenTag("b") + "Y" + CloseIf + "Z" == "X{{#if b}}Y{{/if}}Z"
  {
    assert OpenTag("b") == "{{#if b}}";
    assert "X" + "{{#if b}}" == "X{{#if b}}";
    assert "X{{#if b}}" + "Y" == "X{{#if b}}Y";
    assert "X{{#if b}}Y" + "{{/if}}" == "X{{#if b}}Y{{/if}}";
    assert "X{{#if b}}Y{{/if}}" + "Z" == "X{{#if b}}Y{{/if}}Z";
  }

  // ---------------------------------------------------------------------------------------
  // The three passes together
  // ---------------------------------------------------------------------------------------

  /** The variable directive of `name`: `{{name}}`. */
  function VarText(name: string): (t: string)
    ensures |t| == |name| + 4
  {
    "{{" + name + "}}"
  }

  /** No include directive `{{>` starts anywhere in `t`. */
  ghost predicate NoIncludeStart(t: string) {
    forall i :: 0 <= i && i + 2 < |t| ==> !(t[i] == '{' && t[i + 1] == '{' && t[i + 2] == '>')
  }

  lemma {:induction false} IncludeTagsNoStart(t: string)
    requires NoIncludeStart(t)
    ensures IncludeTags(t) == []
    decreases |t|
  {
    if t != [] {
      if |t| >= 3 {
        assert !(t[0] == '{' && t[1] == '{' && t[2] == '>');
        assert t[..3][0] == t[0] && t[..3][1] == t[1] && t[..3][2] == t[2];
      }
      assert !StartsWith(t, "{{>");
      assert IncludeTag(t).None?;
      forall i | 0 <= i && i + 2 < |t[1..]|
        ensures !(t[1..][i] == '{' && t[1..][i + 1] == '{' && t[1..][i + 2] == '>')
      {
        assert t[1..][i] == t[i + 1] && t[1..][i + 1] == t[i + 2] && t[1..][i + 2] == t[i + 3];
      }
      IncludeTagsNoStart(t[1..]);
    }
  }

  /** A piece that does not end in `{` cannot start a directive together with what follows. */
  lemma NoIncludeConcat(u: string, w: string)
    requires NoIncludeStart(u) && NoIncludeStart(w) && (u == [] || u[|u| - 1] != '{')
    ensures NoIncludeStart(u + w)
  {
    var s := u + w;
    forall i | 0 <= i && i + 2 < |s| ensures !(s[i] == '{' && s[i + 1] == '{' && s[i + 2] == '>') {
      if i + 2 < |u| {
        assert s[i] == u[i] && s[i + 1] == u[i + 1] && s[i + 2] == u[i + 2];
      } else if i + 1 == |u| {
        assert s[i] == u[i];
      } else if i + 2 == |u| {
        assert s[i + 1] == u[i + 1];
      } else {
        assert s[i] == w[i - |u|] && s[i + 1] == w[i + 1 - |u|] && s[i + 2] == w[i + 2 - |u|];
      }
    }
  }

  /** A directive whose only `{` are its first two characters, with no `>` after them. */
  lemma TagNoIncludeStart(t: string)
    requires 3 <= |t| && t[2] != '>' && forall k :: 2 <= k < |t| ==> t[k] != '{'
    ensures NoIncludeStart(t)
  {
  }

  lemma NoBraceNoIncludeStart(t: string)
    requires NoBrace(t)
    ensures NoIncludeStart(t)
  {
  }

  lemma TagsNoIncludeStart(b: string, v: string)
    requires IsWord(b) && IsWord(v)
    ensures NoIncludeStart(OpenTag(b)) && NoIncludeStart(VarText(v)) && NoIncludeStart(CloseIf)
  {
    var o := OpenTag(b);
    forall k | 2 <= k < |o| ensures o[k] != '{' {
      if 6 <= k < 6 + |b| { assert o[k] == b[k - 6]; }
    }
    TagNoIncludeStart(o);
    var t := VarText(v);
    assert t[2] == v[0];
    forall k | 2 <= k < |t| ensures t[k] != '{' {
      if k < 2 + |v| { assert t[k] == v[k - 2]; }
    }
    TagNoIncludeStart(t);
    TagNoIncludeStart(CloseIf);
  }

  /** No opening tag and no `{{/if}}` starts inside a variable directive. */
  lemma VarTextQuiet(s: string, lo: nat, v: string)
    requires IsWord(v) && OccursAt(s, VarText(v), lo)
    ensures NoIfIn(s, lo, lo + |v| + 4) && NoCloseIn(s, lo, lo + |v| + 4)
  {
    var rest := v + "}}";
    assert VarText(v) == "{{" + rest;
    OccursSplit(s, "{{", rest, lo);
    assert NoBrace(v) by {
      forall k | 0 <= k < |v| ensures v[k] != '{' {
        assert IsWordChar(v[k]);
      }
    }
    assert NoBrace("}}");
    NoBraceConcat(v, "}}");
    NoBraceQuiet(s, lo + 2, rest);
    OccursPiece(s, rest, lo + 2, 0, 1);
    var c := s[lo + 2];
    assert c == v[0] && IsWordChar(c);
    assert c != '#' && c != '/';
    forall j | lo <= j < lo + 2 ensures !OccursAt(s, "{{#if", j) && !OccursAt(s, CloseIf, j) {
      if j == lo {
        assert j + 5 <= |s| ==> s[j..j + 5][2] == c;
        assert j + 7 <= |s| ==> s[j..j + 7][2] == c;
      } else {
        assert j + 5 <= |s| ==> s[j..j + 5][1] == c;
        assert j + 7 <= |s| ==> s[j..j + 7][1] == c;
      }
    }
  }

  /** The includes pass leaves text without include directives as it is. */
  lemma IncludesNone(files: map<string, string>, t: string, data: Data, fuel: nat)
    requires NoIncludeStart(t)
    ensures Includes(files, t, data, fuel) == t
  {
    IncludeTagsNoStart(t);
  }

  /** The text of `X{{#if b}}{{v}}{{/if}}Z` has no include directive. */
  lemma DroppedNoInclude(b: string, v: string, x: string, z: string)
    requires IsWord(b) && IsWord(v) && NoBrace(x) && NoBrace(z)
    ensures NoIncludeStart(x + OpenTag(b) + VarText(v) + CloseIf + z)
  {
    TagsNoIncludeStart(b, v);
    NoBraceNoIncludeStart(x);
    NoBraceNoIncludeStart(z);
    var s1 := x + OpenTag(b);
    var s2 := s1 + VarText(v);
    var s3 := s2 + CloseIf;
    NoIncludeConcat(x, OpenTag(b));
    assert s1[|s1| - 1] == '}';
    NoIncludeConcat(s1, VarText(v));
    assert s2[|s2| - 1] == '}';
    NoIncludeConcat(s2, CloseIf);
    assert s3[|s3| - 1] == '}';
    NoIncludeConcat(s3, z);
  }

  /** The conditional pass removes `{{#if b}}{{v}}{{/if}}` whole when `b` is not set. */
  lemma DroppedConditionals(b: string, v: string, x: string, z: string, data: Data)
    requires IsWord(b) && IsWord(v) && NoBrace(x) && NoBrace(z) && !ShouldShow(data, b)
    ensures Conditionals(x + OpenTag(b) + VarText(v) + CloseIf + z, data) == x + z
  {
    var y := VarText(v);
    var s := x + OpenTag(b) + y + CloseIf + z;
    var p, q := |x|, BodyStart(|x|, b);
    var e := q + |y|;
    SinglePieces(b, x, y, z);
    assert s[..p] == x by { assert s[..p] == s[0..|x|]; }
    assert s[AfterClose(e)..] == z by { assert s[AfterClose(e)..] == s[AfterClose(e)..AfterClose(e) + |z|]; }
    NoBraceQuiet(s, 0, x);
    VarTextQuiet(s, q, v);
    DroppedBlock(s, data, p, b, e);
    assert s[..p] + s[AfterClose(e)..] == x + z;
    NoBraceConcat(x, z);
    NoBracePlain(x + z);
    ConditionalsPlain(x + z, data);
  }

  /** A variable directive inside a dropped block never reaches the output: the block is
    * removed by the conditional pass before the variable pass runs. */
  lemma DroppedVariable(files: map<string, string>, b: string, v: string, x: string, z: string,
                        data: Data, fuel: nat)
    requires IsWord(b) && IsWord(v) && NoBrace(x) && NoBrace(z) && !ShouldShow(data, b)
    ensures Render(files, x + OpenTag(b) + VarText(v) + CloseIf + z, data, fuel) == x + z
  {
    var s := x + OpenTag(b) + VarText(v) + CloseIf + z;
    DroppedNoInclude(b, v, x, z);
    IncludesNone(files, s, data, fuel);
    DroppedConditionals(b, v, x, z, data);
    NoBraceConcat(x, z);
    NoBracePlain(x + z);
    VariablesPlain(x + z, data);
  }

  /** An include directive is found where it stands and the scan goes on after it. */
  lemma IncludeTagsOf(name: string, rest: string)
    requires IsWord(name)
    ensures IncludeTags(IncludeText(name) + rest) == [Tag(name, |name| + 5)] + IncludeTags(rest)
  {
    var t := IncludeText(name) + rest;
    var n := |name|;
    assert t[..3] == "{{>";
    forall k | 3 <= k < 3 + n ensures InClass(t[k], Word) {
      assert t[k] == name[k - 3];
    }
    assert t[3 + n] == '}';
    RunUnique(t, 3, Word, n);
    assert t[3 + n..3 + n + 2] == "}}";
    assert t[3..3 + n] == name;
    assert t[n + 5..] == rest;
  }

  /** A template that is one variable directive renders as the value's text, whatever that
    * text holds: the variable pass does not scan what it inserts. */
  lemma VarTemplateRenders(files: map<string, string>, v: string, data: Data, fuel: nat)
    requires IsWord(v)
    ensures Render(files, VarText(v), data, fuel) == ValueText(data, v)
  {
    var t := VarText(v);
    TagsNoIncludeStart(v, v);
    IncludesNone(files, t, data, fuel);
    VarTextConditionals(v, data);
    VarTextVariables(v, data);
  }

  /** The conditional pass leaves a lone variable directive alone. */
  lemma VarTextConditionals(v: string, data: Data)
    requires IsWord(v)
    ensures Conditionals(VarText(v), data) == VarText(v)
  {
    var t := VarText(v);
    assert OccursAt(t, t, 0);
    VarTextQuiet(t, 0, v);
    SkipNoIf(t, 0, |t|);
    assert FirstIf(t, |t|) == FirstIf(t, |t| + 1);
    StopsWithoutTag(t, data);
  }

  /** A template that is one include directive comes out of the include pass as the
    * rendered partial, whatever the partial holds. */
  lemma IncludeAlone(files: map<string, string>, b: string, data: Data, fuel: nat)
    requires IsWord(b)
    ensures Includes(files, IncludeText(b), data, fuel) == Partial(files, b, data, fuel)
  {
    var r := Partial(files, b, data, fuel);
    var tags := IncludeTags(IncludeText(b));
    LoneInclude(b);
    assert ReplaceFirst(IncludeText(b), IncludeText(b), r) == r by {
      ReplaceFirstPrefix(IncludeText(b), "", r);
      assert IncludeText(b) + "" == IncludeText(b);
      assert r + "" == r;
    }
    assert SpliceIncludes(files, r, tags[1..], data, fuel) == r;
  }

  /** The including template runs its own conditional and variable passes over the rendered
    * partial: `{{>b}}` renders as the partial's output rendered once more without includes. */
  lemma IncludeRescanned(files: map<string, string>, b: string, data: Data, fuel: nat)
    requires IsWord(b)
    ensures Render(files, IncludeText(b), data, fuel)
            == Variables(Conditionals(Partial(files, b, data, fuel), data), data)
  {
    IncludeAlone(files, b, data, fuel);
  }

  /** A partial `b` of `{{v}}` whose value is the directive `{{w}}`: the partial renders as
    * `{{w}}`, which the including template then replaces in its own variable pass, so `{{>b}}`
    * renders as the value of `w`. */
  lemma IncludeRescansValue(files: map<string, string>, b: string, v: string, w: string,
                            data: Data, fuel: nat)
    requires IsWord(b) && IsWord(v) && IsWord(w) && fuel >= 1
    requires b in files && files[b] == VarText(v) && ValueText(data, v) == VarText(w)
    ensures Partial(files, b, data, fuel) == VarText(w)
    ensures Render(files, IncludeText(b), data, fuel) == ValueText(data, w)
  {
    PartialOfVariable(files, b, v, data, fuel);
    IncludeRescanned(files, b, data, fuel);
    VarTextRescanned(w, data);
  }

  /** A partial that is one variable directive renders as the value's text. */
  lemma PartialOfVariable(files: map<string, string>, b: string, v: string, data: Data, fuel: nat)
    requires IsWord(v) && fuel >= 1 && b in files && files[b] == VarText(v)
    ensures Partial(files, b, data, fuel) == ValueText(data, v)
  {
    PartialLoaded(files, b, data, fuel);
    VarTemplateRenders(files, v, data, fuel - 1);
  }

  /** The conditional and then the variable pass over a lone variable directive. */
  lemma VarTextRescanned(w: string, data: Data)
    requires IsWord(w)
    ensures Variables(Conditionals(VarText(w), data), data) == ValueText(data, w)
  {
    VarTextConditionals(w, data);
    VarTextVariables(w, data);
  }

  /** The variable pass replaces a lone variable directive by the value's text. */
  lemma VarTextVariables(w: string, data: Data)
    requires IsWord(w)
    ensures Variables(VarText(w), data) == ValueText(data, w)
  {
    VariablesOfTag(w, "", data);
    assert VarText(w) + "" == VarText(w);
  }

  /** `b` = `{{v}}`, `v` = `"{{w}}"`, `w` = `"x"`: `{{>b}}` renders as `"x"`. */
  lemma RescanExample(fuel: nat)
    requires fuel >= 1
    ensures var files := map["b" := "{{v}}"];
      Render(files, "{{>b}}", map["v" := Str("{{w}}"), "w" := Str("x")], fuel) == "x"
  {
    var files := map["b" := "{{v}}"];
    var data := map["v" := Str("{{w}}"), "w" := Str("x")];
    RescanExampleTexts();
    IncludeRescansValue(files, "b", "v", "w", data, fuel);
  }

  lemma RescanExampleTexts()
    ensures IsWord("b") && IsWord("v") && IsWord("w")
    ensures VarText("v") == "{{v}}" && VarText("w") == "{{w}}" && IncludeText("b") == "{{>b}}"
  {
    assert IsWordChar('b') && IsWordChar('v') && IsWordChar('w');
  }

  /** An include of a partial that is one variable directive renders as the value's text
    * when that text holds no `{{`; otherwise the including template rescans it (see
    * `RescanExample`). */
  lemma IncludeOfVariable(files: map<string, string>, b: string, v: string, data: Data, fuel: nat)
    requires IsWord(b) && IsWord(v) && b in files && files[b] == VarText(v) && fuel >= 1
    requires Plain(ValueText(data, v))
    ensures Render(files, IncludeText(b), data, fuel) == ValueText(data, v)
  {
    var r := ValueText(data, v);
    IncludesOfVariable(files, b, v, data, fuel);
    ConditionalsPlain(r, data);
    VariablesPlain(r, data);
  }

  /** The include pass alone puts the value's text in place of the directive. */
  lemma IncludesOfVariable(files: map<string, string>, b: string, v: string, data: Data, fuel: nat)
    requires IsWord(b) && IsWord(v) && b in files && files[b] == VarText(v) && fuel >= 1
    ensures Includes(files, IncludeText(b), data, fuel) == ValueText(data, v)
  {
    IncludeAlone(files, b, data, fuel);
    PartialOfVariable(files, b, v, data, fuel);
  }

  /** A template that is one include directive has that one directive. */
  lemma LoneInclude(b: string)
    requires IsWord(b)
    ensures IncludeTags(IncludeText(b)) == [Tag(b, |b| + 5)]
  {
    IncludeTagsOf(b, "");
    assert IncludeText(b) + "" == IncludeText(b);
  }

  /** An include of a partial that cannot be loaded at the start of a template becomes the
    * empty string, and the rest of the template renders as it would on its own. */
  lemma MissingPartialRender(files: map<string, string>, m: string, u: string, data: Data, fuel: nat)
    requires IsWord(m) && m !in files
    ensures Render(files, IncludeText(m) + u, data, fuel) == Render(files, u, data, fuel)
  {
    var t := IncludeText(m) + u;
    IncludeTagsOf(m, u);
    var tags := IncludeTags(t);
    assert tags[0].name == m && tags[1..] == IncludeTags(u);
    assert Partial(files, m, data, fuel) == "";
    ReplaceFirstPrefix(IncludeText(m), u, "");
    assert "" + u == u;
    assert SpliceIncludes(files, t, tags, data, fuel) == SpliceIncludes(files, u, IncludeTags(u), data, fuel);
  }

  /** `{{>m}}{{>b}}` with no partial `m` and a partial `b` of `{{v}}` renders as the value of
    * `v`: the missing partial becomes the empty string and the next include still renders. */
  lemma MissingPartialSkipped(files: map<string, string>, m: string, b: string, v: string,
                              data: Data, fuel: nat)
    requires IsWord(m) && IsWord(b) && IsWord(v) && m !in files
    requires b in files && files[b] == VarText(v) && fuel >= 1 && Plain(ValueText(data, v))
    ensures Render(files, IncludeText(m) + IncludeText(b), data, fuel) == ValueText(data, v)
  {
    MissingPartialRender(files, m, IncludeText(b), data, fuel);
    IncludeOfVariable(files, b, v, data, fuel);
  }

  /** Partials `A` = `{{>B}}` and `B` = `{{x}}` with `x` = `"42"`: `A` renders as `"42"`. */
  lemma PartialExample(fuel: nat)
    requires fuel >= 1
    ensures var files := map["A" := "{{>B}}", "B" := "{{x}}"];
      Render(files, files["A"], map["x" := Str("42")], fuel) == "42"
  {
    var files := map["A" := "{{>B}}", "B" := "{{x}}"];
    var data := map["x" := Str("42")];
    assert IsWordChar('B') && IsWordChar('x');
    assert files["A"] == IncludeText("B");
    assert files["B"] == VarText("x");
    assert ValueText(data, "x") == "42";
    IncludeOfVariable(files, "B", "x", data, fuel);
  }

  /** Every partial that `t` includes and that exists has a rank below `bound`. */
  ghost predicate IncludesBelow(files: map<string, string>, rank: map<string, nat>, t: string, bound: nat) {
    forall i :: 0 <= i < |IncludeTags(t)| && IncludeTags(t)[i].name in files ==>
      IncludeTags(t)[i].name in rank && rank[IncludeTags(t)[i].name] < bound
  }

  /** The partials are acyclic: each one only includes partials of lower rank. */
  ghost predicate Ranked(files: map<string, string>, rank: map<string, nat>, height: nat) {
    forall n :: n in files ==> n in rank && rank[n] < height && IncludesBelow(files, rank, files[n], rank[n])
  }

  /** A partial that a template below `fuel` includes is itself below `fuel - 1`. */
  lemma IncludedBelow(files: map<string, string>, rank: map<string, nat>, height: nat,
                      t: string, fuel: nat, i: nat)
    requires Ranked(files, rank, height) && IncludesBelow(files, rank, t, fuel)
    requires i < |IncludeTags(t)|
    ensures var n := IncludeTags(t)[i].name;
      n in files ==> fuel > 0 && IncludesBelow(files, rank, files[n], fuel - 1)
  {
    var n := IncludeTags(t)[i].name;
    if n in files {
      assert n in rank && rank[n] < fuel;
      assert IncludesBelow(files, rank, files[n], rank[n]);
    }
  }

  /** One turn of the `processIncludes` loop: splicing the `i`th partial in and going on
    * with the rest is splicing from the `i`th on. */
  lemma SpliceStep(files: map<string, string>, result: string, tags: seq<Tag>, i: nat,
                   data: Data, fuel: nat)
    requires i < |tags|
    ensures var rendered := Partial(files, tags[i].name, data, fuel);
      SpliceIncludes(files, ReplaceFirst(result, IncludeText(tags[i].name), rendered), tags[i + 1..], data, fuel)
      == SpliceIncludes(files, result, tags[i..], data, fuel)
  {
    assert tags[i..][1..] == tags[i + 1..];
  }

  /** A partial that loads is rendered with one unit of fuel less. */
  lemma PartialLoaded(files: map<string, string>, name: string, data: Data, fuel: nat)
    requires name in files && fuel > 0
    ensures Partial(files, name, data, fuel) == Render(files, files[name], data, fuel - 1)
  {
  }

  /** The names a render of `t` asks the template cache for: the name of each include
    * directive and, for each partial that loads, the names its own render asks for. */
  ghost function Reached(files: map<string, string>, t: string, fuel: nat): set<string>
    decreases fuel, 1
  {
    ReachedTags(files, IncludeTags(t), fuel)
  }

  ghost function ReachedTags(files: map<string, string>, tags: seq<Tag>, fuel: nat): set<string>
    decreases fuel, 0, |tags|
  {
    if tags == [] then {} else PartialReached(files, tags[0].name, fuel) + ReachedTags(files, tags[1..], fuel)
  }

  /** The names asked for when one include of `name` is rendered. */
  ghost function PartialReached(files: map<string, string>, name: string, fuel: nat): set<string>
    decreases fuel, 0, 0
  {
    {name} + if name in files && fuel > 0 then Reached(files, files[name], fuel - 1) else {}
  }

  lemma {:induction false} ReachedTagsSnoc(files: map<string, string>, tags: seq<Tag>, i: nat, fuel: nat)
    requires i < |tags|
    ensures ReachedTags(files, tags[..i + 1], fuel)
            == ReachedTags(files, tags[..i], fuel) + PartialReached(files, tags[i].name, fuel)
  {
    if i == 0 {
      assert tags[..1][1..] == [];
      assert tags[..0] == [];
    } else {
      ReachedTagsSnoc(files, tags[1..], i - 1, fuel);
      assert tags[..i + 1][1..] == tags[1..][..i];
      assert tags[..i][1..] == tags[1..][..i - 1];
    }
  }

  /** Every cached text is the server's text under the same name. */
  ghost predicate Agrees(files: map<string, string>, cache: map<string, string>) {
    forall n :: n in cache ==> n in files && cache[n] == files[n]
  }

  /** `loadHTMLTemplate` answers `n` from the cache without fetching. */
  predicate Cached(cache: map<string, string>, n: string) {
    n in cache && cache[n] != ""
  }

  /** The effect on the cache and the fetch log of loading every name of `reached`, some of
    * them perhaps several times, starting from `c0` and `l0`: the log only grows, the names
    * fetched are exactly the reached names that were not cached with a non-empty text at the
    * start, and the cache gains exactly the reached names the server has. */
  ghost predicate Loaded(files: map<string, string>, reached: set<string>,
                         c0: map<string, string>, l0: seq<string>,
                         c1: map<string, string>, l1: seq<string>) {
    && l0 <= l1
    && (forall n :: n in l1[|l0|..] <==> n in reached && !Cached(c0, n))
    && (forall n :: n in c1 <==> n in c0 || (n in reached && n in files))
  }

  /** Loading keeps what was cached and caches every loaded name the server has. */
  lemma LoadedKeeps(files: map<string, string>, reached: set<string>,
                    c0: map<string, string>, l0: seq<string>, c1: map<string, string>, l1: seq<string>)
    requires Loaded(files, reached, c0, l0, c1, l1)
    ensures forall n :: n in c0 ==> n in c1
    ensures forall n :: n in reached && n in files ==> n in c1
  {
  }

  /** Loading nothing changes nothing. */
  lemma LoadedNothing(files: map<string, string>, c: map<string, string>, l: seq<string>)
    ensures Loaded(files, {}, c, l, c, l)
  {
    assert l[|l|..] == [];
  }

  /** Loading one set of names and then another is loading both. */
  lemma LoadedThen(files: map<string, string>, r1: set<string>, r2: set<string>,
                   c0: map<string, string>, l0: seq<string>, c1: map<string, string>, l1: seq<string>,
                   c2: map<string, string>, l2: seq<string>)
    requires Agrees(files, c0) && Agrees(files, c1)
    requires Loaded(files, r1, c0, l0, c1, l1) && Loaded(files, r2, c1, l1, c2, l2)
    ensures Loaded(files, r1 + r2, c0, l0, c2, l2)
  {
    assert l2[|l0|..] == l1[|l0|..] + l2[|l1|..];
    forall n ensures n in l2[|l0|..] <==> n in r1 + r2 && !Cached(c0, n) {
      assert Cached(c1, n) <==> Cached(c0, n) || (n in r1 && n in files && files[n] != "");
    }
  }

  /** The names of a list's first `i + 1` entries are those of its first `i` and the next. */
  lemma NamesStep(names: seq<string>, i: nat)
    requires i < |names|
    ensures (set k | 0 <= k < i + 1 :: names[k]) == (set k | 0 <= k < i :: names[k]) + {names[i]}
  {
  }

  datatype LoadError = TemplateNotFound(name: string)

  /** The module-level template cache together with the server it loads from. */
  class TemplateStore {
    /** The server's template directory. */
    const files: map<string, string>
    ghost const rank: map<string, nat>
    ghost const height: nat
    /** `templateCache`. */
    var cache: map<string, string>
    /** The names fetched from the server, in the order the fetches were issued. */
    var fetchLog: seq<string>

    ghost predicate Valid()
      reads this
    {
      && Ranked(files, rank, height)
      && Agrees(files, cache)
    }

    constructor (files: map<string, string>, ghost rank: map<string, nat>, ghost height: nat)
      requires Ranked(files, rank, height)
      ensures Valid()
      ensures this.files == files && cache == map[] && fetchLog == []
    {
      this.files := files;
      this.rank := rank;
      this.height := height;
      cache := map[];
      fetchLog := [];
    }

    /** `loadHTMLTemplate`. A cached text is returned without fetching only when it is
      * non-empty; otherwise the template is fetched, and stored when the fetch succeeds. */
    method LoadHTMLTemplate(name: string) returns (r: Result<string, LoadError>)
      requires Valid()
      modifies this
      ensures Valid()
      ensures r == if name in files then Success(files[name]) else Failure(TemplateNotFound(name))
      ensures name in old(cache) && old(cache)[name] != "" ==>
        cache == old(cache) && fetchLog == old(fetchLog)
      ensures !(name in old(cache) && old(cache)[name] != "") ==>
        && fetchLog == old(fetchLog) + [name]
        && cache == if name in files then old(cache)[name := files[name]] else old(cache)
      ensures Loaded(files, {name}, old(cache), old(fetchLog), cache, fetchLog)
    {
      if name in cache && cache[name] != "" {
        LoadedNothing(files, cache, fetchLog);
        return Success(cache[name]);
      }
      fetchLog := fetchLog + [name];
      assert fetchLog[|old(fetchLog)|..] == [name];
      if name !in files {
        return Failure(TemplateNotFound(name));
      }
      var template := files[name];
      cache := cache[name := template];
      return Success(template);
    }

    /** `clearTemplateCache`. */
    method ClearTemplateCache()
      requires Valid()
      modifies this
      ensures Valid() && cache == map[] && fetchLog == old(fetchLog)
    {
      cache := map[];
    }

    /** `preloadTemplates`: every name is loaded (the loads are independent), and the
      * result is a failure when any of them failed. */
    method PreloadTemplates(names: seq<string>) returns (r: Result<(), LoadError>)
      requires Valid()
      modifies this
      ensures Valid()
      ensures r.Success? <==> forall i :: 0 <= i < |names| ==> names[i] in files
      ensures forall i :: 0 <= i < |names| && names[i] in files ==> names[i] in cache
      ensures forall n :: n in old(cache) ==> n in cache
      ensures Loaded(files, set k | 0 <= k < |names| :: names[k], old(cache), old(fetchLog), cache, fetchLog)
    {
      r := Success(());
      ghost var loadedNames: set<string> := {};
      LoadedNothing(files, cache, fetchLog);
      for i := 0 to |names|
        invariant Valid()
        invariant r.Success? <==> forall k :: 0 <= k < i ==> names[k] in files
        invariant loadedNames == set k | 0 <= k < i :: names[k]
        invariant Loaded(files, loadedNames, old(cache), old(fetchLog), cache, fetchLog)
      {
        ghost var c1, l1 := cache, fetchLog;
        var loaded := LoadHTMLTemplate(names[i]);
        LoadedThen(files, loadedNames, {names[i]}, old(cache), old(fetchLog), c1, l1, cache, fetchLog);
        NamesStep(names, i);
        loadedNames := loadedNames + {names[i]};
        if loaded.Failure? && r.Success? {
          r := Failure(loaded.error);
        }
      }
      LoadedKeeps(files, loadedNames, old(cache), old(fetchLog), cache, fetchLog);
    }

    /** `renderTemplate` on a template given as text. */
    method RenderTemplate(template: string, data: Data) returns (r: string)
      requires Valid()
      modifies this
      ensures Valid() && forall n :: n in old(cache) ==> n in cache
      ensures r == Render(files, template, data, height)
      ensures Loaded(files, Reached(files, template, height), old(cache), old(fetchLog), cache, fetchLog)
    {
      r := RenderWithin(template, data, height);
    }

    /** `renderHTMLTemplate`: load a named template, then render it; a failed load is raised. */
    method RenderHTMLTemplate(name: string, data: Data) returns (r: Result<string, LoadError>)
      requires Valid()
      modifies this
      ensures Valid() && forall n :: n in old(cache) ==> n in cache
      ensures r == if name in files then Success(Render(files, files[name], data, height))
                   else Failure(TemplateNotFound(name))
      ensures Loaded(files, {name} + (if name in files then Reached(files, files[name], height) else {}),
                     old(cache), old(fetchLog), cache, fetchLog)
    {
      var loaded := LoadHTMLTemplate(name);
      if loaded.Failure? {
        return Failure(loaded.error);
      }
      ghost var c1, l1 := cache, fetchLog;
      var rendered := RenderWithin(loaded.value, data, height);
      LoadedThen(files, {name}, Reached(files, files[name], height), old(cache), old(fetchLog), c1, l1, cache, fetchLog);
      return Success(rendered);
    }

    method RenderWithin(template: string, data: Data, ghost fuel: nat) returns (r: string)
      requires Valid() && IncludesBelow(files, rank, template, fuel)
      modifies this
      ensures Valid() && forall n :: n in old(cache) ==> n in cache
      ensures r == Render(files, template, data, fuel)
      ensures Loaded(files, Reached(files, template, fuel), old(cache), old(fetchLog), cache, fetchLog)
      decreases fuel, 2
    {
      var included := ProcessIncludes(template, data, fuel);
      var conditioned := ProcessConditionals(included, data);
      r := Variables(conditioned, data);
    }

    /** `processIncludes`: a partial that fails to load is replaced by the empty string and
      * rendering goes on. */
    method ProcessIncludes(template: string, data: Data, ghost fuel: nat) returns (result: string)
      requires Valid() && IncludesBelow(files, rank, template, fuel)
      modifies this
      ensures Valid() && forall n :: n in old(cache) ==> n in cache
      ensures result == Includes(files, template, data, fuel)
      ensures Loaded(files, Reached(files, template, fuel), old(cache), old(fetchLog), cache, fetchLog)
      decreases fuel, 1
    {
      result := template;
      var matches := IncludeTags(template);
      LoadedNothing(files, cache, fetchLog);
      for i := 0 to |matches|
        invariant Valid() && forall n :: n in old(cache) ==> n in cache
        invariant SpliceIncludes(files, result, matches[i..], data, fuel) == Includes(files, template, data, fuel)
        invariant Loaded(files, ReachedTags(files, matches[..i], fuel), old(cache), old(fetchLog), cache, fetchLog)
      {
        var name := matches[i].name;
        IncludedBelow(files, rank, height, template, fuel, i);
        ghost var c1, l1 := cache, fetchLog;
        var rendered := RenderPartial(name, data, fuel);
        LoadedThen(files, ReachedTags(files, matches[..i], fuel), PartialReached(files, name, fuel),
                   old(cache), old(fetchLog), c1, l1, cache, fetchLog);
        ReachedTagsSnoc(files, matches, i, fuel);
        SpliceStep(files, result, matches, i, data, fuel);
        result := ReplaceFirst(result, IncludeText(name), rendered);
      }
      assert matches[..|matches|] == matches;
    }

    /** The text one include directive is replaced with: the loaded partial, rendered, or
      * the empty string when it cannot be loaded. */
    method RenderPartial(name: string, data: Data, ghost fuel: nat) returns (rendered: string)
      requires Valid() && (name in files ==> fuel > 0 && IncludesBelow(files, rank, files[name], fuel - 1))
      modifies this
      ensures Valid() && forall n :: n in old(cache) ==> n in cache
      ensures rendered == Partial(files, name, data, fuel)
      ensures Loaded(files, PartialReached(files, name, fuel), old(cache), old(fetchLog), cache, fetchLog)
      decreases fuel, 0
    {
      var loaded := LoadHTMLTemplate(name);
      rendered := "";
      if loaded.Success? {
        ghost var c1, l1 := cache, fetchLog;
        rendered := RenderWithin(loaded.value, data, fuel - 1);
        PartialLoaded(files, name, data, fuel);
        LoadedThen(files, {name}, Reached(files, files[name], fuel - 1), old(cache), old(fetchLog), c1, l1, cache, fetchLog);
      }
    }
  }
}
