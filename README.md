# A model of a React blog viewer's core logic

This project models, in Dafny, the logic inside a small React blog viewer that does not
depend on the browser:

- **The HTML template engine** (`TemplateEngine.dfy`, for `src/utils/templateEngine.ts`).
  Rendering runs three passes in a fixed order:
  1. partial includes `{{>name}}`, each partial rendered recursively with the same data;
  2. conditional blocks `{{#if NAME}}...{{/if}}`, matched by a depth-counting scan and kept
     or dropped by an explicit truthiness rule;
  3. one left-to-right substitution of variables `{{name}}`.

  Templates are fetched by name and kept in a name-keyed cache. The conditional pass keeps
  the source's form: a `while` loop over `result`, with an inner scan over `pos` and
  `depth`, proved equal to the function `Conditionals`. The include loop and the cache are
  methods of the class `TemplateStore`.
- **The site configuration** (`ThemeConfig.dfy`, for `src/utils/template.ts`):
  - `deepMerge`, a recursive overlay of one JSON object onto another;
  - `replaceTemplateVars`, which substitutes `{key}` placeholders one entry after another;
  - the theme preference;
  - the two-variable cache that `loadTemplate` and `setThemePreference` keep, in the class
    `ConfigStore`;
  - the fallback configuration `getDefaultTemplate`, as the constant `DefaultTemplate`.
- **The code-block component** (`CodeBlock.dfy`, for `src/components/CodeBlock.tsx`):
  - the language and the line specification read from a class name such as
    `language-js{1,3-5}`;
  - `parseHighlightLines`, a method with the source's nested loops;
  - the highlighted-line rule;
  - the removal of one final line feed.
- **The post catalogue** (`Posts.dfy`, for `src/utils/posts.ts`):
  - slugs derived from file paths;
  - metadata extraction, with the draft flag forced on drafts;
  - the newest-first ordering;
  - lookup by slug, posts before drafts;
  - the most recent posts;
  - the listing built from a GitHub directory.

`Text.dfy` holds the string operations the four share:
- greedy runs of a character class;
- `indexOf`, and `replace` with a string pattern (which replaces the first occurrence);
- a global literal replace;
- `split`;
- decimal digits.

`Wrappers.dfy` holds `Option` and `Result`.

The I/O is made into inputs:
- **The template server** is the map `TemplateStore.files`. A name is present when
  `fetch('/templates/<name>.html')` answers with a success status.
- **The configuration server** is the map `ConfigStore.server` from paths to parsed JSON.
- **`localStorage` and `matchMedia`** are the fields `stored` and `systemDark`
  (`systemDark` is false when `matchMedia` is absent).
- **The bundler's file globs** are `Glob` values: the listed paths, and each path's text.
- **The front-matter parser** is a function `parse` from text to front matter and body.
- **GitHub** is the directory listing (`None` for a failed request or an error status) and
  a map from download URLs to the text each answers with. The source reads that text
  whatever the status, and a URL missing from the map stands for a request that throws.

Fetches that the code issues are recorded in `fetchLog` fields. A cache hit is therefore
visible as a fetch that did not happen. The template store's methods state their effect with `Loaded`: the
names fetched are exactly the names asked for (`Reached`, for a render: the include directives
and, recursively, those of each partial that loads) that were not cached with a non-empty
text, and the cache gains exactly the names asked for that the server has.

Partial includes recurse without cycle detection. `Render` takes a `fuel` bound. A
`TemplateStore` is built over a ranked (acyclic) set of partials, so its methods never run
out of fuel.

## Model

| member | source | states |
|---|---|---|
| TemplateEngine.IfTagAt | src/utils/templateEngine.ts:93 | `\{\{#if\s+(\w+)\}\}` recognised at an index; a match lies inside the text |
| TemplateEngine.OpenTagAt | src/utils/templateEngine.ts:93 | `{{#if name}}` is read as a tag naming `name` that spans exactly its own text, with no `{{/if}}` starting inside it |
| TemplateEngine.FirstIfIsFirst | src/utils/templateEngine.ts:93 | the search finds an opening tag, and none starts between `from` and it |
| TemplateEngine.FirstIfNone | src/utils/templateEngine.ts:93-98 | when the search finds nothing, no opening tag starts anywhere from `from` on |
| TemplateEngine.ShouldShowExactly | src/utils/templateEngine.ts:148-151 | a block is kept if and only if the key is present and its value is none of `false`, `0`, `""`, `"false"`, `null`; so `0` drops a block and `"0"` keeps it |
| TemplateEngine.MatchingEnd | src/utils/templateEngine.ts:105-137 | the depth-counting scan ends at -1 or at a `{{/if}}` that lies inside the text, at or after the start |
| TemplateEngine.ScanStep | src/utils/templateEngine.ts:109-136 | one step of the inner loop. No `{{/if}}` left: the scan fails. An opening tag before the next `{{/if}}`: depth + 1 after that tag. Otherwise at depth 1 the block ends at that `{{/if}}`, and a deeper scan goes on after it at depth - 1 |
| TemplateEngine.FindMatchingEnd | src/utils/templateEngine.ts:105-137 | the inner `while` loop over `pos` and `depth` returns what the depth-counting scan gives |
| TemplateEngine.BlockIsFirstOccurrence | src/utils/templateEngine.ts:146 | the text of the first block occurs first at the block's own position |
| TemplateEngine.ReplaceBlock | src/utils/templateEngine.ts:145-153 | `result.replace(fullMatch, ...)` splices the content, or nothing, exactly where the first block stands |
| TemplateEngine.NextBlock | src/utils/templateEngine.ts:139-153 | each rewrite of the loop makes the text strictly shorter, which bounds the number of iterations |
| TemplateEngine.NextBlockAt | src/utils/templateEngine.ts:144-153 | with the first opening tag and its matching `{{/if}}`, the next text is the one with that block rewritten |
| TemplateEngine.Conditionals | src/utils/templateEngine.ts:86-157 | the conditional pass never lengthens the text |
| TemplateEngine.StopsWithoutTag | src/utils/templateEngine.ts:95-98 | text without an opening tag is returned unchanged |
| TemplateEngine.StopsUnclosed | src/utils/templateEngine.ts:114-119 | when the first remaining opening tag has no matching `{{/if}}`, the pass stops and the text is returned as it is |
| TemplateEngine.ConditionalsStep | src/utils/templateEngine.ts:91-154 | one rewrite of the loop does not change the pass's final result |
| TemplateEngine.ProcessConditionals | src/utils/templateEngine.ts:86-157 | the `while` loop of `processConditionals` computes `Conditionals` |
| TemplateEngine.ConditionalsSettles | src/utils/templateEngine.ts:91-98 | no rewrite applies to the pass's result |
| TemplateEngine.ConditionalsIdempotent | src/utils/templateEngine.ts:86-157 | running the pass again on its result changes nothing |
| TemplateEngine.FirstBlock | src/utils/templateEngine.ts:145-153 | an opening tag with no other before it, whose matching `{{/if}}` is at `e`: the text before, plus the content if the condition holds, plus the text after, is processed further |
| TemplateEngine.SingleBlock | src/utils/templateEngine.ts:105-153 | a first block that holds no other block is rewritten at its own `{{/if}}` |
| TemplateEngine.DroppedBlock | src/utils/templateEngine.ts:148-153 | such a block whose name is not set is removed together with its content |
| TemplateEngine.NestedBlock | src/utils/templateEngine.ts:105-137 | in `{{#if a}}X{{#if b}}Y{{/if}}Z{{/if}}` the depth count matches the outer tag with the second `{{/if}}` |
| TemplateEngine.SingleBlockExample | src/utils/templateEngine.ts:145-153 | `X{{#if b}}Y{{/if}}Z` gives `XYZ` when `b` is set and `XZ` otherwise, for any text X, Y, Z without braces |
| TemplateEngine.NestedKept | src/utils/templateEngine.ts:145-153 | a kept outer block loses only its own two tags; what it enclosed is processed in turn |
| TemplateEngine.NestedExample | src/utils/templateEngine.ts:105-153 | `{{#if a}}X{{#if b}}Y{{/if}}Z{{/if}}` with `a` set and `b` not gives `XZ` |
| TemplateEngine.NestedLiteralExample | src/utils/templateEngine.ts:105-153 | the same with the literal text, `a = true` and `b = 0`: the result is `"XZ"` |
| TemplateEngine.VariablesOfTag | src/utils/templateEngine.ts:162-175 | `{{name}}` is replaced by `String(data[name])`, or by `""` for a missing or null value; the replacement is not scanned again and the scan goes on after the directive |
| TemplateEngine.VariablesPlain | src/utils/templateEngine.ts:162-175 | text with no `{{` is returned unchanged by the variable pass |
| TemplateEngine.IncludeTagsOf | src/utils/templateEngine.ts:16-18 | `matchAll` finds an include directive where it stands, then goes on after it |
| TemplateEngine.IncludesNone | src/utils/templateEngine.ts:15-36 | a template in which `{{>` never occurs is left unchanged by the includes pass, whatever the partials |
| TemplateEngine.RenderPlain | src/utils/templateEngine.ts:67-80 | text with no `{{` renders as itself, whatever the data and the partials |
| TemplateEngine.DroppedConditionals | src/utils/templateEngine.ts:145-153 | `X{{#if b}}{{v}}{{/if}}Z` with `b` not set loses the whole block in the conditional pass |
| TemplateEngine.DroppedVariable | src/utils/templateEngine.ts:67-80 | so, because conditionals run before variables, a `{{v}}` inside a dropped block never appears in the rendered output: the result is `XZ` |
| TemplateEngine.VarTemplateRenders | src/utils/templateEngine.ts:67-80 | a template that is one variable directive renders as the value's text, whatever that text holds: what the variable pass inserts is not scanned again |
| TemplateEngine.IncludeAlone | src/utils/templateEngine.ts:15-36 | a template that is one include directive `{{>b}}` leaves the include pass as the partial `b` rendered with the same data, or as the empty string when `b` does not load |
| TemplateEngine.IncludeRescanned | src/utils/templateEngine.ts:67-80 | `{{>b}}` renders as the rendered partial passed once more through the including template's conditional and variable passes |
| TemplateEngine.IncludeRescansValue | src/utils/templateEngine.ts:67-80 | a partial `{{v}}` whose value is the directive `{{w}}` renders as `{{w}}`, and `{{>b}}` then renders as the value of `w` |
| TemplateEngine.RescanExample | src/utils/templateEngine.ts:67-80 | with `b` = `{{v}}`, `v` = `"{{w}}"` and `w` = `"x"`, `{{>b}}` renders as `"x"` |
| TemplateEngine.IncludeOfVariable | src/utils/templateEngine.ts:21-27 | `{{>b}}` with the partial `b` = `{{v}}` renders as the value of `v`, when that value holds no `{{` |
| TemplateEngine.MissingPartialRender | src/utils/templateEngine.ts:28-32 | a template that starts with an include of a partial that cannot be loaded renders as the rest of the template alone: the include becomes `""` and rendering goes on |
| TemplateEngine.MissingPartialSkipped | src/utils/templateEngine.ts:15-36 | `{{>m}}{{>b}}` with no `m` and a partial `b` of `{{v}}` renders as the value of `v` |
| TemplateEngine.PartialExample | src/utils/templateEngine.ts:15-36 | partials `A = "{{>B}}"`, `B = "{{x}}"` with `x = "42"`: `A` renders as `"42"` |
| TemplateEngine.TemplateStore.constructor | src/utils/templateEngine.ts:9 | the cache starts empty and nothing has been fetched |
| TemplateEngine.TemplateStore.LoadHTMLTemplate | src/utils/templateEngine.ts:41-58 | the result is the server's text, or a failure for a missing template. A cached text is returned without fetching only when it is non-empty, so an empty template is fetched every time. Otherwise the name is fetched; a success stores the text under that name, and a failure stores nothing |
| TemplateEngine.TemplateStore.ClearTemplateCache | src/utils/templateEngine.ts:192-194 | the cache is left empty |
| TemplateEngine.TemplateStore.PreloadTemplates | src/utils/templateEngine.ts:199-201 | every name is loaded. The result fails exactly when some name has no template. The names fetched are exactly the given names not already cached with a non-empty text, and the cache gains exactly the given names the server has |
| TemplateEngine.TemplateStore.ProcessIncludes | src/utils/templateEngine.ts:15-36 | the loop over the original template's include directives computes `Includes`. The names fetched are exactly the partials the render reaches (`Reached`) that were not cached with a non-empty text; the cache gains exactly the reached partials the server has |
| TemplateEngine.TemplateStore.RenderPartial | src/utils/templateEngine.ts:22-32 | one directive is replaced by the partial, loaded and rendered with the same data, or by the empty string when the load fails. Fetched are exactly the name and the partials it reaches that were not cached with a non-empty text; the cache gains exactly those of them the server has |
| TemplateEngine.TemplateStore.RenderWithin | src/utils/templateEngine.ts:67-80 | includes, then conditionals, then variables, within a given nesting depth. Fetched are exactly the reached partials not cached with a non-empty text; the cache gains exactly the reached partials the server has |
| TemplateEngine.TemplateStore.RenderTemplate | src/utils/templateEngine.ts:67-80 | `renderTemplate` computes `Render` with a depth above every partial's rank. A cached partial is not fetched again: fetched are exactly the reached partials not cached with a non-empty text, and the cache gains exactly the reached partials the server has |
| TemplateEngine.TemplateStore.RenderHTMLTemplate | src/utils/templateEngine.ts:181-187 | the named template rendered, or the load failure raised. Fetched are exactly the name and, when it loads, the partials it reaches, less those cached with a non-empty text; the cache gains exactly those of them the server has |
| ThemeConfig.MergedKeys | src/utils/template.ts:113-129 | the keys of a merge are the base's keys and the override's keys whose value is not `undefined` |
| ThemeConfig.MergedKeepsBase | src/utils/template.ts:114-126 | a key present only in the base keeps its value |
| ThemeConfig.MergedObjects | src/utils/template.ts:120-122 | two objects at a key merge recursively |
| ThemeConfig.MergedReplaces | src/utils/template.ts:123-125 | otherwise a defined override value replaces the base value whole: arrays are not concatenated, and `null` replaces a subtree |
| ThemeConfig.MergedIgnoresUndefined | src/utils/template.ts:123-125 | an `undefined` override leaves the base value, or no key at all |
| ThemeConfig.MergedEmpty | src/utils/template.ts:113-129 | merging with an empty override gives the base |
| ThemeConfig.MergedSelf | src/utils/template.ts:113-129 | merging a configuration with itself gives it back |
| ThemeConfig.MergedIdempotent | src/utils/template.ts:113-129 | `deepMerge(deepMerge(b, o), o) == deepMerge(b, o)` |
| ThemeConfig.OverlayStep | src/utils/template.ts:116-126 | one iteration of the key loop sets that key to its merged value and leaves the other keys as they were |
| ThemeConfig.DeepMerge | src/utils/template.ts:113-129 | the loop over the override's keys, assigning into a copy of the base, computes `Merged` |
| ThemeConfig.ReplaceTemplateVars | src/utils/template.ts:230-236 | the loop over the entries computes `Substituted`: each entry in order replaces every occurrence of its placeholder |
| ThemeConfig.SubstitutedAbsent | src/utils/template.ts:230-236 | text with no placeholder of the record is unchanged |
| ThemeConfig.SubstitutedChains | src/utils/template.ts:232-234 | later entries also rewrite text that earlier ones produced: `{a}` with `a -> "{b}"` and then `b -> v` gives `v` |
| ThemeConfig.ThemePreference | src/utils/template.ts:86-98 | a stored `light` or `dark` wins; otherwise `dark` exactly when the system prefers dark; otherwise `light` |
| ThemeConfig.StoredThemeWins | src/utils/template.ts:86-90 | a theme stored by name is read back, whatever the system prefers |
| ThemeConfig.ConfigStore.constructor | src/utils/template.ts:80-81 | no cached configuration, the current theme `light`, and nothing fetched |
| ThemeConfig.ConfigStore.SetThemePreference | src/utils/template.ts:103-108 | the theme is stored and becomes the preference. The cached configuration is dropped, and the current theme is kept |
| ThemeConfig.ConfigStore.LoadTemplate | src/utils/template.ts:135-184 | the answer is always what a fresh load would give: theme overrides merged onto the base, the base alone when the theme file is missing, the fallback when the base is missing. With a cache for the selected theme, nothing is fetched or changed. Otherwise the base file is fetched, and then the theme file if the base exists. The result is cached and the theme recorded only when the base exists. A requested theme that differs from the current one drops the cache first |
| CodeBlock.FirstLanguage | src/components/CodeBlock.tsx:13 | the first index at which `language-(\w+)` matches, or -1 |
| CodeBlock.FirstLanguageIsFirst | src/components/CodeBlock.tsx:13 | no earlier index matches, and -1 means none does |
| CodeBlock.LineSpecAt | src/components/CodeBlock.tsx:13 | a non-empty line specification is exactly the text between `{` and `}` at that index |
| CodeBlock.ParseClassNameNone | src/components/CodeBlock.tsx:13-15 | with no `language-\w` anywhere (or no class name) the language is `text` and there is no line specification |
| CodeBlock.ParseClassNameSome | src/components/CodeBlock.tsx:13-15 | otherwise the language is the maximal word after the first `language-` followed by a word character. The line specification comes only from braces right after that word, and is made of digits, commas and hyphens |
| CodeBlock.ParseClassNameLineSpec | src/components/CodeBlock.tsx:13-15 | any class name gives a line specification of `[\d,-]` characters |
| CodeBlock.Range | src/components/CodeBlock.tsx:28-30 | `start, start+1, ..., end` in order, and nothing when `start > end` |
| CodeBlock.PushRange | src/components/CodeBlock.tsx:28-30 | the `for` loop appends exactly that range |
| CodeBlock.PushPart | src/components/CodeBlock.tsx:24-37 | the callback appends what the part contributes |
| CodeBlock.PushParts | src/components/CodeBlock.tsx:24-38 | the `forEach` over the parts computes `PartsLines`: each part's numbers, in the order of the parts |
| CodeBlock.ParseHighlightLines | src/components/CodeBlock.tsx:18-41 | the function with its `forEach` and `for` loops computes `HighlightLines`; the empty string gives `[]` |
| CodeBlock.NoNaN | src/components/CodeBlock.tsx:25-36 | on a `[\d,-]` specification no `NaN` guard rejects a part: each bound of a range part, and each single part, reads as a number |
| CodeBlock.EmptyReadsZero | src/components/CodeBlock.tsx:26 | an empty segment reads as 0 |
| CodeBlock.RangePart | src/components/CodeBlock.tsx:25-31 | a part `a-b...` contributes the range from `a` to `b`; only the first two numbers count |
| CodeBlock.NumberPart | src/components/CodeBlock.tsx:32-36 | a part without a hyphen contributes its one number |
| CodeBlock.PartsLinesAppend | src/components/CodeBlock.tsx:24-38 | parts contribute left to right, concatenated |
| CodeBlock.HighlightLinesConcat | src/components/CodeBlock.tsx:21-40 | a specification `p,q` gives the lines of `p` followed by those of `q`, with duplicates kept and nothing sorted |
| CodeBlock.HighlightExample | src/components/CodeBlock.tsx:17-19 | `"1,3-5,8"` gives `[1, 3, 4, 5, 8]` and `""` gives `[]` |
| CodeBlock.LineClass | src/components/CodeBlock.tsx:64-67 | a line gets the class `highlighted-line` exactly when its number is listed |
| CodeBlock.StripFinalNewline | src/components/CodeBlock.tsx:101 | exactly one final line feed is removed; text without one is unchanged |
| CodeBlock.Render | src/components/CodeBlock.tsx:11-48 | inline code is shown as it is. A block gets the parsed language, the parsed lines, and the code without its final line feed |
| Posts.FilePath | src/utils/posts.ts:106-107 | the path a slug is looked up under is one the glob `<dir>*.md` can match |
| Posts.Slug | src/utils/posts.ts:51 | the slug of a path is the name whose lookup path is that path (the corrected slug; see Findings) |
| Posts.SlugRoundTrip | src/utils/posts.ts:106-107 | slugs and lookup paths are inverse |
| Posts.SlugAsWrittenAgrees | src/utils/posts.ts:51 | for `/content/posts/NAME.md` where NAME holds no `.md`, the code's slug is NAME |
| Posts.SlugAsWrittenLosesFile | src/utils/posts.ts:51 | for a name with `.md` inside, the code's slug maps back to another path |
| Posts.SlugAsWrittenNotFound | src/utils/posts.ts:105-123 | a post listed under that slug cannot be loaded |
| Posts.InsertSpec | src/utils/posts.ts:59-63 | inserting into a newest-first list keeps it newest-first and adds exactly that element |
| Posts.SortNewestFirstSpec | src/utils/posts.ts:59-63 | the sort gives a permutation of its input, ordered by non-increasing date |
| Posts.InsertWithDate | src/utils/posts.ts:59-63 | inserting an element puts it in front of every element with the same date and leaves their order alone |
| Posts.SortNewestFirstStable | src/utils/posts.ts:59-63 | the sort is stable: the elements with any one date come out in their input order |
| Posts.ExtractMetadata | src/utils/posts.ts:34-40 | the slug as given. A draft's front matter, with `draft` forced to `true` and every other field kept. A post's front matter passed through unchanged |
| Posts.Extracted | src/utils/posts.ts:47-53 | one metadata entry per listed path, in order, from that path's text and its corrected slug (`Posts.Slug`) |
| Posts.ListMetadataSpec | src/utils/posts.ts:43-87 | a metadata list is a permutation of the extracted entries, ordered newest first |
| Posts.ListMetadataStable | src/utils/posts.ts:43-87 | entries with the same date keep the order of the glob's paths |
| Posts.ListedIsExtracted | src/utils/posts.ts:47-56 | every listed entry comes from some listed file |
| Posts.ExtractedIsListed | src/utils/posts.ts:47-56 | every listed file's entry is listed |
| Posts.ListedFileExists | src/utils/posts.ts:44-52 | a listed slug's lookup path is a file of the glob |
| Posts.GetPostContent | src/utils/posts.ts:105-124 | posts are tried before drafts. The body comes from the first that has the file. The result fails, with `Post not found`, exactly when neither has it |
| Posts.ListedContentLoads | src/utils/posts.ts:90-124 | the content of every listed post can be loaded |
| Posts.WithContentSpec | src/utils/posts.ts:92-100 | each metadata entry keeps its slug and front matter and gains its content |
| Posts.GetAllPostsSpec | src/utils/posts.ts:90-102 | under the corrected slug, all posts load: one per metadata entry, in the same order, with its content |
| Posts.AllPostsNewestFirst | src/utils/posts.ts:90-102 | all posts load and keep the listing's order, newest first |
| Posts.FindBySlug | src/utils/posts.ts:131 | a found entry is in the list and has the slug; nothing is found exactly when no entry has it |
| Posts.FindBySlugFirst | src/utils/posts.ts:131 | the entry found is the first with that slug |
| Posts.GetPostBySlugSpec | src/utils/posts.ts:127-148 | a post is returned if and only if some entry of posts-then-drafts has the slug. It is the first such entry, with its content |
| Posts.GetPostBySlugDraft | src/utils/posts.ts:127-148 | a slug found only among the drafts gives front matter marked as a draft |
| Posts.SliceEnd | src/utils/posts.ts:153 | the end index of `slice(0, limit)`: the limit capped at the length, and a negative limit counted from the end |
| Posts.GetRecentPostsSpec | src/utils/posts.ts:151-154 | the recent posts are a prefix of all posts, of length `min(limit, n)` for a non-negative limit, and newest first |
| Posts.GetRecentPostsDefault | src/utils/posts.ts:151 | without a limit at most 5 posts are returned |
| Posts.MarkdownFiles | src/utils/posts.ts:176 | exactly the listed files whose name ends in `.md` are kept |
| Posts.Downloaded | src/utils/posts.ts:178-191 | one post per markdown file, in order, each from its downloaded text and with the corrected slug, when every download exists; otherwise a failure |
| Posts.FetchFromGitHubSpec | src/utils/posts.ts:162-203 | when every request succeeds, the posts are the downloads of the listed `.md` files, permuted and newest first: each post comes from a listed file and each `.md` file gives exactly one post. Any failed request gives `[]` |

## Left out

- Network and bundler I/O (`fetch`, `import.meta.glob`, `import.meta.env.BASE_URL`, the fetch cache options, `localStorage`, `matchMedia`): these are inputs, as described above. The model has no I/O.
- The console logging and a response body that fails to read or parse are left out.
- `Promise.all` in `preloadTemplates`, in the metadata loaders and in the GitHub downloads is modelled as sequential loads. `preloadTemplates` still fails if any single load fails.
- The front-matter parser (gray-matter) is the `parse` function; its own parse errors are not modelled. Dates are integer time values: `new Date(...)` parsing and invalid (`NaN`) dates are left out, and so is `formatDate`.
- Replacement patterns such as `$&` and `$$` in `String.prototype.replace` (templateEngine.ts:27 and 153, template.ts:233) are not modelled: replacement is a literal splice.
- ThemeConfig.ReplaceTemplateVars: keys are required to be `\w+` identifiers, because template.ts:233 builds a regular expression from each key and other keys would need the full regular-expression language.
- `Render`: partials nest to at most `fuel` levels. A `TemplateStore` requires its partials to be acyclic (ranked). Self- or mutually-recursive partials, which never terminate in the source, are not modelled.
- Data values are strings, integers, booleans and `null`, and a missing key stands for `undefined`. Keys of data objects and of the template cache are taken not to be names inherited from `Object.prototype` (`constructor`, `toString`, ...). In the source such a name reads as present even when the object lacks it, so `{{#if constructor}}` shows its block, `{{constructor}}` is replaced by the text of a function, and `loadHTMLTemplate('constructor')` returns from the cache check without fetching. ShouldShow, ValueText, Variables and LoadHTMLTemplate do not model this. Arrays, objects and floating-point numbers (with `String()` of them) are left out. JSON numbers in configurations are integers and the order of object keys is not modelled. A configuration file is always a JSON object.
- TemplateEngine.TemplateStore.ProcessIncludes: the loads of one template's partials are sequential, as in the source. The render methods state the set of names fetched, not the order of the fetches or how often a name that is missing or empty is fetched again.
- The number of opening tags need not drop in an iteration of `processConditionals`. In `{{#i{{#if a}}{{/if}}f x}}`, removing the block forms a new opening tag `{{#if x}}`. The model proves instead that the text gets strictly shorter (`TemplateEngine.NextBlock`), which is what bounds the loop.
- The block examples write opening tags with exactly one space (`OpenTag`); the recogniser itself accepts any run of white space.
- CodeBlock.ParseHighlightLines: the line specification is required to consist of `[\d,-]` characters, which is all the class-name regular expression can deliver. Other `Number()` inputs (spaces, exponents, hexadecimal) are not modelled. Line numbers are exact integers, while `Number()` gives a double: at or above 2^53 the source rounds the numbers, and the range loop `for (let i = start; i <= end; i++)` there can stop advancing and never end. The model states what the loops compute on exact integers.
- The JSX of `CodeBlock.tsx` (the highlighter's styles and props) is not modelled. `Render` returns what the component hands on.
- `applyTheme` (CSS custom properties), `ThemeSwitcher.tsx`, `Post.tsx`, `PostList.tsx`, `Home.tsx`, `App.tsx` and the other UI files are not part of this model.
- `src/utils/posts.js` (a superseded copy of the post logic), the build scripts and configuration, and the end-to-end browser tests are not part of this model.
- The filter of `null` entries after loading metadata (posts.ts:56, 79) removes nothing here: every listed path has a loader in a `Glob`.
- Posts.SortNewestFirstSpec: the sort is modelled as an insertion sort. Like `Array.prototype.sort`, which is stable, it keeps the input order of posts with equal dates (`Posts.SortNewestFirstStable`). The comparator is a date difference, so posts with equal dates are exactly the ties.
- ThemeConfig.ConfigStore.LoadTemplate: the server answers each request with a file or a missing status only. A fetch that rejects, such as a network failure (template.ts:154 or 163), is not modelled. In the source it reaches the `catch` at template.ts:179-183, which returns the default template and caches nothing.
- The servers (`TemplateStore.files`, `ConfigStore.server`) do not change during a run. A cache that has gone stale after a file changed on the server, until `clearTemplateCache` (templateEngine.ts:192-194) empties it, is therefore not modelled.

## Findings

| source | as written | input that shows it | evidently intended | confidence | as-written member | corrected member |
|---|---|---|---|---|---|---|
| src/utils/posts.ts:51 | the slug removes the first `.md` anywhere in the file name, not the extension | the post `/content/posts/x.mdy.md` gets the slug `xy.md`. `getPostContent('xy.md')` then asks for `/content/posts/xy.md.md` and throws `Post not found` | the slug is the file name without its final `.md`, so that looking it up finds the file | not executed | Posts.SlugAsWrittenLosesFile, Posts.SlugAsWrittenNotFound | Posts.Slug, Posts.SlugRoundTrip |
| src/utils/posts.ts:74 | the same for drafts under `/content/drafts/` | `/content/drafts/x.mdy.md` gets the slug `xy.md` | as above | not executed | Posts.SlugAsWrittenLosesFile | Posts.Slug, Posts.SlugRoundTrip |
| src/utils/posts.ts:183 | the GitHub slug removes the first `.md` of the file name | the file `x.mdy.md` gets the slug `xy.md` | the file name without its extension, `x.mdy` | not executed | Posts.SlugAsWrittenLosesFile | Posts.Slug, Posts.SlugRoundTrip |

The corrected slug is the one the rest of the model uses: the metadata listings and the
GitHub listing derive slugs with `Posts.Slug`. `Posts.SlugAsWrittenAgrees` shows that the
two agree on every file name without an inner `.md`.
