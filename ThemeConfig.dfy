/**
 * The site configuration of src/utils/template.ts: the deep merge of a theme's overrides
 * onto the base configuration, `{key}` placeholder substitution, the theme preference, and
 * the module-level cache kept by `loadTemplate` and `setThemePreference`.
 *
 * A parsed JSON file is a `Json` value; a configuration is a JSON object, the map from its
 * keys to their values. JSON numbers are integers here.
 */
module ThemeConfig {
  import opened Wrappers
  import opened Text

  /** A JavaScript value as it occurs in a parsed configuration. `Undefined` is a key that is
    * present in an object literal but bound to `undefined`. */
  datatype Json =
    | Undefined
    | Null
    | Bool(b: bool)
    | Num(n: int)
    | Str(s: string)
    | Arr(items: seq<Json>)
    | Obj(fields: map<string, Json>)

  /** A JSON object: its keys and their values (the order of the keys is not modelled). */
  type Config = map<string, Json>

  // ---------------------------------------------------------------------------------------
  // deepMerge
  // ---------------------------------------------------------------------------------------

  /** What `deepMerge` leaves at key `k`, or `None` when `k` is absent from the result.
    * Two non-null, non-array objects merge recursively; otherwise a defined override value
    * replaces the base value, and an `undefined` one leaves it. */
  function MergedAt(base: Config, over: Config, k: string): Option<Json>
    decreases Obj(over), 0
  {
    if k in over && over[k].Obj? && k in base && base[k].Obj? then
      assert over[k] == Obj(over[k].fields);
      Some(Obj(Merged(base[k].fields, over[k].fields)))
    else if k in over && !over[k].Undefined? then Some(over[k])
    else if k in base then Some(base[k])
    else None
  }

  /** The base with the keys in `done` (keys of `over`) merged in: the state of `result`
    * once the loop of `deepMerge` has visited the keys in `done`. */
  function Overlay(base: Config, over: Config, done: set<string>): Config
    decreases Obj(over), 1
  {
    map k | k in base.Keys + done && k in over.Keys + base.Keys && MergedAt(base, over, k).Some? ::
      if k in done then MergedAt(base, over, k).value else base[k]
  }

  /** `deepMerge(base, over)`. */
  function Merged(base: Config, over: Config): Config
    decreases Obj(over), 2
  {
    Overlay(base, over, over.Keys)
  }

  /** The keys of a merge are those of the base and the defined keys of the override. */
  lemma MergedKeys(base: Config, over: Config, k: string)
    ensures k in Merged(base, over) <==> k in base || (k in over && !over[k].Undefined?)
  {
    if k in base || k in over {
      assert MergedAt(base, over, k).Some? <==> k in base || !over[k].Undefined?;
    }
  }

  /** A key only the base has keeps its value. */
  lemma MergedKeepsBase(base: Config, over: Config, k: string)
    requires k in base && k !in over
    ensures k in Merged(base, over) && Merged(base, over)[k] == base[k]
  {
    assert MergedAt(base, over, k) == Some(base[k]);
  }

  /** Two objects at the same key merge recursively. */
  lemma MergedObjects(base: Config, over: Config, k: string)
    requires k in base && k in over && base[k].Obj? && over[k].Obj?
    ensures k in Merged(base, over)
    ensures Merged(base, over)[k] == Obj(Merged(base[k].fields, over[k].fields))
  {
    assert MergedAt(base, over, k).Some?;
  }

  /** Otherwise a defined override value replaces the base value wholesale: an array is not
    * concatenated, and `null` or a primitive replaces an object. */
  lemma MergedReplaces(base: Config, over: Config, k: string)
    requires k in over && !over[k].Undefined?
    requires !(over[k].Obj? && k in base && base[k].Obj?)
    ensures k in Merged(base, over) && Merged(base, over)[k] == over[k]
  {
    assert MergedAt(base, over, k) == Some(over[k]);
  }

  /** An `undefined` override value leaves the base as it is at that key. */
  lemma MergedIgnoresUndefined(base: Config, over: Config, k: string)
    requires k in over && over[k].Undefined?
    ensures k in Merged(base, over) <==> k in base
    ensures k in base ==> Merged(base, over)[k] == base[k]
  {
    MergedKeys(base, over, k);
    if k in base {
      assert MergedAt(base, over, k) == Some(base[k]);
    }
  }

  /** Merging an empty override gives the base. */
  lemma MergedEmpty(base: Config)
    ensures Merged(base, map[]) == base
  {
    forall k | k in base ensures k in Merged(base, map[]) && Merged(base, map[])[k] == base[k] {
      assert MergedAt(base, map[], k) == Some(base[k]);
    }
  }

  /** An object merged with itself is itself. */
  lemma {:induction false} MergedSelf(c: Config)
    ensures Merged(c, c) == c
    decreases Obj(c)
  {
    forall k | k in c ensures k in Merged(c, c) && Merged(c, c)[k] == c[k] {
      if c[k].Obj? {
        assert c[k] == Obj(c[k].fields);
        MergedSelf(c[k].fields);
        assert MergedAt(c, c, k) == Some(c[k]);
      } else if c[k].Undefined? {
        assert MergedAt(c, c, k) == Some(c[k]);
      } else {
        assert MergedAt(c, c, k) == Some(c[k]);
      }
    }
  }

  /** Merging the same override a second time changes nothing. */
  lemma {:induction false} MergedIdempotent(base: Config, over: Config)
    ensures Merged(Merged(base, over), over) == Merged(base, over)
    decreases Obj(over)
  {
    var m := Merged(base, over);
    forall k | k in m.Keys + over.Keys
      ensures MergedAt(m, over, k) == if k in m then Some(m[k]) else None
    {
      if k in over && over[k].Obj? && k in base && base[k].Obj? {
        MergedObjects(base, over, k);
        assert over[k] == Obj(over[k].fields);
        MergedIdempotent(base[k].fields, over[k].fields);
      } else if k in over && over[k].Obj? {
        MergedReplaces(base, over, k);
        MergedSelf(over[k].fields);
      } else if k in over && !over[k].Undefined? {
        MergedReplaces(base, over, k);
      } else if k in over {
        MergedIgnoresUndefined(base, over, k);
      } else {
        MergedKeepsBase(base, over, k);
      }
    }
  }

  /** One more key visited by the loop of `deepMerge`. */
  lemma OverlayStep(base: Config, over: Config, done: set<string>, k: string)
    requires k in over && k !in done
    ensures Overlay(base, over, done + {k}) ==
      match MergedAt(base, over, k)
      case Some(v) => Overlay(base, over, done)[k := v]
      case None => Overlay(base, over, done)
  {
  }

  /** `deepMerge`: a copy of the base into which each key of the override is merged. */
  method DeepMerge(base: Config, override: Config) returns (result: Config)
    ensures result == Merged(base, override)
    decreases Obj(override)
  {
    result := base;
    var keys := override.Keys;
    while keys != {}
      invariant keys <= override.Keys
      invariant result == Overlay(base, override, override.Keys - keys)
      decreases keys
    {
      var key :| key in keys;
      OverlayStep(base, override, override.Keys - keys, key);
      assert key !in override.Keys - keys;
      var overrideValue := override[key];
      var baseValue := if key in result then result[key] else Undefined;
      if overrideValue.Obj? && baseValue.Obj? {
        assert overrideValue == Obj(overrideValue.fields);
        var merged := DeepMerge(baseValue.fields, overrideValue.fields);
        result := result[key := Obj(merged)];
      } else if !overrideValue.Undefined? {
        result := result[key := overrideValue];
      }
      assert override.Keys - (keys - {key}) == (override.Keys - keys) + {key};
      keys := keys - {key};
    }
    assert override.Keys - keys == override.Keys;
  }

  // ---------------------------------------------------------------------------------------
  // replaceTemplateVars
  // ---------------------------------------------------------------------------------------

  /** A value of the substitution record: a string or a number. */
  datatype VarValue = VStr(s: string) | VNum(n: int)

  /** `String(value)`. */
  function VarText(v: VarValue): string {
    match v
    case VStr(s) => s
    case VNum(n) => IntToString(n)
  }

  /** The placeholder `{key}`. */
  function Placeholder(key: string): (p: string)
    ensures |p| > 0
  {
    "{" + key + "}"
  }

  /** The record's entries, in the order `Object.entries` gives them, with identifier keys. */
  predicate WordKeys(vars: seq<(string, VarValue)>) {
    forall i :: 0 <= i < |vars| ==> IsWord(vars[i].0)
  }

  /** The text after each entry in turn has replaced every occurrence of its placeholder. */
  function Substituted(text: string, vars: seq<(string, VarValue)>): string
    decreases |vars|
  {
    if vars == [] then text
    else Substituted(ReplaceAll(text, Placeholder(vars[0].0), VarText(vars[0].1)), vars[1..])
  }

  /** `replaceTemplateVars`. */
  method ReplaceTemplateVars(text: string, vars: seq<(string, VarValue)>) returns (result: string)
    requires WordKeys(vars)
    ensures result == Substituted(text, vars)
  {
    result := text;
    for i := 0 to |vars|
      invariant Substituted(result, vars[i..]) == Substituted(text, vars)
    {
      var (key, value) := vars[i];
      assert vars[i..][1..] == vars[i + 1..];
      result := ReplaceAll(result, Placeholder(key), VarText(value));
    }
  }

  /** Text in which no placeholder of the record occurs is left unchanged. */
  lemma {:induction false} SubstitutedAbsent(text: string, vars: seq<(string, VarValue)>)
    requires forall i :: 0 <= i < |vars| ==> Absent(text, Placeholder(vars[i].0))
    ensures Substituted(text, vars) == text
    decreases |vars|
  {
    if vars != [] {
      ReplaceAllAbsent(text, Placeholder(vars[0].0), VarText(vars[0].1));
      SubstitutedAbsent(text, vars[1..]);
    }
  }

  /** Entries apply in order, so a later entry rewrites what an earlier one produced. */
  lemma SubstitutedChains(a: string, b: string, v: VarValue)
    ensures Substituted(Placeholder(a), [(a, VStr(Placeholder(b))), (b, v)]) == VarText(v)
  {
    var vars := [(a, VStr(Placeholder(b))), (b, v)];
    ReplaceAllWhole(Placeholder(a), Placeholder(b));
    ReplaceAllWhole(Placeholder(b), VarText(v));
    assert vars[1..] == [(b, v)];
    assert vars[1..][1..] == [];
    assert Substituted(Placeholder(a), vars) == Substituted(Placeholder(b), [(b, v)]);
    assert Substituted(Placeholder(b), [(b, v)]) == Substituted(VarText(v), []);
  }

  // ---------------------------------------------------------------------------------------
  // Theme preference
  // ---------------------------------------------------------------------------------------

  datatype Theme = Light | Dark

  /** The name a theme is stored under. */
  function ThemeName(t: Theme): string {
    match t
    case Light => "light"
    case Dark => "dark"
  }

  /** `getThemePreference`, given the stored value of `theme` and whether the system
    * reports a dark colour-scheme preference. */
  function ThemePreference(stored: Option<string>, systemDark: bool): (t: Theme)
    ensures stored == Some("light") ==> t == Light
    ensures stored == Some("dark") ==> t == Dark
    ensures stored != Some("light") && stored != Some("dark") ==> (t == Dark <==> systemDark)
  {
    if stored == Some("light") then Light
    else if stored == Some("dark") then Dark
    else if systemDark then Dark
    else Light
  }

  /** A stored theme is the one read back, whatever the system prefers. */
  lemma StoredThemeWins(t: Theme, systemDark: bool)
    ensures ThemePreference(Some(ThemeName(t)), systemDark) == t
  {
  }

  // ---------------------------------------------------------------------------------------
  // loadTemplate and its cache
  // ---------------------------------------------------------------------------------------

  const BasePath: string := "templates/template.json"

  function ThemePath(t: Theme): string {
    "templates/template-" + ThemeName(t) + ".json"
  }

  /** `getDefaultTemplate`: the configuration used when the base file cannot be loaded. */
  function DefaultTemplate(): Config {
    map[
      "site" := Obj(DefaultSite()),
      "content" := Obj(map["source" := Str("local"), "github" := Obj(DefaultGithub())]),
      "theme" := Obj(DefaultTheme()),
      "layout" := Obj(DefaultLayout()),
      "text" := Obj(DefaultText())]
  }

  function DefaultSite(): Config {
    map[
      "title" := Str("My Blog"),
      "description" := Str("A markdown-based blog built with React"),
      "tagline" := Str(""),
      "footer" := Str("")]
  }

  function DefaultGithub(): Config {
    map[
      "owner" := Str("your-username"),
      "repo" := Str("your-repo"),
      "postsPath" := Str("content/posts"),
      "draftsPath" := Str("content/drafts")]
  }

  function DefaultTheme(): Config {
    map[
      "colors" := Obj(DefaultColors()),
      "fonts" := Obj(DefaultFonts()),
      "spacing" := Obj(DefaultSpacing()),
      "borderRadius" := Str("4px"),
      "headerGradient" := Str("linear-gradient(135deg, #667eea 0%, #764ba2 100%)")]
  }

  function DefaultColors(): Config {
    map[
      "primary" := Str("#667eea"),
      "secondary" := Str("#764ba2"),
      "accent" := Str("#3498db"),
      "accentHover" := Str("#2980b9"),
      "text" := Str("#2c3e50"),
      "textLight" := Str("#7f8c8d"),
      "background" := Str("#ffffff"),
      "headerText" := Str("#ffffff"),
      "border" := Str("#ddd"),
      "draft" := Str("#e74c3c")]
  }

  function DefaultFonts(): Config {
    map[
      "primary" := Str(
        "-apple-system" + ", "
        + "BlinkMacSystemFont" + ", "
        + "'Segoe UI'" + ", "
        + "'Roboto'" + ", "
        + "'Oxygen'" + ", "
        + "'Ubuntu'" + ", "
        + "'Cantarell'" + ", "
        + "'Fira Sans'" + ", "
        + "'Droid Sans'" + ", "
        + "'Helvetica Neue'" + ", "
        + "sans-serif"),
      "headings" := Str("inherit"),
      "code" := Str("'Courier New', Courier, monospace")]
  }

  function DefaultSpacing(): Config {
    map[
      "headerPadding" := Str("60px 20px 40px"),
      "contentMaxWidth" := Str("800px"),
      "postSpacing" := Str("40px")]
  }

  function DefaultLayout(): Config {
    map[
      "home" := Obj(map[
        "showPostCount" := Bool(true),
        "showControls" := Bool(true),
        "defaultPostsToShow" := Num(5),
        "dateFormat" := Str("long")]),
      "post" := Obj(map[
        "showAuthor" := Bool(true),
        "showDate" := Bool(true),
        "showBackButton" := Bool(true),
        "backButtonText" := Str("\U{2190} Back to Home"),
        "dateFormat" := Str("long")]),
      "postList" := Obj(map[
        "showExcerpt" := Bool(true),
        "showAuthor" := Bool(true),
        "showDraftIndicator" := Bool(true),
        "draftIndicatorText" := Str("[DRAFT]"),
        "readMoreText" := Str("Read more \U{2192}")])]
  }

  function DefaultText(): Config {
    map[
      "loading" := Str("Loading posts..."),
      "loadingPost" := Str("Loading..."),
      "noPostsFound" := Str("No posts found."),
      "postNotFound" := Str("Post not found"),
      "errorLoading" := Str("Failed to load post"),
      "showingPosts" := Str("Showing {current} of {total} posts"),
      "postsToShowLabel" := Str("Posts to show: "),
      "showAllButton" := Str("Show All"),
      "showLessButton" := Str("Show Less"),
      "newerPostsButton" := Str("\U{2190} Newer Posts"),
      "olderPostsButton" := Str("Older Posts \U{2192}")]
  }

  /** The configuration of theme `t` read from the server's files: the base with the
    * theme's overrides merged in, the base alone when the theme has no file, and the
    * default when there is no base file. */
  function Fresh(server: map<string, Config>, fallback: Config, t: Theme): Config {
    if BasePath !in server then fallback
    else if ThemePath(t) !in server then server[BasePath]
    else Merged(server[BasePath], server[ThemePath(t)])
  }

  /** The module state of template.ts together with the browser and the server it reads. */
  class ConfigStore {
    /** The configuration files the server answers with a success status, by path. */
    const server: map<string, Config>
    /** Whether the system reports a dark colour-scheme preference. */
    const systemDark: bool
    /** The configuration `getDefaultTemplate` answers with. */
    const fallback: Config
    /** The `theme` entry of local storage. */
    var stored: Option<string>
    /** `cachedTemplate`. */
    var cachedTemplate: Option<Config>
    /** `currentTheme`. */
    var currentTheme: Theme
    /** The paths fetched, in the order the fetches were issued. */
    var fetchLog: seq<string>

    /** The cache always holds the configuration of the current theme. */
    predicate Valid()
      reads this
    {
      cachedTemplate.Some? ==> cachedTemplate.value == Fresh(server, fallback, currentTheme)
    }

    constructor (server: map<string, Config>, systemDark: bool, stored: Option<string>)
      ensures Valid()
      ensures this.server == server && this.systemDark == systemDark && this.stored == stored
      ensures fallback == DefaultTemplate()
      ensures cachedTemplate == None && currentTheme == Light && fetchLog == []
    {
      this.server := server;
      this.systemDark := systemDark;
      fallback := DefaultTemplate();
      this.stored := stored;
      cachedTemplate := None;
      currentTheme := Light;
      fetchLog := [];
    }

    /** `getThemePreference` on the current browser state. */
    function Preference(): Theme
      reads this
    {
      ThemePreference(stored, systemDark)
    }

    /** `setThemePreference`: store the theme and drop the cached configuration. */
    method SetThemePreference(theme: Theme)
      requires Valid()
      modifies this
      ensures Valid()
      ensures stored == Some(ThemeName(theme)) && Preference() == theme
      ensures cachedTemplate == None
      ensures currentTheme == old(currentTheme) && fetchLog == old(fetchLog)
    {
      stored := Some(ThemeName(theme));
      cachedTemplate := None;
    }

    /** `loadTemplate`: the configuration of the requested theme, or of the preferred one
      * when none is requested. Whatever the cache holds, the answer is the configuration
      * a fresh load would give. */
    method LoadTemplate(theme: Option<Theme>) returns (config: Config)
      requires Valid()
      modifies this
      ensures Valid()
      ensures var selected := if theme.Some? then theme.value else old(Preference());
        config == Fresh(server, fallback, selected)
      ensures stored == old(stored)
      // A cached configuration of the selected theme is answered without fetching.
      ensures var selected := if theme.Some? then theme.value else old(Preference());
        old(cachedTemplate).Some? && old(currentTheme) == selected ==>
          cachedTemplate == old(cachedTemplate) && currentTheme == old(currentTheme)
          && fetchLog == old(fetchLog)
      // Otherwise the base file is fetched, then, if it exists, the theme's file; the result
      // is cached only when the base file exists.
      ensures var selected := if theme.Some? then theme.value else old(Preference());
        !(old(cachedTemplate).Some? && old(currentTheme) == selected) ==>
          && fetchLog == old(fetchLog) + [BasePath] + (if BasePath in server then [ThemePath(selected)] else [])
          && (BasePath in server ==> cachedTemplate == Some(config) && currentTheme == selected)
          && (BasePath !in server ==>
                && currentTheme == (if theme.Some? then theme.value else old(currentTheme))
                && cachedTemplate == (if currentTheme != old(currentTheme) then None else old(cachedTemplate)))
    {
      var selectedTheme := if theme.Some? then theme.value else Preference();
      if theme.Some? && theme.value != currentTheme {
        cachedTemplate := None;
        currentTheme := theme.value;
      }
      if cachedTemplate.Some? && currentTheme == selectedTheme {
        return cachedTemplate.value;
      }
      fetchLog := fetchLog + [BasePath];
      if BasePath !in server {
        return fallback;
      }
      var baseTemplate := server[BasePath];
      fetchLog := fetchLog + [ThemePath(selectedTheme)];
      if ThemePath(selectedTheme) !in server {
        cachedTemplate := Some(baseTemplate);
        currentTheme := selectedTheme;
        return baseTemplate;
      }
      var themeOverrides := server[ThemePath(selectedTheme)];
      var merged := DeepMerge(baseTemplate, themeOverrides);
      cachedTemplate := Some(merged);
      currentTheme := selectedTheme;
      return merged;
    }
  }
}
