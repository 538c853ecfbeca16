/** The blog's post index: slugs derived from the markdown files' paths, front matter read
  * from each file, lists ordered newest first, lookup of one post by its slug, the most
  * recent posts, and the same listing built from a GitHub directory. The bundler's file
  * glob, the markdown front-matter parser and the network are inputs to the model. */
module Posts {
  import opened Wrappers
  import opened Text

  /** The front matter of a post. `date` is the time value `new Date(date)` yields, in
    * milliseconds. */
  datatype Frontmatter = Frontmatter(
    title: string,
    date: int,
    author: Option<string>,
    excerpt: Option<string>,
    draft: Option<bool>)

  /** What the front-matter parser makes of a file: its front matter and the markdown body. */
  datatype Parsed = Parsed(data: Frontmatter, content: string)

  datatype Metadata = Metadata(slug: string, frontmatter: Frontmatter)

  datatype Post = Post(slug: string, frontmatter: Frontmatter, content: string)

  /** The files a glob pattern matched: their paths in the order the bundler lists them,
    * and each path's raw text. */
  datatype Glob = Glob(paths: seq<string>, files: map<string, string>)

  /** The published posts and the drafts. */
  datatype Site = Site(posts: Glob, drafts: Glob)

  const PostsDir := "/content/posts/"
  const DraftsDir := "/content/drafts/"
  const MarkdownExt := ".md"

  /*************************************************************************************
   * Slugs
   *************************************************************************************/

  /** A path the glob `<dir>*.md` can match. */
  predicate IsFilePath(dir: string, path: string) {
    |path| >= |dir| + |MarkdownExt| && StartsWith(path, dir) && EndsWith(path, MarkdownExt)
  }

  /** The path a slug is looked up under. */
  function FilePath(dir: string, slug: string): (p: string)
    ensures IsFilePath(dir, p)
  {
    var p := dir + slug + MarkdownExt;
    assert p[..|dir|] == dir;
    assert p[|p| - |MarkdownExt|..] == MarkdownExt;
    p
  }

  /** The slug as the code computes it: the first occurrence of the directory, and then the
    * first occurrence of ".md", are removed. */
  function SlugAsWritten(dir: string, path: string): string {
    ReplaceFirst(ReplaceFirst(path, dir, ""), MarkdownExt, "")
  }

  /** The slug intended: the file name without the directory and without its extension. */
  function Slug(dir: string, path: string): (slug: string)
    requires IsFilePath(dir, path)
    ensures FilePath(dir, slug) == path
  {
    var slug := path[|dir|..|path| - |MarkdownExt|];
    assert path == path[..|dir|] + slug + path[|path| - |MarkdownExt|..];
    slug
  }

  /** Slugs and file paths are inverse: every slug names exactly one file. */
  lemma SlugRoundTrip(dir: string, name: string)
    ensures Slug(dir, FilePath(dir, name)) == name
  {
  }

  /** The directory, being a prefix of the path, is found at its start. */
  lemma DirFirst(dir: string, rest: string)
    ensures ReplaceFirst(dir + rest, dir, "") == rest
  {
    ReplaceFirstPrefix(dir, rest, "");
    assert "" + rest == rest;
  }

  /** The first ".md" of `a + ".md" + rest` is the one after `a` when `a` holds none. */
  lemma MarkdownExtFirst(a: string, rest: string)
    requires Absent(a, MarkdownExt)
    ensures ReplaceFirst(a + MarkdownExt + rest, MarkdownExt, "") == a + rest
  {
    var s := a + MarkdownExt + rest;
    forall j | 0 <= j < |a| ensures !OccursAt(s, MarkdownExt, j) {
      if j + 3 <= |a| {
        assert s[j..j + 3] == a[j..j + 3];
        assert !OccursAt(a, MarkdownExt, j);
      } else {
        assert s[|a|] == '.';
      }
    }
    IndexOfSkip(s, MarkdownExt, 0, |a|);
    assert s[|a|..|a| + 3] == MarkdownExt;
    assert IndexOf(s, MarkdownExt, |a|) == |a|;
    assert s[..|a|] == a && s[|a| + 3..] == rest;
  }

  /** For a file name without ".md" inside it the code's slug is the intended one. */
  lemma SlugAsWrittenAgrees(dir: string, name: string)
    requires Absent(name, MarkdownExt)
    ensures SlugAsWritten(dir, FilePath(dir, name)) == Slug(dir, FilePath(dir, name)) == name
  {
    assert FilePath(dir, name) == dir + (name + MarkdownExt);
    DirFirst(dir, name + MarkdownExt);
    MarkdownExtFirst(name, "");
    assert name + MarkdownExt + "" == name + MarkdownExt;
    assert name + "" == name;
    SlugRoundTrip(dir, name);
  }

  /** A file name with ".md" inside it, such as "x.mdy.md", loses that inner ".md" and keeps
    * its extension: the code's slug is "xy.md", and looking it up asks for
    * "<dir>xy.md.md", which is not the file's path. */
  lemma SlugAsWrittenLosesFile(dir: string, a: string, b: string)
    requires Absent(a, MarkdownExt) && b != [] && b[0] != '.'
    ensures SlugAsWritten(dir, FilePath(dir, a + MarkdownExt + b)) == a + b + MarkdownExt
    ensures FilePath(dir, SlugAsWritten(dir, FilePath(dir, a + MarkdownExt + b)))
            != FilePath(dir, a + MarkdownExt + b)
  {
    SlugAsWrittenMoves(dir, a, b);
    MovedPathDiffers(dir, a, b);
  }

  /** The code's slug of `<dir>a.mdb.md` is `ab.md`. */
  lemma SlugAsWrittenMoves(dir: string, a: string, b: string)
    requires Absent(a, MarkdownExt)
    ensures SlugAsWritten(dir, FilePath(dir, a + MarkdownExt + b)) == a + b + MarkdownExt
  {
    var path := FilePath(dir, a + MarkdownExt + b);
    assert path == dir + (a + MarkdownExt + (b + MarkdownExt));
    DirFirst(dir, a + MarkdownExt + (b + MarkdownExt));
    MarkdownExtFirst(a, b + MarkdownExt);
    assert a + (b + MarkdownExt) == a + b + MarkdownExt;
  }

  /** `<dir>ab.md.md` and `<dir>a.mdb.md` differ just after `a`. */
  lemma MovedPathDiffers(dir: string, a: string, b: string)
    requires b != [] && b[0] != '.'
    ensures FilePath(dir, a + b + MarkdownExt) != FilePath(dir, a + MarkdownExt + b)
  {
    var path := FilePath(dir, a + MarkdownExt + b);
    var looked := FilePath(dir, a + b + MarkdownExt);
    assert looked[|dir| + |a|] == b[0];
    assert path[|dir| + |a|] == '.';
  }

  /** A site whose only post is such a file, "/content/posts/x.mdy.md" say, lists it under
    * a slug whose content cannot be loaded. */
  lemma SlugAsWrittenNotFound(a: string, b: string, raw: string, parse: string -> Parsed)
    requires Absent(a, MarkdownExt) && b != [] && b[0] != '.'
    ensures var path := FilePath(PostsDir, a + MarkdownExt + b);
      var site := Site(Glob([path], map[path := raw]), Glob([], map[]));
      GetPostContent(site, parse, SlugAsWritten(PostsDir, path)).Failure?
  {
    SlugAsWrittenLosesFile(PostsDir, a, b);
  }

  /*************************************************************************************
   * Ordering, newest first
   *************************************************************************************/

  ghost predicate NewestFirst<T>(s: seq<T>, date: T -> int) {
    forall i, j :: 0 <= i < j < |s| ==> date(s[i]) >= date(s[j])
  }

  /** Places `x` before the first element that is not newer than it. */
  function Insert<T>(x: T, t: seq<T>, date: T -> int): (r: seq<T>)
    ensures |r| == |t| + 1
  {
    if t == [] || date(x) >= date(t[0]) then [x] + t
    else [t[0]] + Insert(x, t[1..], date)
  }

  /** `list.sort((a, b) => dateB - dateA)`: a stable sort by date, newest first; of two
    * entries with the same date the one listed first stays first. */
  function SortNewestFirst<T>(s: seq<T>, date: T -> int): (r: seq<T>)
    ensures |r| == |s|
  {
    if s == [] then [] else Insert(s[0], SortNewestFirst(s[1..], date), date)
  }

  lemma {:induction false} InsertPermutes<T>(x: T, t: seq<T>, date: T -> int)
    ensures multiset(Insert(x, t, date)) == multiset{x} + multiset(t)
    decreases |t|
  {
    if t != [] && date(x) < date(t[0]) {
      InsertPermutes(x, t[1..], date);
      assert t == [t[0]] + t[1..];
    }
  }

  lemma {:induction false} InsertSpec<T>(x: T, t: seq<T>, date: T -> int)
    requires NewestFirst(t, date)
    ensures NewestFirst(Insert(x, t, date), date)
    ensures multiset(Insert(x, t, date)) == multiset{x} + multiset(t)
    decreases |t|
  {
    InsertPermutes(x, t, date);
    if t != [] && date(x) < date(t[0]) {
      var tail := Insert(x, t[1..], date);
      InsertSpec(x, t[1..], date);
      InsertTailBelow(x, t, date);
      PrependNewest(t[0], tail, date);
      assert Insert(x, t, date) == [t[0]] + tail;
    }
  }

  /** When `x` goes after the head of `t`, nothing it is inserted among is newer than that head. */
  lemma InsertTailBelow<T>(x: T, t: seq<T>, date: T -> int)
    requires NewestFirst(t, date) && t != [] && date(x) < date(t[0])
    ensures var tail := Insert(x, t[1..], date);
      forall k :: 0 <= k < |tail| ==> date(t[0]) >= date(tail[k])
  {
    var tail := Insert(x, t[1..], date);
    InsertPermutes(x, t[1..], date);
    forall k | 0 <= k < |tail| ensures date(t[0]) >= date(tail[k]) {
      assert tail[k] in multiset(tail);
      if tail[k] != x {
        assert tail[k] in multiset(t[1..]);
        var j :| 0 <= j < |t[1..]| && t[1..][j] == tail[k];
        assert t[j + 1] == tail[k];
      }
    }
  }

  /** A head no older than anything after it keeps a newest-first list newest first. */
  lemma PrependNewest<T>(h: T, tail: seq<T>, date: T -> int)
    requires NewestFirst(tail, date)
    requires forall k :: 0 <= k < |tail| ==> date(h) >= date(tail[k])
    ensures NewestFirst([h] + tail, date)
  {
    var r := [h] + tail;
    forall i, j | 0 <= i < j < |r| ensures date(r[i]) >= date(r[j]) {
      assert r[j] == tail[j - 1];
      if i > 0 { assert r[i] == tail[i - 1]; }
    }
  }

  /** The entries of `s` dated `d`, in their order in `s`. */
  function WithDate<T>(s: seq<T>, date: T -> int, d: int): (r: seq<T>)
    ensures |r| <= |s|
    ensures forall i :: 0 <= i < |r| ==> r[i] in s && date(r[i]) == d
  {
    if s == [] then []
    else (if date(s[0]) == d then [s[0]] else []) + WithDate(s[1..], date, d)
  }

  /** Inserting `x` puts it before every entry of its own date and moves no other entry
    * past one of the same date. */
  lemma {:induction false} InsertWithDate<T>(x: T, t: seq<T>, date: T -> int, d: int)
    ensures WithDate(Insert(x, t, date), date, d) ==
      if date(x) == d then [x] + WithDate(t, date, d) else WithDate(t, date, d)
    decreases |t|
  {
    if t == [] || date(x) >= date(t[0]) {
      WithDateCons(x, t, date, d);
    } else {
      var tail := Insert(x, t[1..], date);
      InsertWithDate(x, t[1..], date, d);
      WithDateCons(t[0], tail, date, d);
      assert t == [t[0]] + t[1..];
      WithDateCons(t[0], t[1..], date, d);
      var rest := WithDate(t[1..], date, d);
      if date(x) == d {
        assert date(t[0]) != d;
        assert [] + ([x] + rest) == [x] + rest && [] + rest == rest;
      }
    }
  }

  lemma WithDateCons<T>(h: T, u: seq<T>, date: T -> int, d: int)
    ensures WithDate([h] + u, date, d) == (if date(h) == d then [h] else []) + WithDate(u, date, d)
  {
    assert ([h] + u)[1..] == u;
  }

  /** The sort is stable: the entries of any one date keep the order they were listed in. */
  lemma {:induction false} SortNewestFirstStable<T>(s: seq<T>, date: T -> int, d: int)
    ensures WithDate(SortNewestFirst(s, date), date, d) == WithDate(s, date, d)
    decreases |s|
  {
    if s != [] {
      SortNewestFirstStable(s[1..], date, d);
      InsertWithDate(s[0], SortNewestFirst(s[1..], date), date, d);
    }
  }

  /** The sorted list is ordered newest first and holds the same entries, each as often. */
  lemma {:induction false} SortNewestFirstSpec<T>(s: seq<T>, date: T -> int)
    ensures NewestFirst(SortNewestFirst(s, date), date)
    ensures multiset(SortNewestFirst(s, date)) == multiset(s)
    decreases |s|
  {
    if s != [] {
      SortNewestFirstSpec(s[1..], date);
      InsertSpec(s[0], SortNewestFirst(s[1..], date), date);
      assert s == [s[0]] + s[1..];
    }
  }

  function MetadataDate(m: Metadata): int { m.frontmatter.date }

  function PostDate(p: Post): int { p.frontmatter.date }

  /*************************************************************************************
   * Listing the posts and the drafts
   *************************************************************************************/

  /** `extractMetadata`: the file's front matter under the given slug; a draft's front
    * matter is marked as a draft whatever it says. */
  function ExtractMetadata(raw: string, slug: string, isDraft: bool, parse: string -> Parsed)
    : (m: Metadata)
    ensures m.slug == slug
    ensures isDraft ==> m.frontmatter == parse(raw).data.(draft := Some(true))
    ensures !isDraft ==> m.frontmatter == parse(raw).data
  {
    var data := parse(raw).data;
    Metadata(slug, if isDraft then data.(draft := Some(true)) else data)
  }

  /** A glob whose paths are distinct, are exactly the files it holds, and all match
    * `<dir>*.md`. */
  ghost predicate GlobValid(dir: string, g: Glob) {
    && (forall i, j :: 0 <= i < j < |g.paths| ==> g.paths[i] != g.paths[j])
    && (forall p :: p in g.files <==> p in g.paths)
    && (forall i :: 0 <= i < |g.paths| ==> IsFilePath(dir, g.paths[i]))
  }

  ghost predicate SiteValid(site: Site) {
    GlobValid(PostsDir, site.posts) && GlobValid(DraftsDir, site.drafts)
  }

  /** The metadata of the listed files, in the glob's order. Every path the glob lists has a
    * loader, so none is dropped as null. */
  function Extracted(dir: string, g: Glob, paths: seq<string>, isDraft: bool, parse: string -> Parsed)
    : (ms: seq<Metadata>)
    requires forall i :: 0 <= i < |paths| ==> paths[i] in g.files && IsFilePath(dir, paths[i])
    ensures |ms| == |paths|
    ensures forall i :: 0 <= i < |paths| ==>
      ms[i] == ExtractMetadata(g.files[paths[i]], Slug(dir, paths[i]), isDraft, parse)
  {
    if paths == [] then []
    else [ExtractMetadata(g.files[paths[0]], Slug(dir, paths[0]), isDraft, parse)]
         + Extracted(dir, g, paths[1..], isDraft, parse)
  }

  /** The metadata `m` is what the listing makes of the glob's `i`th file. */
  ghost predicate Extracts(dir: string, g: Glob, isDraft: bool, parse: string -> Parsed, i: int, m: Metadata)
    requires GlobValid(dir, g) && 0 <= i < |g.paths|
  {
    m == ExtractMetadata(g.files[g.paths[i]], Slug(dir, g.paths[i]), isDraft, parse)
  }

  /** `getAllPostsMetadata` (`isDraft` false, the posts directory) and `getAllDraftsMetadata`
    * (`isDraft` true, the drafts directory). */
  function ListMetadata(dir: string, g: Glob, isDraft: bool, parse: string -> Parsed): seq<Metadata>
    requires GlobValid(dir, g)
  {
    SortNewestFirst(Extracted(dir, g, g.paths, isDraft, parse), MetadataDate)
  }

  function PostsMetadata(site: Site, parse: string -> Parsed): seq<Metadata>
    requires SiteValid(site)
  {
    ListMetadata(PostsDir, site.posts, false, parse)
  }

  function DraftsMetadata(site: Site, parse: string -> Parsed): seq<Metadata>
    requires SiteValid(site)
  {
    ListMetadata(DraftsDir, site.drafts, true, parse)
  }

  /** A listing is newest first and holds exactly the metadata of the glob's files, each as
    * often as it occurs. */
  lemma ListMetadataSpec(dir: string, g: Glob, isDraft: bool, parse: string -> Parsed)
    requires GlobValid(dir, g)
    ensures NewestFirst(ListMetadata(dir, g, isDraft, parse), MetadataDate)
    ensures multiset(ListMetadata(dir, g, isDraft, parse)) == multiset(Extracted(dir, g, g.paths, isDraft, parse))
    ensures forall m :: m in ListMetadata(dir, g, isDraft, parse) <==> m in Extracted(dir, g, g.paths, isDraft, parse)
  {
    var ex := Extracted(dir, g, g.paths, isDraft, parse);
    var ms := ListMetadata(dir, g, isDraft, parse);
    SortNewestFirstSpec(ex, MetadataDate);
    forall m ensures m in ms <==> m in ex {
      assert m in ms <==> m in multiset(ms);
      assert m in ex <==> m in multiset(ex);
    }
  }

  /** Entries of the same date are listed in the glob's order. */
  lemma ListMetadataStable(dir: string, g: Glob, isDraft: bool, parse: string -> Parsed, d: int)
    requires GlobValid(dir, g)
    ensures WithDate(ListMetadata(dir, g, isDraft, parse), MetadataDate, d) ==
      WithDate(Extracted(dir, g, g.paths, isDraft, parse), MetadataDate, d)
  {
    SortNewestFirstStable(Extracted(dir, g, g.paths, isDraft, parse), MetadataDate, d);
  }

  /** Every entry of a listing is one file's front matter under that file's slug. */
  lemma ListedIsExtracted(dir: string, g: Glob, isDraft: bool, parse: string -> Parsed, m: Metadata)
    requires GlobValid(dir, g)
    requires m in ListMetadata(dir, g, isDraft, parse)
    ensures exists i :: 0 <= i < |g.paths| && Extracts(dir, g, isDraft, parse, i, m)
  {
    var ex := Extracted(dir, g, g.paths, isDraft, parse);
    ListMetadataSpec(dir, g, isDraft, parse);
    assert m in ex;
    var i :| 0 <= i < |ex| && ex[i] == m;
    assert Extracts(dir, g, isDraft, parse, i, m);
  }

  /** Every file of the glob is listed. */
  lemma ExtractedIsListed(dir: string, g: Glob, isDraft: bool, parse: string -> Parsed, i: int)
    requires GlobValid(dir, g) && 0 <= i < |g.paths|
    ensures ExtractMetadata(g.files[g.paths[i]], Slug(dir, g.paths[i]), isDraft, parse)
            in ListMetadata(dir, g, isDraft, parse)
  {
    var ex := Extracted(dir, g, g.paths, isDraft, parse);
    ListMetadataSpec(dir, g, isDraft, parse);
    assert ex[i] in ex;
  }

  /** Every entry of a listing names a file of that listing's directory. */
  lemma ListedFileExists(dir: string, g: Glob, isDraft: bool, parse: string -> Parsed, m: Metadata)
    requires GlobValid(dir, g)
    requires m in ListMetadata(dir, g, isDraft, parse)
    ensures FilePath(dir, m.slug) in g.files
  {
    ListedIsExtracted(dir, g, isDraft, parse, m);
    var i :| 0 <= i < |g.paths| && Extracts(dir, g, isDraft, parse, i, m);
  }

  /*************************************************************************************
   * Loading posts
   *************************************************************************************/

  datatype LoadError = PostNotFound(slug: string)

  /** `getPostContent`: the markdown body of the post with this slug, looked up among the
    * posts first and then among the drafts. */
  function GetPostContent(site: Site, parse: string -> Parsed, slug: string)
    : (r: Result<string, LoadError>)
    ensures FilePath(PostsDir, slug) in site.posts.files ==>
      r == Success(parse(site.posts.files[FilePath(PostsDir, slug)]).content)
    ensures FilePath(PostsDir, slug) !in site.posts.files && FilePath(DraftsDir, slug) in site.drafts.files ==>
      r == Success(parse(site.drafts.files[FilePath(DraftsDir, slug)]).content)
    ensures r.Failure? <==>
      FilePath(PostsDir, slug) !in site.posts.files && FilePath(DraftsDir, slug) !in site.drafts.files
    ensures r.Failure? ==> r.error == PostNotFound(slug)
  {
    var postPath := FilePath(PostsDir, slug);
    var draftPath := FilePath(DraftsDir, slug);
    if postPath in site.posts.files then Success(parse(site.posts.files[postPath]).content)
    else if draftPath in site.drafts.files then Success(parse(site.drafts.files[draftPath]).content)
    else Failure(PostNotFound(slug))
  }

  /** Every listed post or draft can be loaded. */
  lemma ListedContentLoads(site: Site, parse: string -> Parsed, m: Metadata)
    requires SiteValid(site)
    requires m in PostsMetadata(site, parse) + DraftsMetadata(site, parse)
    ensures GetPostContent(site, parse, m.slug).Success?
  {
    if m in PostsMetadata(site, parse) {
      ListedFileExists(PostsDir, site.posts, false, parse, m);
    } else {
      ListedFileExists(DraftsDir, site.drafts, true, parse, m);
    }
  }

  /** Each listed entry with its content, in the listing's order; the first entry whose
    * content cannot be loaded fails the whole list. */
  function WithContent(site: Site, parse: string -> Parsed, ms: seq<Metadata>)
    : (r: Result<seq<Post>, LoadError>)
    ensures r.Success? ==> |r.value| == |ms|
  {
    if ms == [] then Success([])
    else match GetPostContent(site, parse, ms[0].slug)
      case Failure(e) => Failure(e)
      case Success(content) =>
        match WithContent(site, parse, ms[1..])
        case Failure(e) => Failure(e)
        case Success(rest) => Success([Post(ms[0].slug, ms[0].frontmatter, content)] + rest)
  }

  lemma {:induction false} WithContentSpec(site: Site, parse: string -> Parsed, ms: seq<Metadata>)
    requires forall m :: m in ms ==> GetPostContent(site, parse, m.slug).Success?
    ensures var r := WithContent(site, parse, ms);
      && r.Success?
      && (forall i :: 0 <= i < |ms| ==>
            r.value[i] == Post(ms[i].slug, ms[i].frontmatter, GetPostContent(site, parse, ms[i].slug).value))
    decreases |ms|
  {
    if ms != [] {
      assert ms[0] in ms;
      assert forall m :: m in ms[1..] ==> m in ms;
      WithContentSpec(site, parse, ms[1..]);
    }
  }

  /** `getAllPosts`: the published posts' listing, each entry with its content. */
  function GetAllPosts(site: Site, parse: string -> Parsed): Result<seq<Post>, LoadError>
    requires SiteValid(site)
  {
    WithContent(site, parse, PostsMetadata(site, parse))
  }

  /** Loading all posts never fails, and yields the listing, entry for entry, with each
    * post's body. */
  lemma GetAllPostsSpec(site: Site, parse: string -> Parsed)
    requires SiteValid(site)
    ensures var ms := PostsMetadata(site, parse);
      var r := GetAllPosts(site, parse);
      && r.Success?
      && |r.value| == |ms|
      && (forall i :: 0 <= i < |ms| ==>
            && r.value[i].slug == ms[i].slug
            && r.value[i].frontmatter == ms[i].frontmatter
            && FilePath(PostsDir, ms[i].slug) in site.posts.files
            && r.value[i].content == parse(site.posts.files[FilePath(PostsDir, ms[i].slug)]).content)
  {
    var ms := PostsMetadata(site, parse);
    forall m | m in ms ensures GetPostContent(site, parse, m.slug).Success? {
      ListedContentLoads(site, parse, m);
    }
    WithContentSpec(site, parse, ms);
    forall i | 0 <= i < |ms| ensures FilePath(PostsDir, ms[i].slug) in site.posts.files {
      ListedFileExists(PostsDir, site.posts, false, parse, ms[i]);
    }
  }

  /** `allMetadata.find(m => m.slug === slug)`. */
  function FindBySlug(ms: seq<Metadata>, slug: string): (r: Option<Metadata>)
    ensures r.Some? ==> r.value in ms && r.value.slug == slug
    ensures r.None? <==> forall m :: m in ms ==> m.slug != slug
  {
    if ms == [] then None
    else if ms[0].slug == slug then Some(ms[0])
    else FindBySlug(ms[1..], slug)
  }

  /** The entry found is the first with that slug. */
  lemma {:induction false} FindBySlugFirst(ms: seq<Metadata>, slug: string)
    ensures var r := FindBySlug(ms, slug);
      r.Some? ==> exists i :: (0 <= i < |ms| && ms[i] == r.value &&
        forall j :: 0 <= j < i ==> ms[j].slug != slug)
    decreases |ms|
  {
    if ms != [] && ms[0].slug != slug {
      FindBySlugFirst(ms[1..], slug);
      var r := FindBySlug(ms, slug);
      if r.Some? {
        var i :| 0 <= i < |ms[1..]| && ms[1..][i] == r.value &&
          forall j :: 0 <= j < i ==> ms[1..][j].slug != slug;
        assert ms[i + 1] == r.value;
        assert forall j :: 1 <= j < i + 1 ==> ms[j].slug == ms[1..][j - 1].slug;
      }
    } else if ms != [] {
      assert ms[0] == FindBySlug(ms, slug).value;
    }
  }

  /** `getPostBySlug`: the first entry with this slug among the posts and then the drafts,
    * with its content; null when there is none or its content cannot be loaded. */
  function GetPostBySlug(site: Site, parse: string -> Parsed, slug: string): Option<Post>
    requires SiteValid(site)
  {
    match FindBySlug(PostsMetadata(site, parse) + DraftsMetadata(site, parse), slug)
    case None => None
    case Some(m) =>
      match GetPostContent(site, parse, slug)
      case Failure(_) => None
      case Success(content) => Some(Post(m.slug, m.frontmatter, content))
  }

  /** A slug finds a post exactly when a post or a draft is listed under it, and then the
    * post is that listing's first entry with the slug, with its body. */
  lemma GetPostBySlugSpec(site: Site, parse: string -> Parsed, slug: string)
    requires SiteValid(site)
    ensures var all := PostsMetadata(site, parse) + DraftsMetadata(site, parse);
      var r := GetPostBySlug(site, parse, slug);
      && (r.Some? <==> exists m :: m in all && m.slug == slug)
      && (r.Some? ==>
            && r.value.slug == slug
            && Metadata(slug, r.value.frontmatter) == FindBySlug(all, slug).value
            && r.value.content == GetPostContent(site, parse, slug).value)
  {
    var all := PostsMetadata(site, parse) + DraftsMetadata(site, parse);
    var f := FindBySlug(all, slug);
    if f.Some? {
      ListedContentLoads(site, parse, f.value);
    }
  }

  /** A draft found by its slug is marked as a draft unless a published post has the same
    * slug. */
  lemma GetPostBySlugDraft(site: Site, parse: string -> Parsed, slug: string)
    requires SiteValid(site)
    requires FilePath(PostsDir, slug) !in site.posts.files
    requires FilePath(DraftsDir, slug) in site.drafts.files
    ensures var r := GetPostBySlug(site, parse, slug);
      && r.Some?
      && r.value.frontmatter == parse(site.drafts.files[FilePath(DraftsDir, slug)]).data.(draft := Some(true))
  {
    var dm := DraftsMetadata(site, parse);
    var pm := PostsMetadata(site, parse);
    var g := site.drafts;
    var path := FilePath(DraftsDir, slug);
    var i :| 0 <= i < |g.paths| && g.paths[i] == path;
    SlugRoundTrip(DraftsDir, slug);
    ExtractedIsListed(DraftsDir, g, true, parse, i);
    var m := ExtractMetadata(g.files[path], slug, true, parse);
    assert m in dm;
    assert m in pm + dm;
    GetPostBySlugSpec(site, parse, slug);
    var f := FindBySlug(pm + dm, slug).value;
    if f in pm {
      ListedFileExists(PostsDir, site.posts, false, parse, f);
      assert false;
    }
    assert f in dm;
    ListedIsExtracted(DraftsDir, g, true, parse, f);
    var k :| 0 <= k < |g.paths| && Extracts(DraftsDir, g, true, parse, k, f);
    assert g.paths[k] == FilePath(DraftsDir, f.slug);
  }

  /** The limit `getRecentPosts` takes when given none. */
  const DefaultRecentLimit := 5

  /** Where `slice(0, end)` stops in a list of `n` items: a negative end counts from the end. */
  function SliceEnd(n: nat, end: int): (e: nat)
    ensures e <= n
    ensures end >= 0 ==> e == if end < n then end else n
    ensures end < 0 ==> e == if n + end > 0 then n + end else 0
  {
    if end < 0 then (if n + end > 0 then n + end else 0)
    else if end < n then end else n
  }

  /** `getRecentPosts(limit)`: the first `limit` posts of `getAllPosts`. */
  function GetRecentPosts(site: Site, parse: string -> Parsed, limit: Option<int>)
    : Result<seq<Post>, LoadError>
    requires SiteValid(site)
  {
    match GetAllPosts(site, parse)
    case Failure(e) => Failure(e)
    case Success(posts) => Success(posts[..SliceEnd(|posts|, limit.GetOr(DefaultRecentLimit))])
  }

  /** The recent posts are the newest ones: a prefix of all posts, as long as the limit
    * allows, and no older than any post left out. */
  lemma GetRecentPostsSpec(site: Site, parse: string -> Parsed, limit: Option<int>)
    requires SiteValid(site)
    ensures var all := GetAllPosts(site, parse);
      var r := GetRecentPosts(site, parse, limit);
      var n := limit.GetOr(DefaultRecentLimit);
      && all.Success? && r.Success?
      && r.value <= all.value
      && (n >= 0 ==> |r.value| == if n < |all.value| then n else |all.value|)
      && NewestFirst(all.value, PostDate)
  {
    AllPostsNewestFirst(site, parse);
  }

  /** All posts come newest first, as their listing does. */
  lemma AllPostsNewestFirst(site: Site, parse: string -> Parsed)
    requires SiteValid(site)
    ensures GetAllPosts(site, parse).Success?
    ensures NewestFirst(GetAllPosts(site, parse).value, PostDate)
  {
    GetAllPostsSpec(site, parse);
    var ms := PostsMetadata(site, parse);
    ListMetadataSpec(PostsDir, site.posts, false, parse);
    var all := GetAllPosts(site, parse).value;
    forall i, j | 0 <= i < j < |all| ensures PostDate(all[i]) >= PostDate(all[j]) {
      assert PostDate(all[i]) == MetadataDate(ms[i]);
      assert PostDate(all[j]) == MetadataDate(ms[j]);
    }
  }

  /** With no limit given, at most five posts. */
  lemma GetRecentPostsDefault(site: Site, parse: string -> Parsed)
    requires SiteValid(site)
    ensures var r := GetRecentPosts(site, parse, None);
      r.Success? && |r.value| <= 5
  {
    GetAllPostsSpec(site, parse);
  }

  /*************************************************************************************
   * Posts from a GitHub directory
   *************************************************************************************/

  datatype GitHubFile = GitHubFile(name: string, downloadUrl: string)

  /** The post `p` is the markdown file `f`, downloaded and parsed. */
  ghost predicate FetchedFrom(texts: map<string, string>, parse: string -> Parsed, p: Post, f: GitHubFile) {
    && EndsWith(f.name, MarkdownExt)
    && f.downloadUrl in texts
    && FilePath("", p.slug) == f.name
    && p.frontmatter == parse(texts[f.downloadUrl]).data
    && p.content == parse(texts[f.downloadUrl]).content
  }

  /** A markdown file's name is a path of the empty directory. */
  lemma MarkdownName(name: string)
    requires EndsWith(name, MarkdownExt)
    ensures IsFilePath("", name)
  {
    assert name[..0] == "";
  }

  /** `files.filter(file => file.name.endsWith('.md'))`. */
  function MarkdownFiles(files: seq<GitHubFile>): (md: seq<GitHubFile>)
    ensures forall f :: f in md ==> f in files && EndsWith(f.name, MarkdownExt)
    ensures forall f :: f in files && EndsWith(f.name, MarkdownExt) ==> f in md
  {
    if files == [] then []
    else (if EndsWith(files[0].name, MarkdownExt) then [files[0]] else [])
         + MarkdownFiles(files[1..])
  }

  /** The downloaded text of each file, or None when one of the downloads fails. */
  function Downloaded(md: seq<GitHubFile>, texts: map<string, string>, parse: string -> Parsed)
    : (r: Option<seq<Post>>)
    requires forall f :: f in md ==> EndsWith(f.name, MarkdownExt)
    ensures r.Some? <==> forall f :: f in md ==> f.downloadUrl in texts
    ensures r.Some? ==> |r.value| == |md| && forall i :: 0 <= i < |md| ==> FetchedFrom(texts, parse, r.value[i], md[i])
  {
    if md == [] then Some([])
    else if md[0].downloadUrl !in texts then None
    else match Downloaded(md[1..], texts, parse)
      case None => None
      case Some(rest) =>
        var p := parse(texts[md[0].downloadUrl]);
        assert md[0] in md;
        MarkdownName(md[0].name);
        Some([Post(Slug("", md[0].name), p.data, p.content)] + rest)
  }

  /** `fetchFromGitHub`: `listing` is the directory listing, None when the request fails or
    * answers with an error status; `texts` holds the text each download URL answers with,
    * and lacks the URLs whose request fails. Any failure yields no posts. */
  function FetchFromGitHub(listing: Option<seq<GitHubFile>>, texts: map<string, string>,
                           parse: string -> Parsed): seq<Post>
  {
    match listing
    case None => []
    case Some(files) =>
      match Downloaded(MarkdownFiles(files), texts, parse)
      case None => []
      case Some(posts) => SortNewestFirst(posts, PostDate)
  }

  /** Reordering the downloads keeps one post per markdown file. */
  lemma FetchedPermuted(r: seq<Post>, posts: seq<Post>, md: seq<GitHubFile>, files: seq<GitHubFile>,
                        texts: map<string, string>, parse: string -> Parsed)
    requires multiset(r) == multiset(posts) && |posts| == |md|
    requires forall i :: 0 <= i < |md| ==> FetchedFrom(texts, parse, posts[i], md[i])
    requires forall f :: f in md ==> f in files
    ensures forall p :: p in r ==> exists f :: f in files && FetchedFrom(texts, parse, p, f)
    ensures forall f :: f in md ==> exists p :: p in r && FetchedFrom(texts, parse, p, f)
  {
    forall p | p in r ensures exists f :: f in files && FetchedFrom(texts, parse, p, f) {
      assert p in multiset(posts);
      var i :| 0 <= i < |posts| && posts[i] == p;
      assert md[i] in md;
    }
    forall f | f in md ensures exists p :: p in r && FetchedFrom(texts, parse, p, f) {
      var i :| 0 <= i < |md| && md[i] == f;
      assert posts[i] in multiset(r);
    }
  }

  /** The fetched posts are newest first; when every request succeeds there is one per
    * markdown file, named after it and with its front matter and body; otherwise none. */
  lemma FetchFromGitHubSpec(listing: Option<seq<GitHubFile>>, texts: map<string, string>,
                            parse: string -> Parsed)
    ensures var r := FetchFromGitHub(listing, texts, parse);
      && NewestFirst(r, PostDate)
      && (listing.None? ==> r == [])
      && (listing.Some? ==>
            var md := MarkdownFiles(listing.value);
            && ((exists f :: f in md && f.downloadUrl !in texts) ==> r == [])
            && ((forall f :: f in md ==> f.downloadUrl in texts) ==>
                  && |r| == |md|
                  && multiset(r) == multiset(Downloaded(md, texts, parse).value)
                  && (forall p :: p in r ==> exists f :: f in listing.value && FetchedFrom(texts, parse, p, f))
                  && (forall f :: f in md ==> exists p :: p in r && FetchedFrom(texts, parse, p, f))))
  {
    if listing.Some? {
      var md := MarkdownFiles(listing.value);
      var d := Downloaded(md, texts, parse);
      if d.Some? {
        var r := FetchFromGitHub(listing, texts, parse);
        assert r == SortNewestFirst(d.value, PostDate);
        SortNewestFirstSpec(d.value, PostDate);
        FetchedPermuted(r, d.value, md, listing.value, texts, parse);
      }
    }
  }
}
