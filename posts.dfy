/** The blog's view of its content directory: which files are posts, how a
    post's displayed fields are derived from its front matter, the newest-first
    ordering, the tag page's filter and the search handler's matching. */
module Posts {
  import opened Wrappers
  import opened Strings
  import opened Slugs
  import opened FrontMatter
  import opened Html

  // ---------------------------------------------------------------------
  // Site configuration
  // ---------------------------------------------------------------------

  datatype SiteConfig = SiteConfig(
    title: string,
    description: string,
    url: string,
    author: string,
    language: string,
    twitterHandle: string,
    logo: string)

  /** `SiteConfig::default()`; `siteUrl` is the `SITE_URL` environment
      variable, when it is set. */
  function DefaultSite(siteUrl: Option<string>): (r: SiteConfig)
    ensures siteUrl.None? ==> r.url == "http://localhost:8080"
    ensures siteUrl.Some? ==> r.url == siteUrl.value
    ensures r.author == "aryansrao"
  {
    SiteConfig("Aryan S Rao", "My own blog page made with rust and axum",
               siteUrl.GetOr("http://localhost:8080"), "aryansrao", "en", "@aryansrao", "/logo.png")
  }

  // ---------------------------------------------------------------------
  // Reading time
  // ---------------------------------------------------------------------

  /** `u32` values: a `usize` count cast with `as u32` keeps its low 32 bits. */
  const U32: nat := 0x1_0000_0000

  function Max(a: int, b: int): int {
    if a >= b then a else b
  }

  function Min(a: int, b: int): int {
    if a <= b then a else b
  }

  /** `calculate_reading_time`: the pair (minutes, words), at 200 words a
      minute and never less than one minute. */
  function ReadingTime(content: string): (r: (nat, nat))
    ensures r.1 < U32 && r.1 == |Words(content)| % U32
    ensures r.0 >= 1
    ensures r.1 < 400 ==> r.0 == 1
    ensures r.1 >= 200 ==> r.0 * 200 <= r.1 < r.0 * 200 + 200
  {
    var words := |Words(content)| % U32;
    (Max(1, words / 200), words)
  }

  /** The word count is the number of places where a word starts. */
  lemma ReadingTimeCountsWords(content: string)
    ensures ReadingTime(content).1 == WordStarts(content, true) % U32
  {
    WordCount(content);
  }

  // ---------------------------------------------------------------------
  // Which directory entries are posts
  // ---------------------------------------------------------------------

  /** The index of the last '.' in `s`. */
  function LastDot(s: string): (r: Option<nat>)
    ensures r.Some? ==> r.value < |s| && s[r.value] == '.' && '.' !in s[r.value + 1..]
    ensures r.None? ==> '.' !in s
    decreases |s|
  {
    if s == [] then None
    else if s[|s| - 1] == '.' then Some(|s| - 1)
    else
      var r := LastDot(s[..|s| - 1]);
      assert s == s[..|s| - 1] + [s[|s| - 1]];
      if r.Some? then
        assert s[r.value + 1..] == s[..|s| - 1][r.value + 1..] + [s[|s| - 1]];
        r
      else r
  }

  /** `Path::extension` of a directory entry named `name`: the text after
      the last '.', unless there is none, the only '.' opens the name, or
      the name is "..". */
  function Extension(name: string): (r: Option<string>)
    ensures r.Some? ==> |r.value| + 2 <= |name| && '.' !in r.value
    ensures r.Some? ==> name[|name| - |r.value| - 1] == '.' && name[|name| - |r.value|..] == r.value
    ensures r.None? <==> name == ".." || forall k :: 0 < k < |name| ==> name[k] != '.'
  {
    if name == ".." then None
    else match LastDot(name)
      case None => None
      case Some(k) => if k == 0 then None else Some(name[k + 1..])
  }

  /** `get_posts` reads an entry only when its extension is exactly "md". */
  predicate IsMarkdownFile(name: string) {
    Extension(name) == Some("md")
  }

  /** The file `<stem>.md` is listed exactly when the stem is not empty: a
      file named ".md" has no extension at all. */
  lemma MarkdownFileName(stem: string)
    ensures IsMarkdownFile(stem + ".md") <==> stem != []
  {
    var name := stem + ".md";
    var m, dot := stem + ".m", stem + ".";
    assert name[..|name| - 1] == m && name[|name| - 1] == 'd';
    assert m[..|m| - 1] == dot && m[|m| - 1] == 'm';
    assert LastDot(dot) == Some(|stem|);
    assert LastDot(m) == Some(|stem|);
    assert LastDot(name) == Some(|stem|);
    if stem != [] {
      assert name[|stem| + 1..] == "md";
    }
  }

  // ---------------------------------------------------------------------
  // Posts and their defaults
  // ---------------------------------------------------------------------

  datatype Post = Post(
    title: string,
    content: string,
    summary: string,
    date: string,
    dateIso: string,
    tags: seq<string>,
    filename: string,
    slug: string,
    author: string,
    image: string,
    imageAlt: string,
    keywords: string,
    canonical: string,
    readingTime: nat,
    wordCount: nat,
    githubRepo: Option<string>,
    website: Option<string>)

  /** One directory entry as `get_posts` sees it. `html` is the Markdown
      rendering of the post's body, `date` and `dateIso` its date formatted
      for display and in ISO 8601; all three come from libraries outside
      this model. */
  datatype DirEntry = DirEntry(name: string, text: string, html: string, date: string, dateIso: string)

  /** The summary shown for a post: the given one, or the first 160
      characters of the body followed by "...". */
  function SummaryOf(given: string, body: string): (r: string)
    ensures given != [] ==> r == given
    ensures given == [] ==> |r| == Min(160, |body|) + 3 && r[..|r| - 3] == body[..|r| - 3]
    ensures given == [] ==> r[|r| - 3..] == "..."
  {
    if given == [] then body[..Min(160, |body|)] + "..." else given
  }

  /** The default keywords: the first five tags joined by ", ". */
  function KeywordsOf(tags: seq<string>): string {
    Join(tags[..Min(5, |tags|)], ", ")
  }

  /** Only the first five tags make up the default keywords. */
  lemma KeywordsFromFirstFive(tags: seq<string>, more: seq<string>)
    requires |tags| >= 5
    ensures KeywordsOf(tags + more) == KeywordsOf(tags)
  {
    assert (tags + more)[..5] == tags[..5];
  }

  /** A short tag list is used whole. */
  lemma KeywordsOfShortList(tags: seq<string>)
    requires |tags| <= 5
    ensures KeywordsOf(tags) == Join(tags, ", ")
  {
    assert tags[..|tags|] == tags;
  }

  /** The default canonical address of a post: `<url>/blog/<slug>`. */
  function CanonicalOf(site: SiteConfig, slug: string): string {
    site.url + "/blog/" + slug
  }

  /** The post `get_posts` builds from an entry and its front matter. */
  function MakePost(site: SiteConfig, e: DirEntry, m: Metadata): (r: Post)
    ensures r.title == m.title && r.tags == m.tags && r.filename == e.name
    ensures r.slug == SlugOf(m.title) && WellShaped(r.slug)
    ensures r.readingTime >= 1 && r.wordCount == |Words(Body(e.text))| % U32
    ensures r.author == (if m.author.Some? then m.author.value else site.author)
    ensures r.imageAlt == (if m.imageAlt.Some? then m.imageAlt.value else m.title)
  {
    var body := Body(e.text);
    var (minutes, words) := ReadingTime(body);
    var slug := PostSlug(m.title);
    SlugShape(m.title);
    Post(m.title, e.html, SummaryOf(m.summary, body), e.date, e.dateIso, m.tags, e.name, slug,
         m.author.GetOr(site.author),
         m.image.GetOr(site.url + "/og-default.png"),
         m.imageAlt.GetOr(m.title),
         m.keywords.GetOr(KeywordsOf(m.tags)),
         m.canonical.GetOr(CanonicalOf(site, slug)),
         minutes, words, m.githubRepo, m.website)
  }

  /** A post without its own canonical address gets one under `/blog/`
      ending in a slug that is safe in a URL. */
  lemma CanonicalDefault(site: SiteConfig, e: DirEntry, m: Metadata)
    requires m.canonical.None?
    ensures var r := MakePost(site, e, m);
      r.canonical == site.url + "/blog/" + r.slug && WellShaped(r.slug)
  {
  }

  /** The post an entry yields, if any: Markdown files with front matter. */
  function PostOf(site: SiteConfig, e: DirEntry): (r: Option<Post>)
    ensures r.Some? <==> IsMarkdownFile(e.name) && HasTwoFences(e.text)
    ensures r.Some? ==> r.value == MakePost(site, e, Parse(e.text).value)
  {
    if !IsMarkdownFile(e.name) then None
    else match Parse(e.text)
      case None => None
      case Some(m) => Some(MakePost(site, e, m))
  }

  /** The values present in `os`, in order. */
  function Somes<T>(os: seq<Option<T>>): (r: seq<T>)
    ensures |r| <= |os|
    decreases |os|
  {
    if os == [] then []
    else Somes(os[..|os| - 1]) + (match os[|os| - 1] case None => [] case Some(x) => [x])
  }

  lemma {:induction false} SomesMembers<T>(os: seq<Option<T>>, x: T)
    ensures x in Somes(os) <==> exists i :: 0 <= i < |os| && os[i] == Some(x)
    decreases |os|
  {
    if os != [] {
      var n := |os| - 1;
      var init, last := os[..n], os[n];
      var tail: seq<T> := match last case None => [] case Some(y) => [y];
      assert Somes(os) == Somes(init) + tail;
      SomesMembers(init, x);
      assert forall i :: 0 <= i < n ==> init[i] == os[i];
      assert x in tail <==> last == Some(x);
    }
  }

  /** What each entry yields. */
  function Yields(site: SiteConfig, entries: seq<DirEntry>): (r: seq<Option<Post>>)
    ensures |r| == |entries|
    ensures forall i :: 0 <= i < |entries| ==> r[i] == PostOf(site, entries[i])
  {
    seq(|entries|, i requires 0 <= i < |entries| => PostOf(site, entries[i]))
  }

  /** The posts collected from `entries`, in directory order. */
  function Collected(site: SiteConfig, entries: seq<DirEntry>): seq<Post> {
    Somes(Yields(site, entries))
  }

  /** A post is collected exactly when some entry yields it. */
  lemma CollectedPosts(site: SiteConfig, entries: seq<DirEntry>, p: Post)
    ensures p in Collected(site, entries) <==>
      exists i :: 0 <= i < |entries| && PostOf(site, entries[i]) == Some(p)
  {
    SomesMembers(Yields(site, entries), p);
  }

  // ---------------------------------------------------------------------
  // Newest first
  // ---------------------------------------------------------------------

  /** `Ord for str`: lexicographic order. Rust compares the UTF-8 bytes,
      which orders code points the same way. */
  predicate LexLe(a: string, b: string)
    decreases |a|
  {
    a == [] || (b != [] && (a[0] < b[0] || (a[0] == b[0] && LexLe(a[1..], b[1..]))))
  }

  lemma {:induction false} LexLeTotal(a: string, b: string)
    ensures LexLe(a, b) || LexLe(b, a)
    decreases |a|
  {
    if a != [] && b != [] && a[0] == b[0] {
      LexLeTotal(a[1..], b[1..]);
    }
  }

  lemma {:induction false} LexLeTrans(a: string, b: string, c: string)
    requires LexLe(a, b) && LexLe(b, c)
    ensures LexLe(a, c)
    decreases |a|
  {
    if a != [] && a[0] == b[0] && b[0] == c[0] {
      LexLeTrans(a[1..], b[1..], c[1..]);
    }
  }

  /** Every post's ISO date is at least every later post's. */
  predicate NewestFirst(ps: seq<Post>) {
    forall i, j :: 0 <= i < j < |ps| ==> LexLe(ps[j].dateIso, ps[i].dateIso)
  }

  /** Insert `p` before the first post no newer than it. */
  function Insert(p: Post, ps: seq<Post>): (r: seq<Post>)
    ensures multiset(r) == multiset(ps) + multiset{p}
  {
    if ps == [] || LexLe(ps[0].dateIso, p.dateIso) then [p] + ps
    else
      assert ps == [ps[0]] + ps[1..];
      [ps[0]] + Insert(p, ps[1..])
  }

  /** `posts.sort_by(|a, b| b.date_iso.cmp(&a.date_iso))`, as an insertion
      sort; like `sort_by`, it keeps posts with equal dates in their
      original order. */
  function SortByDate(ps: seq<Post>): (r: seq<Post>)
    ensures multiset(r) == multiset(ps)
  {
    if ps == [] then []
    else
      assert ps == [ps[0]] + ps[1..];
      Insert(ps[0], SortByDate(ps[1..]))
  }

  lemma {:induction false} InsertNewestFirst(p: Post, ps: seq<Post>)
    requires NewestFirst(ps)
    ensures NewestFirst(Insert(p, ps))
    decreases |ps|
  {
    if ps == [] {
    } else if LexLe(ps[0].dateIso, p.dateIso) {
      forall j | 0 < j < |ps| + 1
        ensures LexLe(([p] + ps)[j].dateIso, p.dateIso)
      {
        if j > 1 {
          LexLeTrans(ps[j - 1].dateIso, ps[0].dateIso, p.dateIso);
        }
      }
    } else {
      LexLeTotal(ps[0].dateIso, p.dateIso);
      var tail := Insert(p, ps[1..]);
      InsertNewestFirst(p, ps[1..]);
      forall x | x in tail
        ensures LexLe(x.dateIso, ps[0].dateIso)
      {
        assert x in multiset(tail);
        if x != p {
          assert x in multiset(ps[1..]);
          var j :| 0 <= j < |ps[1..]| && ps[1..][j] == x;
          assert ps[j + 1] == x;
        }
      }
      assert forall j :: 0 < j < |tail| + 1 ==> ([ps[0]] + tail)[j] == tail[j - 1];
    }
  }

  /** The sorted posts are newest first. */
  lemma {:induction false} SortNewestFirst(ps: seq<Post>)
    ensures NewestFirst(SortByDate(ps))
    decreases |ps|
  {
    if ps != [] {
      SortNewestFirst(ps[1..]);
      InsertNewestFirst(ps[0], SortByDate(ps[1..]));
    }
  }

  /** `get_posts` over a listing of the content directory: collect the
      posts in directory order, then sort them newest first. */
  method GetPosts(site: SiteConfig, entries: seq<DirEntry>) returns (posts: seq<Post>)
    ensures posts == SortByDate(Collected(site, entries))
    ensures NewestFirst(posts)
    ensures multiset(posts) == multiset(Collected(site, entries))
  {
    posts := [];
    for i := 0 to |entries|
      invariant posts == Collected(site, entries[..i])
    {
      assert Yields(site, entries[..i + 1])[..i] == Yields(site, entries[..i]);
      var found := PostOf(site, entries[i]);
      if found.Some? {
        posts := posts + [found.value];
      }
    }
    assert entries[..|entries|] == entries;
    posts := SortByDate(posts);
    SortNewestFirst(Collected(site, entries));
  }

  // ---------------------------------------------------------------------
  // The tag page
  // ---------------------------------------------------------------------

  /** Some tag of `p` equals `tag` once both are lowercased. */
  predicate Tagged(p: Post, tag: string) {
    exists t :: t in p.tags && Lower(t) == Lower(tag)
  }

  /** The posts the tag page lists for `tag`, in the order given. */
  function TagPosts(ps: seq<Post>, tag: string): (r: seq<Post>)
    ensures |r| <= |ps|
    ensures forall p :: p in r <==> p in ps && Tagged(p, tag)
  {
    if ps == [] then []
    else
      assert forall p :: p in ps <==> p == ps[0] || p in ps[1..];
      (if Tagged(ps[0], tag) then [ps[0]] else []) + TagPosts(ps[1..], tag)
  }

  /** Filtering keeps the newest-first order. */
  lemma {:induction false} TagPostsNewestFirst(ps: seq<Post>, tag: string)
    requires NewestFirst(ps)
    ensures NewestFirst(TagPosts(ps, tag))
    decreases |ps|
  {
    if ps != [] {
      var rest := TagPosts(ps[1..], tag);
      assert NewestFirst(ps[1..]);
      TagPostsNewestFirst(ps[1..], tag);
      if Tagged(ps[0], tag) {
        forall x | x in rest
          ensures LexLe(x.dateIso, ps[0].dateIso)
        {
          var j :| 0 <= j < |ps[1..]| && ps[1..][j] == x;
          assert ps[j + 1] == x;
        }
        assert forall j :: 0 < j < |rest| + 1 ==> ([ps[0]] + rest)[j] == rest[j - 1];
      }
    }
  }

  lemma LowerTwice(s: string)
    ensures Lower(Lower(s)) == Lower(s)
  {
  }

  /** The tag in the address may be written in any case. */
  lemma {:induction false} TagPostsIgnoreCase(ps: seq<Post>, tag: string)
    ensures TagPosts(ps, Lower(tag)) == TagPosts(ps, tag)
    decreases |ps|
  {
    LowerTwice(tag);
    if ps != [] {
      TagPostsIgnoreCase(ps[1..], tag);
    }
  }

  // ---------------------------------------------------------------------
  // Search
  // ---------------------------------------------------------------------

  datatype SearchResult = SearchResult(
    title: string,
    slug: string,
    summary: string,
    date: string,
    dateIso: string,
    tags: seq<string>,
    readingTime: nat)

  function ResultOf(p: Post): SearchResult {
    SearchResult(p.title, p.slug, p.summary, p.date, p.dateIso, p.tags, p.readingTime)
  }

  /** The `q` parameter, trimmed and lowercased. */
  function SearchQuery(q: Option<string>): (r: string)
    ensures Bare(r, Whitespace)
    ensures forall i :: 0 <= i < |r| ==> !IsUpper(r[i])
    ensures |r| <= |q.GetOr([])|
  {
    var t := Trim(q.GetOr([]), Whitespace);
    Lower(t)
  }

  /** What a query is matched against: title, summary, tags and the text of
      the rendered body, separated by spaces and lowercased. */
  function Haystack(p: Post): string {
    Lower(p.title + " " + p.summary + " " + Join(p.tags, " ") + " " + StripTags(p.content))
  }

  /** The results for the posts whose haystack contains `query`, in order. */
  function Matching(query: string, ps: seq<Post>): (r: seq<SearchResult>)
    ensures |r| <= |ps|
    ensures forall p :: p in ps && Contains(Haystack(p), query) ==> ResultOf(p) in r
    ensures forall x :: x in r ==> exists p :: p in ps && Contains(Haystack(p), query) && ResultOf(p) == x
    decreases |ps|
  {
    if ps == [] then []
    else
      var last := ps[|ps| - 1];
      assert ps == ps[..|ps| - 1] + [last];
      assert forall p :: p in ps <==> p in ps[..|ps| - 1] || p == last;
      Matching(query, ps[..|ps| - 1]) + (if Contains(Haystack(last), query) then [ResultOf(last)] else [])
  }

  /** The search handler: no results for a blank query. */
  function SearchResults(q: Option<string>, ps: seq<Post>): (r: seq<SearchResult>)
    ensures SearchQuery(q) == [] ==> r == []
    ensures SearchQuery(q) != [] ==> r == Matching(SearchQuery(q), ps)
  {
    var query := SearchQuery(q);
    if query == [] then [] else Matching(query, ps)
  }

  /** `search_posts` as the source writes it: a pass over the posts pushing
      each match. */
  method SearchPosts(q: Option<string>, posts: seq<Post>) returns (results: seq<SearchResult>)
    ensures results == SearchResults(q, posts)
  {
    var query := SearchQuery(q);
    if query == [] {
      return [];
    }
    results := [];
    for i := 0 to |posts|
      invariant results == Matching(query, posts[..i])
    {
      assert posts[..i + 1][..i] == posts[..i];
      var p := posts[i];
      if Contains(Haystack(p), query) {
        results := results + [ResultOf(p)];
      }
    }
    assert posts[..|posts|] == posts;
  }

  lemma ContainsPrefix(a: string, b: string, needle: string)
    requires Contains(a, needle)
    ensures Contains(a + b, needle)
  {
    var k := Find(a, needle, 0).value;
    assert (a + b)[k..k + |needle|] == a[k..k + |needle|];
    assert MatchAt(a + b, needle, k);
    ContainsMatch(a + b, needle);
  }

  /** The rest of a post's haystack once the title is taken off. */
  function AfterTitle(p: Post): string {
    " " + p.summary + " " + Join(p.tags, " ") + " " + StripTags(p.content)
  }

  lemma HaystackTitle(p: Post)
    ensures Haystack(p) == Lower(p.title) + Lower(AfterTitle(p))
  {
    assert p.title + " " + p.summary + " " + Join(p.tags, " ") + " " + StripTags(p.content) == p.title + AfterTitle(p);
    LowerAppend(p.title, AfterTitle(p));
  }

  /** A post whose title contains the query, in any case, is found. */
  lemma TitleFound(q: Option<string>, ps: seq<Post>, p: Post)
    requires p in ps && SearchQuery(q) != [] && Contains(Lower(p.title), SearchQuery(q))
    ensures ResultOf(p) in SearchResults(q, ps)
  {
    var query := SearchQuery(q);
    assert Contains(Haystack(p), query) by {
      HaystackTitle(p);
      ContainsPrefix(Lower(p.title), Lower(AfterTitle(p)), query);
    }
  }

  /** Leading whitespace before the query does not matter. */
  lemma QueryTrimmed(pad: string, q: string)
    requires Within(pad, Whitespace) && Bare(q, Whitespace)
    ensures SearchQuery(Some(pad + q)) == SearchQuery(Some(q))
  {
    TrimAfterSpace(pad, q, Whitespace);
    TrimBare(q, Whitespace);
  }

  /** Whitespace on either side of the query is dropped and the rest is
      lowercased. */
  lemma QueryPadded(pre: string, q: string, post: string)
    requires Within(pre, Whitespace) && Within(post, Whitespace) && Bare(q, Whitespace)
    ensures SearchQuery(Some(pre + q + post)) == Lower(q)
  {
    TrimPadded(pre, q, post, Whitespace);
  }
}
