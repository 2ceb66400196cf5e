/** The GitHub side of the blog: the repositories kept after fetching,
    the branch gate of the push webhook, and the post written for a
    repository from its README. */
module GitHub {
  import opened Wrappers
  import opened Strings
  import opened FrontMatter

  /** The fields of a repository as the GitHub API reports them. */
  datatype Repo = Repo(
    name: string,
    fullName: string,
    description: Option<string>,
    htmlUrl: string,
    pushedAt: Option<string>,
    updatedAt: Option<string>,
    language: Option<string>,
    stargazers: nat,
    fork: bool,
    archived: bool,
    topics: Option<seq<string>>,
    homepage: Option<string>)

  predicate Active(r: Repo) {
    !r.fork && !r.archived
  }

  /** The repositories kept after a fetch: forks and archived ones are dropped. */
  function ActiveRepos(repos: seq<Repo>): (r: seq<Repo>)
    ensures |r| <= |repos|
    ensures forall x :: x in r <==> x in repos && Active(x)
  {
    if repos == [] then []
    else (if Active(repos[0]) then [repos[0]] else []) + ActiveRepos(repos[1..])
  }

  /** The filter keeps the fetched order: filtering two batches one after
      the other is filtering them together. */
  lemma {:induction false} ActiveReposAppend(a: seq<Repo>, b: seq<Repo>)
    ensures ActiveRepos(a + b) == ActiveRepos(a) + ActiveRepos(b)
  {
    if a == [] {
      assert a + b == b;
    } else {
      assert (a + b)[0] == a[0];
      assert (a + b)[1..] == a[1..] + b;
      ActiveReposAppend(a[1..], b);
    }
  }

  /** A repository list that passed the filter passes it unchanged. */
  lemma {:induction false} ActiveReposIdempotent(repos: seq<Repo>)
    ensures ActiveRepos(ActiveRepos(repos)) == ActiveRepos(repos)
  {
    if repos != [] {
      var head: seq<Repo> := if Active(repos[0]) then [repos[0]] else [];
      ActiveReposIdempotent(repos[1..]);
      ActiveReposAppend(head, ActiveRepos(repos[1..]));
      if Active(repos[0]) {
        assert ActiveRepos(head) == head by {
          assert head[1..] == [];
        }
      }
    }
  }

  // ---------------------------------------------------------------------
  // Webhook
  // ---------------------------------------------------------------------

  const MainRef := "refs/heads/main"
  const MasterRef := "refs/heads/master"

  /** The push webhook syncs only pushes to `main` or `master`; a payload
      without a ref is ignored. */
  function IsMainPush(gitRef: Option<string>): (r: bool)
    ensures r <==> gitRef == Some(MainRef) || gitRef == Some(MasterRef)
  {
    match gitRef
    case None => false
    case Some(x) => x == MainRef || x == MasterRef
  }

  /** A push of a tag never passes the gate, whatever its name. */
  lemma TagPushIgnored(name: string)
    ensures !IsMainPush(Some("refs/tags/" + name))
  {
    var x := "refs/tags/" + name;
    assert x[5] == 't';
    assert MainRef[5] == 'h' && MasterRef[5] == 'h';
  }

  /** The gate compares whole refs: a branch whose name only starts with
      `main` is ignored. */
  lemma BranchPrefixIgnored(suffix: string)
    requires suffix != []
    ensures !IsMainPush(Some(MainRef + suffix))
  {
    var x := MainRef + suffix;
    assert |x| > |MainRef|;
    assert MainRef + suffix != MasterRef by {
      assert x[11..15] == "main";
      assert MasterRef[11..15] == "mast";
    }
  }

  // ---------------------------------------------------------------------
  // The post written for a repository
  // ---------------------------------------------------------------------

  const DefaultDate := "2025-01-01"
  const DefaultDescription := "A GitHub project"

  /** The post's date: the text before the first 'T' of the last push's
      timestamp, else of the last update's, else a fixed date. */
  function ReadmeDate(repo: Repo): (r: string)
    ensures repo.pushedAt.None? && repo.updatedAt.None? ==> r == DefaultDate
    ensures repo.pushedAt.Some? || repo.updatedAt.Some? ==>
      var d := if repo.pushedAt.Some? then repo.pushedAt.value else repo.updatedAt.value;
      && |r| <= |d| && r == d[..|r|]
      && 'T' !in r
      && (|r| < |d| ==> d[|r|] == 'T')
  {
    match (if repo.pushedAt.Some? then repo.pushedAt else repo.updatedAt)
    case None => DefaultDate
    case Some(d) => FieldsShape(d, Exactly('T')); Split(d, 'T')[0]
  }

  /** The tags of a repository's post: `github`, `project`, the lowercase
      language when there is one, then at most the first three topics. */
  function ReadmeTagList(repo: Repo): (r: seq<string>)
    ensures 2 <= |r| <= 6
    ensures r[0] == "github" && r[1] == "project"
    ensures repo.language.Some? ==> |r| >= 3 && r[2] == Lower(repo.language.value)
    ensures forall t :: t in repo.topics.GetOr([])[..Min(3, |repo.topics.GetOr([])|)] ==> t in r
    ensures var lang := if repo.language.Some? then 1 else 0;
      var topics := repo.topics.GetOr([]);
      |r| == 2 + lang + Min(3, |topics|) && r[2 + lang..] == topics[..Min(3, |topics|)]
  {
    var lang := match repo.language case Some(l) => [Lower(l)] case None => [];
    var topics := repo.topics.GetOr([]);
    ["github", "project"] + lang + topics[..Min(3, |topics|)]
  }

  function Min(a: int, b: int): int {
    if a < b then a else b
  }

  /** The tag-building part of `create_post_from_readme`. */
  method ReadmeTags(repo: Repo) returns (tags: seq<string>)
    ensures tags == ReadmeTagList(repo)
  {
    tags := ["github", "project"];
    if repo.language.Some? {
      tags := tags + [Lower(repo.language.value)];
    }
    var base := tags;
    if repo.topics.Some? {
      var topics := repo.topics.value;
      var n := Min(3, |topics|);
      for i := 0 to n
        invariant tags == base + topics[..i]
      {
        assert topics[..i + 1] == topics[..i] + [topics[i]];
        tags := tags + [topics[i]];
      }
    }
    assert repo.topics.None? ==> base == base + repo.topics.GetOr([])[..0];
  }

  /** The summary: the description, or a fixed one, with every double
      quote turned into a single quote. */
  function ReadmeSummary(repo: Repo): (r: string)
    ensures '"' !in r
    ensures var d := repo.description.GetOr(DefaultDescription);
      |r| == |d| && forall i :: 0 <= i < |d| ==> r[i] == if d[i] == '"' then '\'' else d[i]
  {
    ReplaceChar(repo.description.GetOr(DefaultDescription), '"', '\'')
  }

  /** The trimmed homepage; empty when there is none. */
  function Homepage(repo: Repo): (r: string)
    ensures r == [] || Bare(r, Whitespace)
    ensures repo.homepage.None? ==> r == []
    ensures repo.homepage.Some? ==> r == Trim(repo.homepage.value, Whitespace)
  {
    match repo.homepage
    case None => []
    case Some(h) => Trim(h, Whitespace)
  }

  /** The website is left out exactly when there is no homepage or it is
      all whitespace. */
  lemma HomepageBlank(repo: Repo)
    ensures Homepage(repo) == [] <==> repo.homepage.None? || Within(repo.homepage.value, Whitespace)
  {
    if repo.homepage.Some? {
      TrimEmpty(repo.homepage.value, Whitespace);
    }
  }

  /** Whitespace around a bare homepage is all that is dropped. */
  lemma HomepagePadded(repo: Repo, p: string, h: string, q: string)
    requires repo.homepage == Some(p + h + q)
    requires Within(p, Whitespace) && Within(q, Whitespace) && Bare(h, Whitespace)
    ensures Homepage(repo) == h
  {
    TrimPadded(p, h, q, Whitespace);
  }

  function ReadmeKeywords(repo: Repo): string {
    repo.name + ", github, open source"
  }

  /** The quoted entries before the tag list. */
  function ReadmeHead(repo: Repo): seq<(string, string)> {
    [("title", repo.name), ("date", ReadmeDate(repo))]
  }

  /** The quoted entries after the tag list; the website line only when the
      trimmed homepage is not empty. */
  function ReadmeRest(repo: Repo, username: string): seq<(string, string)> {
    [ ("summary", ReadmeSummary(repo)),
      ("author", username),
      ("keywords", ReadmeKeywords(repo)),
      ("github_repo", repo.fullName) ]
    + (if Homepage(repo) == [] then [] else [("website", Homepage(repo))])
  }

  /** The front-matter lines of a repository's post. */
  function ReadmeLines(repo: Repo, username: string): seq<string> {
    QuotedLines(ReadmeHead(repo)) + [Entry("tags", TagsRaw(ReadmeTagList(repo)))] + QuotedLines(ReadmeRest(repo, username))
  }

  /** The file `create_post_from_readme` writes: the front matter, a blank
      line, the README, and a final line break. */
  function ReadmePost(repo: Repo, username: string, readme: string): string {
    Document(ReadmeLines(repo, username), "\n\n" + readme + "\n")
  }

  /** `create_post_from_readme`; `username` is the configured GitHub account. */
  method CreatePostFromReadme(repo: Repo, username: string, readme: string) returns (post: string)
    ensures post == ReadmePost(repo, username, readme)
  {
    var date := ReadmeDate(repo);
    var tags := ReadmeTags(repo);
    var homepage := Homepage(repo);
    var website := if homepage == [] then [] else [("website", homepage)];
    var head := [("title", repo.name), ("date", date)];
    var rest := [ ("summary", ReadmeSummary(repo)),
                  ("author", username),
                  ("keywords", repo.name + ", github, open source"),
                  ("github_repo", repo.fullName) ] + website;
    post := Document(QuotedLines(head) + [Entry("tags", TagsRaw(tags))] + QuotedLines(rest), "\n\n" + readme + "\n");
  }

  /** What the page reader is meant to find in a repository's post. */
  function ReadmeMetadata(repo: Repo, username: string): Metadata {
    Metadata(
      repo.name, ReadmeDate(repo), NonEmpty(ReadmeTagList(repo)), ReadmeSummary(repo),
      Some(username), None, None, Some(ReadmeKeywords(repo)), None, Some(repo.fullName),
      if Homepage(repo) == [] then None else Some(Homepage(repo)))
  }

  /** The values a repository's post can carry without breaking its front
      matter: single lines with no `---`, no double quote at either end,
      and tags without commas or edge quotes. */
  predicate ReadmeWritable(repo: Repo, username: string) {
    && Quotable(repo.name) && Quotable(repo.fullName) && Quotable(username)
    && Quotable(ReadmeDate(repo)) && Quotable(ReadmeSummary(repo)) && Quotable(Homepage(repo))
    && forall i :: 0 <= i < |ReadmeTagList(repo)| ==> SafeTag(ReadmeTagList(repo)[i])
  }

  lemma KeywordsQuotable(repo: Repo)
    requires Quotable(repo.name)
    ensures Quotable(ReadmeKeywords(repo))
  {
    var tail := ", github, open source";
    FreeShort(tail);
    FreeGlue(repo.name, tail);
    assert '\n' !in tail;
    var k := ReadmeKeywords(repo);
    assert k[|k| - 1] == 'e';
    assert repo.name == [] ==> k[0] == ',';
    assert repo.name != [] ==> k[0] == repo.name[0];
  }

  lemma ReadmeLinesWritable(repo: Repo, username: string)
    requires ReadmeWritable(repo, username)
    ensures forall i :: 0 <= i < |ReadmeLines(repo, username)| ==> Writable(ReadmeLines(repo, username)[i])
  {
    WriterKeys();
    KeywordsQuotable(repo);
    var a, b := QuotedLines(ReadmeHead(repo)), QuotedLines(ReadmeRest(repo, username));
    var t := Entry("tags", TagsRaw(ReadmeTagList(repo)));
    QuotedLinesWritable(ReadmeHead(repo));
    QuotedLinesWritable(ReadmeRest(repo, username));
    TagsWritable(ReadmeTagList(repo));
    forall i | 0 <= i < |a + [t] + b| ensures Writable((a + [t] + b)[i]) {
      if i < |a| {
        assert (a + [t] + b)[i] == a[i];
      } else if i > |a| {
        assert (a + [t] + b)[i] == b[i - |a| - 1];
      }
    }
  }

  /** The page reader applied to a repository's lines finds the intended fields. */
  lemma ReadmeFields(repo: Repo, username: string)
    requires Bare(repo.name, Exactly('"')) && Bare(repo.fullName, Exactly('"')) && Bare(username, Exactly('"'))
    requires Bare(ReadmeDate(repo), Exactly('"')) && Bare(Homepage(repo), Exactly('"'))
    requires Bare(ReadmeKeywords(repo), Exactly('"'))
    requires forall i :: 0 <= i < |ReadmeTagList(repo)| ==> ReadsBack(ReadmeTagList(repo)[i])
    ensures ApplyLines(Empty, ReadmeLines(repo, username)) == ReadmeMetadata(repo, username)
  {
    WriterKeys();
    PageKeys();
    var ts := ReadmeTagList(repo);
    var head, rest := ReadmeHead(repo), ReadmeRest(repo, username);
    var b := QuotedLines(rest);
    assert ReadmeLines(repo, username) == QuotedLines(head) + ([Entry("tags", TagsRaw(ts))] + b);
    HeadReadable(repo);
    RestReadable(repo, username);
    ApplyQuotedLines(Empty, head, [Entry("tags", TagsRaw(ts))] + b);
    HeadSettled(repo);
    var m2 := Empty.(title := repo.name, date := ReadmeDate(repo));
    ApplyTagsCons(m2, ts, b);
    ApplyQuotedLines(m2.(tags := NonEmpty(ts)), rest, []);
    RestSettled(m2.(tags := NonEmpty(ts)), repo, username);
    assert b + [] == b;
  }

  lemma HeadReadable(repo: Repo)
    requires Bare(repo.name, Exactly('"')) && Bare(ReadmeDate(repo), Exactly('"'))
    ensures Readable(ReadmeHead(repo))
  {
    WriterKeys();
  }

  lemma RestReadable(repo: Repo, username: string)
    requires Bare(repo.fullName, Exactly('"')) && Bare(username, Exactly('"'))
    requires Bare(Homepage(repo), Exactly('"')) && Bare(ReadmeKeywords(repo), Exactly('"'))
    ensures Readable(ReadmeRest(repo, username))
  {
    WriterKeys();
    var rest := ReadmeRest(repo, username);
    forall i | 0 <= i < |rest| ensures PlainKey(rest[i].0) && Bare(rest[i].1, Exactly('"')) {
    }
  }

  lemma HeadSettled(repo: Repo)
    ensures StepAll(Empty, ReadmeHead(repo)) == Empty.(title := repo.name, date := ReadmeDate(repo))
  {
    PageKeys();
    var h0, h1 := ("title", repo.name), ("date", ReadmeDate(repo));
    assert ReadmeHead(repo) == [h0] + [h1];
    StepAllCons(Empty, h0, [h1]);
    StepAllCons(Empty.(title := repo.name), h1, []);
  }

  lemma RestSettled(m: Metadata, repo: Repo, username: string)
    ensures StepAll(m, ReadmeRest(repo, username)) ==
      m.(summary := ReadmeSummary(repo), author := Some(username), keywords := Some(ReadmeKeywords(repo)),
         githubRepo := Some(repo.fullName), website := if Homepage(repo) == [] then m.website else Some(Homepage(repo)))
  {
    var r0, r1 := ("summary", ReadmeSummary(repo)), ("author", username);
    var tail := ReadmeTail(repo);
    assert ReadmeRest(repo, username) == [r0] + ([r1] + tail);
    PageKeys();
    var m1 := m.(summary := ReadmeSummary(repo));
    StepAllCons(m, r0, [r1] + tail);
    StepAllCons(m1, r1, tail);
    TailSettled(m1.(author := Some(username)), repo);
  }

  /** The entries after the author. */
  function ReadmeTail(repo: Repo): seq<(string, string)> {
    [("keywords", ReadmeKeywords(repo)), ("github_repo", repo.fullName)]
    + (if Homepage(repo) == [] then [] else [("website", Homepage(repo))])
  }

  lemma TailSettled(m: Metadata, repo: Repo)
    ensures StepAll(m, ReadmeTail(repo)) ==
      m.(keywords := Some(ReadmeKeywords(repo)), githubRepo := Some(repo.fullName),
         website := if Homepage(repo) == [] then m.website else Some(Homepage(repo)))
  {
    TailEntriesSettled(m, ReadmeKeywords(repo), repo.fullName, Homepage(repo));
  }

  /** The keywords, repository and optional website entries, read in turn. */
  lemma TailEntriesSettled(m: Metadata, keywords: string, fullName: string, home: string)
    ensures StepAll(m, [("keywords", keywords), ("github_repo", fullName)]
                       + (if home == [] then [] else [("website", home)])) ==
      m.(keywords := Some(keywords), githubRepo := Some(fullName),
         website := if home == [] then m.website else Some(home))
  {
    PageKeys();
    var r2, r3 := ("keywords", keywords), ("github_repo", fullName);
    var web: seq<(string, string)> := if home == [] then [] else [("website", home)];
    assert [r2, r3] + web == [r2] + ([r3] + web);
    var m3 := m.(keywords := Some(keywords));
    StepAllCons(m, r2, [r3] + web);
    StepAllCons(m3, r3, web);
    if web != [] {
      assert web == [("website", home)] + [];
      StepAllCons(m3.(githubRepo := Some(fullName)), ("website", home), []);
    }
  }

  /** A repository's post reads back as the intended fields, and its body is
      the README between a blank line and a final line break. */
  lemma ReadmeRoundTrip(repo: Repo, username: string, readme: string)
    requires ReadmeWritable(repo, username)
    ensures Parse(ReadmePost(repo, username, readme)) == Some(ReadmeMetadata(repo, username))
    ensures Body(ReadmePost(repo, username, readme)) == "\n\n" + readme + "\n"
  {
    var ls := ReadmeLines(repo, username);
    ReadmeLinesWritable(repo, username);
    ParseDocument(ls, "\n\n" + readme + "\n");
    MetadataOfFold([], ls);
    assert [] + ls == ls;
    KeywordsQuotable(repo);
    ReadmeFields(repo, username);
  }

  /** The save handler finds the post's date, repository and website in a
      repository's post, so editing a synced post keeps its link to GitHub. */
  lemma ReadmePreserved(repo: Repo, username: string, readme: string)
    requires ReadmeWritable(repo, username)
    ensures PreservedOf(Some(ReadmePost(repo, username, readme))) == ReadmeKept(repo)
  {
    var ls := ReadmeLines(repo, username);
    ReadmeLinesWritable(repo, username);
    PreservedDocument(ls, "\n\n" + readme + "\n");
    PreservedFold([], ls);
    assert [] + ls == ls;
    KeywordsQuotable(repo);
    ReadmeRecorded(repo, username);
  }

  /** What the save handler keeps from a repository's post. */
  function ReadmeKept(repo: Repo): Preserved {
    Preserved(Some(ReadmeDate(repo)), Some(repo.fullName),
              if Homepage(repo) == [] then None else Some(Homepage(repo)))
  }

  lemma ReadmeRecorded(repo: Repo, username: string)
    requires Bare(repo.name, Exactly('"')) && Bare(repo.fullName, Exactly('"')) && Bare(username, Exactly('"'))
    requires Bare(ReadmeDate(repo), Exactly('"')) && Bare(Homepage(repo), Exactly('"'))
    requires Bare(ReadmeKeywords(repo), Exactly('"'))
    ensures KeepLines(NothingPreserved, ReadmeLines(repo, username)) == ReadmeKept(repo)
  {
    HeadReadable(repo);
    RestReadable(repo, username);
    var ts := ReadmeTagList(repo);
    var head, rest := ReadmeHead(repo), ReadmeRest(repo, username);
    var b := QuotedLines(rest);
    assert ReadmeLines(repo, username) == QuotedLines(head) + ([Entry("tags", TagsRaw(ts))] + b);
    KeepQuotedLines(NothingPreserved, head, [Entry("tags", TagsRaw(ts))] + b);
    HeadRecorded(repo);
    var p := Preserved(Some(ReadmeDate(repo)), None, None);
    KeepTagsCons(p, TagsRaw(ts), b);
    KeepQuotedLines(p, rest, []);
    assert b + [] == b;
    RestRecorded(p, repo, username);
  }

  lemma HeadRecorded(repo: Repo)
    ensures RecordAll(NothingPreserved, ReadmeHead(repo)) == Preserved(Some(ReadmeDate(repo)), None, None)
  {
    SaveKeys();
    var h0, h1 := ("title", repo.name), ("date", ReadmeDate(repo));
    assert ReadmeHead(repo) == [h0] + [h1];
    RecordAllCons(NothingPreserved, h0, [h1]);
    RecordAllCons(NothingPreserved, h1, []);
  }

  lemma RestRecorded(p: Preserved, repo: Repo, username: string)
    requires p.githubRepo == None && p.website == None
    ensures RecordAll(p, ReadmeRest(repo, username)) ==
      p.(githubRepo := Some(repo.fullName), website := ReadmeKept(repo).website)
  {
    SaveKeys();
    var r0, r1 := ("summary", ReadmeSummary(repo)), ("author", username);
    var tail := ReadmeTail(repo);
    assert ReadmeRest(repo, username) == [r0] + ([r1] + tail);
    RecordAllCons(p, r0, [r1] + tail);
    RecordAllCons(p, r1, tail);
    TailRecorded(p, repo);
  }

  lemma TailRecorded(p: Preserved, repo: Repo)
    requires p.website == None
    ensures RecordAll(p, ReadmeTail(repo)) ==
      p.(githubRepo := Some(repo.fullName), website := ReadmeKept(repo).website)
  {
    SaveKeys();
    var r2, r3 := ("keywords", ReadmeKeywords(repo)), ("github_repo", repo.fullName);
    var web: seq<(string, string)> := if Homepage(repo) == [] then [] else [("website", Homepage(repo))];
    assert ReadmeTail(repo) == [r2] + ([r3] + web);
    RecordAllCons(p, r2, [r3] + web);
    RecordAllCons(p, r3, web);
    WebsiteRecorded(p.(githubRepo := Some(repo.fullName)), web);
  }

  lemma WebsiteRecorded(p: Preserved, web: seq<(string, string)>)
    requires web == [] || (|web| == 1 && web[0].0 == "website")
    ensures RecordAll(p, web) == if web == [] then p else p.(website := Some(web[0].1))
  {
    if web != [] {
      SaveKeys();
      assert web == [web[0]] + [];
      RecordAllCons(p, web[0], []);
    }
  }
}
