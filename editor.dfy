/** The admin editor: the edit page's lookup of a post by its slug, and the
    save handler that writes a post's file from the submitted form while
    keeping the date and GitHub links of the file it replaces. The content
    directory is a map from file names to file contents. */
module Editor {
  import opened Wrappers
  import opened Strings
  import opened Slugs
  import opened FrontMatter
  import opened Posts

  /** The fields the editor submits; `slug` names the file being edited. */
  datatype PostForm = PostForm(title: string, content: string, tags: string, summary: string, slug: Option<string>)

  // ---------------------------------------------------------------------
  // The file a save writes
  // ---------------------------------------------------------------------

  /** The save handler's slug as written: the submitted slug whenever there
      is one, even an empty one, else the title's slug. */
  function SaveSlugAsWritten(form: PostForm): (r: string)
    ensures form.slug.Some? ==> r == form.slug.value
    ensures form.slug.None? ==> r == SlugOf(form.title)
  {
    form.slug.GetOr(TitleSaveSlug(form.title))
  }

  /** The new-post editor submits an empty slug; as written, the post is
      then saved as ".md", a file the blog never lists. */
  lemma NewPostUnlisted(title: string, content: string, tags: string, summary: string)
    ensures SaveSlugAsWritten(PostForm(title, content, tags, summary, Some(""))) + ".md" == ".md"
    ensures !IsMarkdownFile(SaveSlugAsWritten(PostForm(title, content, tags, summary, Some(""))) + ".md")
  {
    MarkdownFileName([]);
  }

  /** The slug the save handler is meant to use: an empty submitted slug
      counts as none. */
  function SaveSlug(form: PostForm): (r: string)
    ensures form.slug.Some? && form.slug.value != [] ==> r == form.slug.value
    ensures form.slug.None? || form.slug.value == [] ==> r == SlugOf(form.title)
  {
    if form.slug.Some? && form.slug.value != [] then form.slug.value else TitleSaveSlug(form.title)
  }

  /** Where a slug's post is stored in the content directory. */
  function FileName(slug: string): string {
    slug + ".md"
  }

  lemma {:induction false} RemoveNotEmpty(s: string, k: CharClass, i: nat)
    requires i < |s| && !InClass(s[i], k)
    ensures Remove(s, k) != []
    decreases i
  {
    if i > 0 {
      RemoveNotEmpty(s[1..], k, i - 1);
    }
  }

  /** A title with a letter or digit has a non-empty slug. */
  lemma SlugNotEmpty(title: string, i: nat)
    requires i < |title| && IsAlphanumeric(title[i])
    ensures SlugOf(title) != []
  {
    SlugShape(title);
    RemoveNotEmpty(Lower(title), NonAlphanumeric, i);
  }

  /** With the intended slug a saved post is listed whenever it has a
      non-empty slug naming a file directly in the content directory, or a
      title with a letter or digit, new posts included. */
  lemma SavedPostListed(form: PostForm, i: nat)
    requires (form.slug.Some? && form.slug.value != [] && '/' !in form.slug.value) || (i < |form.title| && IsAlphanumeric(form.title[i]))
    ensures IsMarkdownFile(FileName(SaveSlug(form)))
  {
    if !(form.slug.Some? && form.slug.value != [] && '/' !in form.slug.value) {
      SlugNotEmpty(form.title, i);
    }
    MarkdownFileName(SaveSlug(form));
  }

  /** A submitted slug holding '/' names a path below or outside the content
      directory, never a plain entry of it; a title slug never does. */
  lemma SlashedSlugNested(form: PostForm)
    ensures '/' in FileName(SaveSlugAsWritten(form)) <==> form.slug.Some? && '/' in form.slug.value
  {
    var n := FileName(SaveSlugAsWritten(form));
    if form.slug.None? {
      SlugShape(form.title);
      assert forall j :: 0 <= j < |n| ==> n[j] != '/' by {
        forall j | 0 <= j < |n| ensures n[j] != '/' {
          if j < |SlugOf(form.title)| {
            assert n[j] == SlugOf(form.title)[j];
          } else {
            assert n[j] == ".md"[j - |SlugOf(form.title)|];
          }
        }
      }
    } else {
      var v := form.slug.value;
      assert n == v + ".md";
    }
  }

  // ---------------------------------------------------------------------
  // The saved text
  // ---------------------------------------------------------------------

  /** The tags field split at commas, each piece trimmed. */
  function SaveTags(tags: string): (r: seq<string>)
    ensures |r| == |Split(tags, ',')| && r != []
    ensures forall i :: 0 <= i < |r| ==> r[i] == Trim(Split(tags, ',')[i], Whitespace)
    ensures forall i :: 0 <= i < |r| ==> Bare(r[i], Whitespace) && ',' !in r[i]
  {
    var pieces := Split(tags, ',');
    FieldsShape(tags, Exactly(','));
    TrimmedClean(pieces);
    seq(|pieces|, i requires 0 <= i < |pieces| => Trim(pieces[i], Whitespace))
  }

  lemma TrimmedClean(pieces: seq<string>)
    requires forall i, j :: 0 <= i < |pieces| && 0 <= j < |pieces[i]| ==> pieces[i][j] != ','
    ensures forall i :: 0 <= i < |pieces| ==> ',' !in Trim(pieces[i], Whitespace)
  {
    forall i | 0 <= i < |pieces| ensures ',' !in Trim(pieces[i], Whitespace) {
      TrimClean(pieces[i], Whitespace, Exactly(','));
    }
  }

  /** The quoted entries before the tag list. */
  function SaveHead(form: PostForm, date: string): seq<(string, string)> {
    [("title", form.title), ("date", date)]
  }

  /** The quoted entries after it: the summary, then any preserved links. */
  function SaveRest(form: PostForm, p: Preserved): seq<(string, string)> {
    [("summary", form.summary)]
    + (if p.githubRepo.Some? then [("github_repo", p.githubRepo.value)] else [])
    + (if p.website.Some? then [("website", p.website.value)] else [])
  }

  /** The kept date, else today's. */
  function SaveDate(p: Preserved, today: string): string {
    p.date.GetOr(today)
  }

  function SaveLines(form: PostForm, p: Preserved, today: string): seq<string> {
    Layout(SaveHead(form, SaveDate(p, today)), SaveTags(form.tags), SaveRest(form, p))
  }

  /** The file the save handler writes: front matter, a blank line, then the
      submitted content with no final line break added. */
  function SavedPost(form: PostForm, p: Preserved, today: string): string {
    Document(SaveLines(form, p, today), "\n\n" + form.content)
  }

  /** The write shared by both slug choices: the template for `form` goes to
      `slug`'s file, with the date and links kept from the file it replaces;
      every other file stays as it was. */
  method WritePost(form: PostForm, slug: string, files: map<string, string>, today: string)
    returns (saved: map<string, string>)
    ensures saved == files[FileName(slug) :=
      SavedPost(form, PreservedOf(if FileName(slug) in files then Some(files[FileName(slug)]) else None), today)]
  {
    var path := FileName(slug);
    var existing := if path in files then Some(files[path]) else None;
    var p := ExtractPreserved(existing);
    var date := p.date.GetOr(today);
    var rest := [("summary", form.summary)]
      + (if p.githubRepo.Some? then [("github_repo", p.githubRepo.value)] else [])
      + (if p.website.Some? then [("website", p.website.value)] else []);
    var text := Document(QuotedLines([("title", form.title), ("date", date)])
      + [Entry("tags", TagsRaw(SaveTags(form.tags)))] + QuotedLines(rest), "\n\n" + form.content);
    saved := files[path := text];
  }

  /** `admin_save_post` once the session is checked, as written: the slug is
      the submitted one, even an empty one. `today` is the local date as
      `%Y-%m-%d`. It returns the slug the handler reports and the content
      directory after the write. */
  method AdminSavePost(form: PostForm, files: map<string, string>, today: string)
    returns (slug: string, saved: map<string, string>)
    ensures slug == SaveSlugAsWritten(form)
    ensures saved == files[FileName(slug) :=
      SavedPost(form, PreservedOf(if FileName(slug) in files then Some(files[FileName(slug)]) else None), today)]
  {
    slug := SaveSlugAsWritten(form);
    saved := WritePost(form, slug, files, today);
  }

  /** The save handler with the intended slug, under which an empty
      submitted slug falls back to the title's. */
  method AdminSavePostCorrected(form: PostForm, files: map<string, string>, today: string)
    returns (slug: string, saved: map<string, string>)
    ensures slug == SaveSlug(form)
    ensures saved == files[FileName(slug) :=
      SavedPost(form, PreservedOf(if FileName(slug) in files then Some(files[FileName(slug)]) else None), today)]
  {
    slug := SaveSlug(form);
    saved := WritePost(form, slug, files, today);
  }

  /** The two slugs differ only on an empty submitted slug. */
  lemma SaveSlugsAgree(form: PostForm)
    ensures SaveSlugAsWritten(form) == SaveSlug(form) <==> form.slug != Some("") || SlugOf(form.title) == []
  {
  }

  // ---------------------------------------------------------------------
  // Reading the saved file back
  // ---------------------------------------------------------------------

  /** What can be written and read back: one-line fence-free values with no
      '"' at either end, and tags that survive the tag-list reader. */
  predicate SaveWritable(form: PostForm, p: Preserved, today: string) {
    && Quotable(form.title) && Quotable(SaveDate(p, today)) && Quotable(form.summary)
    && (p.githubRepo.Some? ==> Quotable(p.githubRepo.value))
    && (p.website.Some? ==> Quotable(p.website.value))
    && forall i :: 0 <= i < |SaveTags(form.tags)| ==> SafeTag(SaveTags(form.tags)[i])
  }

  /** What the page reader is meant to find in a saved post. */
  function SavedMetadata(form: PostForm, p: Preserved, today: string): Metadata {
    Empty.(title := form.title, date := SaveDate(p, today), tags := NonEmpty(SaveTags(form.tags)),
           summary := form.summary, githubRepo := p.githubRepo, website := p.website)
  }

  lemma HeadReadable(form: PostForm, date: string)
    requires Bare(form.title, Exactly('"')) && Bare(date, Exactly('"'))
    ensures Readable(SaveHead(form, date))
  {
    WriterKeys();
  }

  lemma RestReadable(form: PostForm, p: Preserved)
    requires Bare(form.summary, Exactly('"'))
    requires p.githubRepo.Some? ==> Bare(p.githubRepo.value, Exactly('"'))
    requires p.website.Some? ==> Bare(p.website.value, Exactly('"'))
    ensures Readable(SaveRest(form, p))
  {
    WriterKeys();
    var rest := SaveRest(form, p);
    forall i | 0 <= i < |rest| ensures PlainKey(rest[i].0) && Bare(rest[i].1, Exactly('"')) {
    }
  }

  lemma SaveLinesWritable(form: PostForm, p: Preserved, today: string)
    requires SaveWritable(form, p, today)
    ensures forall i :: 0 <= i < |SaveLines(form, p, today)| ==> Writable(SaveLines(form, p, today)[i])
  {
    WriterKeys();
    var head, rest := SaveHead(form, SaveDate(p, today)), SaveRest(form, p);
    var a, b := QuotedLines(head), QuotedLines(rest);
    var t := Entry("tags", TagsRaw(SaveTags(form.tags)));
    QuotedLinesWritable(head);
    assert forall i :: 0 <= i < |rest| ==> PlainKey(rest[i].0) && Quotable(rest[i].1);
    QuotedLinesWritable(rest);
    TagsWritable(SaveTags(form.tags));
    forall i | 0 <= i < |a + [t] + b| ensures Writable((a + [t] + b)[i]) {
      if i < |a| {
        assert (a + [t] + b)[i] == a[i];
      } else if i > |a| {
        assert (a + [t] + b)[i] == b[i - |a| - 1];
      }
    }
  }

  lemma HeadSettled(form: PostForm, date: string)
    ensures StepAll(Empty, SaveHead(form, date)) == Empty.(title := form.title, date := date)
  {
    PageKeys();
    var h0, h1 := ("title", form.title), ("date", date);
    assert SaveHead(form, date) == [h0] + [h1];
    StepAllCons(Empty, h0, [h1]);
    StepAllCons(Empty.(title := form.title), h1, []);
  }

  /** The optional link entries. */
  function Links(p: Preserved): seq<(string, string)> {
    (if p.githubRepo.Some? then [("github_repo", p.githubRepo.value)] else [])
    + (if p.website.Some? then [("website", p.website.value)] else [])
  }

  lemma RestSettled(m: Metadata, form: PostForm, p: Preserved)
    requires m.githubRepo == None && m.website == None
    ensures StepAll(m, SaveRest(form, p)) ==
      m.(summary := form.summary, githubRepo := p.githubRepo, website := p.website)
  {
    PageKeys();
    var r0 := ("summary", form.summary);
    assert SaveRest(form, p) == [r0] + Links(p);
    StepAllCons(m, r0, Links(p));
    LinksSettled(m.(summary := form.summary), p);
  }

  lemma LinksSettled(m: Metadata, p: Preserved)
    requires m.githubRepo == None && m.website == None
    ensures StepAll(m, Links(p)) == m.(githubRepo := p.githubRepo, website := p.website)
  {
    PageKeys();
    var web: seq<(string, string)> := if p.website.Some? then [("website", p.website.value)] else [];
    var m1 := m.(githubRepo := p.githubRepo);
    if p.githubRepo.Some? {
      assert Links(p) == [("github_repo", p.githubRepo.value)] + web;
      StepAllCons(m, ("github_repo", p.githubRepo.value), web);
    } else {
      assert Links(p) == web;
    }
    if p.website.Some? {
      assert web == [("website", p.website.value)] + [];
      StepAllCons(m1, ("website", p.website.value), []);
    }
  }

  lemma SavedFields(form: PostForm, p: Preserved, today: string)
    requires Bare(form.title, Exactly('"')) && Bare(SaveDate(p, today), Exactly('"'))
    requires Bare(form.summary, Exactly('"'))
    requires p.githubRepo.Some? ==> Bare(p.githubRepo.value, Exactly('"'))
    requires p.website.Some? ==> Bare(p.website.value, Exactly('"'))
    requires forall i :: 0 <= i < |SaveTags(form.tags)| ==> ReadsBack(SaveTags(form.tags)[i])
    ensures ApplyLines(Empty, SaveLines(form, p, today)) == SavedMetadata(form, p, today)
  {
    var date := SaveDate(p, today);
    var ts := SaveTags(form.tags);
    HeadReadable(form, date);
    RestReadable(form, p);
    ApplyLayout(SaveHead(form, date), ts, SaveRest(form, p));
    HeadSettled(form, date);
    RestSettled(Empty.(title := form.title, date := date, tags := NonEmpty(ts)), form, p);
  }

  /** The blog reads a saved post back with the submitted title, summary and
      non-empty tags, the kept (or today's) date, the kept links, and the
      submitted content after a blank line. */
  lemma SaveRoundTrip(form: PostForm, p: Preserved, today: string)
    requires SaveWritable(form, p, today)
    ensures Parse(SavedPost(form, p, today)) == Some(SavedMetadata(form, p, today))
    ensures Body(SavedPost(form, p, today)) == "\n\n" + form.content
  {
    var ls := SaveLines(form, p, today);
    SaveLinesWritable(form, p, today);
    ParseDocument(ls, "\n\n" + form.content);
    MetadataOfFold([], ls);
    assert [] + ls == ls;
    SavedFields(form, p, today);
  }

  /** As written, the blog lists a saved post with the submitted title and
      tags when the form carries a non-empty slug, or no slug and a title
      with a letter or digit. */
  lemma SavedPostShown(site: SiteConfig, form: PostForm, p: Preserved, today: string, i: nat,
                       html: string, date: string, dateIso: string)
    requires SaveWritable(form, p, today)
    requires (form.slug.Some? && form.slug.value != [] && '/' !in form.slug.value) || (form.slug.None? && i < |form.title| && IsAlphanumeric(form.title[i]))
    ensures var e := DirEntry(FileName(SaveSlugAsWritten(form)), SavedPost(form, p, today), html, date, dateIso);
      PostOf(site, e) == Some(MakePost(site, e, SavedMetadata(form, p, today)))
  {
    assert SaveSlugAsWritten(form) == SaveSlug(form);
    SavedPostListed(form, i);
    SaveRoundTrip(form, p, today);
  }

  // ---------------------------------------------------------------------
  // Saving again keeps what was kept
  // ---------------------------------------------------------------------

  lemma HeadRecorded(form: PostForm, date: string)
    ensures RecordAll(NothingPreserved, SaveHead(form, date)) == Preserved(Some(date), None, None)
  {
    SaveKeys();
    var h0, h1 := ("title", form.title), ("date", date);
    assert SaveHead(form, date) == [h0] + [h1];
    RecordAllCons(NothingPreserved, h0, [h1]);
    RecordAllCons(NothingPreserved, h1, []);
  }

  lemma LinksRecorded(q: Preserved, p: Preserved)
    requires q.githubRepo == None && q.website == None
    ensures RecordAll(q, Links(p)) == q.(githubRepo := p.githubRepo, website := p.website)
  {
    SaveKeys();
    var web: seq<(string, string)> := if p.website.Some? then [("website", p.website.value)] else [];
    var q1 := q.(githubRepo := p.githubRepo);
    if p.githubRepo.Some? {
      assert Links(p) == [("github_repo", p.githubRepo.value)] + web;
      RecordAllCons(q, ("github_repo", p.githubRepo.value), web);
    } else {
      assert Links(p) == web;
    }
    if p.website.Some? {
      assert web == [("website", p.website.value)] + [];
      RecordAllCons(q1, ("website", p.website.value), []);
    }
  }

  lemma SaveRecorded(form: PostForm, p: Preserved, today: string)
    requires Bare(form.title, Exactly('"')) && Bare(SaveDate(p, today), Exactly('"'))
    requires Bare(form.summary, Exactly('"'))
    requires p.githubRepo.Some? ==> Bare(p.githubRepo.value, Exactly('"'))
    requires p.website.Some? ==> Bare(p.website.value, Exactly('"'))
    ensures KeepLines(NothingPreserved, SaveLines(form, p, today)) == Preserved(Some(SaveDate(p, today)), p.githubRepo, p.website)
  {
    var date := SaveDate(p, today);
    HeadReadable(form, date);
    RestReadable(form, p);
    KeepLayout(SaveHead(form, date), SaveTags(form.tags), SaveRest(form, p));
    HeadRecorded(form, date);
    RestRecorded(Preserved(Some(date), None, None), form, p);
  }

  lemma RestRecorded(q: Preserved, form: PostForm, p: Preserved)
    requires q.githubRepo == None && q.website == None
    ensures RecordAll(q, SaveRest(form, p)) == q.(githubRepo := p.githubRepo, website := p.website)
  {
    SaveKeys();
    var r0 := ("summary", form.summary);
    assert SaveRest(form, p) == [r0] + Links(p);
    RecordAllCons(q, r0, Links(p));
    LinksRecorded(q, p);
  }

  /** Saving over a saved post keeps its date and links: the save handler
      finds in the file it wrote the date it used and the links it kept. */
  lemma SaveKeepsPreserved(form: PostForm, p: Preserved, today: string)
    requires SaveWritable(form, p, today)
    ensures PreservedOf(Some(SavedPost(form, p, today))) ==
      Preserved(Some(SaveDate(p, today)), p.githubRepo, p.website)
  {
    var ls := SaveLines(form, p, today);
    SaveLinesWritable(form, p, today);
    PreservedDocument(ls, "\n\n" + form.content);
    PreservedFold([], ls);
    assert [] + ls == ls;
    SaveRecorded(form, p, today);
  }

  /** A post keeps its first date however often it is edited. */
  lemma EditKeepsDate(first: PostForm, second: PostForm, p: Preserved, today: string, later: string)
    requires SaveWritable(first, p, today)
    ensures var again := PreservedOf(Some(SavedPost(first, p, today)));
      SaveDate(again, later) == SaveDate(p, today) && again.githubRepo == p.githubRepo && again.website == p.website
  {
    SaveKeepsPreserved(first, p, today);
  }

  // ---------------------------------------------------------------------
  // The edit page
  // ---------------------------------------------------------------------

  /** What the edit page fills the editor with. */
  datatype EditFields = EditFields(title: string, content: string, tags: string, summary: string, slug: string)

  const BlankEditor := EditFields([], [], [], [], [])

  /** `Path::file_stem` of a directory entry: the name without its
      extension, or the whole name when it has none. */
  function FileStem(name: string): (r: string)
    ensures Extension(name).Some? ==> r + "." + Extension(name).value == name
    ensures Extension(name).None? ==> r == name
  {
    if name == ".." then name
    else match LastDot(name)
      case None => name
      case Some(k) =>
        if k == 0 then name
        else
          assert name == name[..k] + "." + name[k + 1..];
          name[..k]
  }

  /** The entry holds a post whose title slug is `slug`. */
  predicate EditMatch(e: DirEntry, slug: string) {
    Parse(e.text).Some? && EditPageSlug(Parse(e.text).value.title) == slug
  }

  /** Which entries match `slug`, in directory order. */
  function Matches(entries: seq<DirEntry>, slug: string): (r: seq<bool>)
    ensures |r| == |entries|
  {
    seq(|entries|, i requires 0 <= i < |entries| => EditMatch(entries[i], slug))
  }

  /** The first index at or after `from` whose flag is set. */
  function FirstTrue(bs: seq<bool>, from: nat): (r: Option<nat>)
    ensures r.Some? ==> from <= r.value < |bs|
    decreases |bs| - from
  {
    if from >= |bs| then None
    else if bs[from] then Some(from)
    else FirstTrue(bs, from + 1)
  }

  /** `FirstTrue` finds a set flag with none before it, and finds none only
      when no flag is set. */
  lemma {:induction false} FirstTrueFound(bs: seq<bool>, from: nat)
    ensures var r := FirstTrue(bs, from);
      && (r.Some? ==> bs[r.value])
      && (r.Some? ==> forall j :: from <= j < r.value ==> !bs[j])
      && (r.None? ==> forall j :: from <= j < |bs| ==> !bs[j])
    decreases |bs| - from
  {
    if from < |bs| && !bs[from] {
      FirstTrueFound(bs, from + 1);
    }
  }

  /** The editor's fields for an entry holding a post. */
  function FieldsFor(e: DirEntry): EditFields
    requires Parse(e.text).Some?
  {
    var m := Parse(e.text).value;
    EditFields(m.title, Trim(Body(e.text), Whitespace), Join(m.tags, ", "), m.summary, FileStem(e.name))
  }

  /** The edit page for `slug`: the first post whose title has that slug,
      or a blank editor. */
  function EditPage(entries: seq<DirEntry>, slug: string): EditFields {
    var ms := Matches(entries, slug);
    match FirstTrue(ms, 0)
    case None => BlankEditor
    case Some(i) => FirstTrueFound(ms, 0); FieldsFor(entries[i])
  }

  /** With no entry whose title has the slug, the editor is blank. */
  lemma EditPageBlank(entries: seq<DirEntry>, slug: string)
    requires forall j :: 0 <= j < |entries| ==> !EditMatch(entries[j], slug)
    ensures EditPage(entries, slug) == BlankEditor
  {
    FirstTrueFound(Matches(entries, slug), 0);
  }

  /** The edit page shows the first entry whose title has the slug. */
  lemma EditPageAt(entries: seq<DirEntry>, slug: string, i: nat)
    requires i < |entries| && EditMatch(entries[i], slug)
    requires forall j :: 0 <= j < i ==> !EditMatch(entries[j], slug)
    ensures EditPage(entries, slug) == FieldsFor(entries[i])
  {
    var ms := Matches(entries, slug);
    FirstTrueFound(ms, 0);
    assert ms[i];
    var k := FirstTrue(ms, 0).value;
    assert ms[k] ==> k >= i;
    assert k == i;
  }

  /** `admin_edit_post` once the session is checked: a pass over the
      directory that stops at the first match. */
  method AdminEditPost(entries: seq<DirEntry>, slug: string) returns (page: EditFields)
    ensures page == EditPage(entries, slug)
  {
    ghost var ms := Matches(entries, slug);
    page := BlankEditor;
    var i := 0;
    while i < |entries|
      invariant 0 <= i <= |entries|
      invariant FirstTrue(ms, 0) == FirstTrue(ms, i)
    {
      var e := entries[i];
      var meta := Parse(e.text);
      assert ms[i] == (meta.Some? && EditPageSlug(meta.value.title) == slug);
      if meta.Some? && EditPageSlug(meta.value.title) == slug {
        page := FieldsFor(e);
        return;
      }
      i := i + 1;
    }
  }

  /** The edit page hands back the file's stem, so saving an edited post
      rewrites the file it came from. */
  lemma EditSavesInPlace(stem: string)
    requires stem != []
    ensures FileStem(FileName(stem)) == stem
  {
    MarkdownFileName(stem);
  }

  /** The separated pieces of `p` followed by `ts` joined with ", ". */
  function Spaced(ts: seq<string>): seq<string> {
    seq(|ts|, i requires 0 <= i < |ts| => " " + ts[i])
  }

  lemma {:induction false} SplitJoined(p: string, ts: seq<string>)
    requires ts != [] && ',' !in p && forall i :: 0 <= i < |ts| ==> ',' !in ts[i]
    ensures Split(p + Join(ts, ", "), ',') == [p + ts[0]] + Spaced(ts[1..])
    decreases |ts|
  {
    var k := Exactly(',');
    var a := p + ts[0];
    assert Clean(a, k) by {
      forall j | 0 <= j < |a| ensures !InClass(a[j], k) {
        if j < |p| { assert a[j] == p[j]; } else { assert a[j] == ts[0][j - |p|]; }
      }
    }
    if |ts| == 1 {
      FieldsOfClean(a, k);
    } else {
      var rest := Join(ts[1..], ", ");
      assert p + Join(ts, ", ") == a + [','] + (" " + rest);
      FieldsAfterSeparator(a, ',', " " + rest, k);
      SplitJoined(" ", ts[1..]);
      assert Spaced(ts[1..]) == [" " + ts[1]] + Spaced(ts[2..]);
    }
  }

  /** Tags shown on the edit page come back unchanged when saved, as long
      as none has a comma or whitespace at either end. */
  lemma EditedTagsSurvive(ts: seq<string>)
    requires forall i :: 0 <= i < |ts| ==> ts[i] != [] && ',' !in ts[i] && Bare(ts[i], Whitespace)
    ensures NonEmpty(SaveTags(Join(ts, ", "))) == ts
  {
    if ts == [] {
      assert SaveTags(Join(ts, ", ")) == [[]];
    } else {
      TrimmedPieces(ts);
      NonEmptyOfFull(ts);
    }
  }

  /** A tag shown with whitespace at an end loses it when saved. */
  lemma PaddedTagTrimmed(p: string, t: string)
    requires p != [] && Within(p, Whitespace) && Bare(t, Whitespace) && ',' !in p + t
    ensures SaveTags(Join([p + t], ", ")) == [t]
    ensures t != p + t
  {
    assert Clean(p + t, Exactly(','));
    FieldsOfClean(p + t, Exactly(','));
    TrimAfterSpace(p, t, Whitespace);
  }

  lemma TrimmedPieces(ts: seq<string>)
    requires ts != [] && forall i :: 0 <= i < |ts| ==> ',' !in ts[i] && Bare(ts[i], Whitespace)
    ensures SaveTags(Join(ts, ", ")) == ts
  {
    JoinedPieces(ts);
    TrimmedSpaced(ts);
    SaveTagsOf(Join(ts, ", "), ts);
  }

  lemma JoinedPieces(ts: seq<string>)
    requires ts != [] && forall i :: 0 <= i < |ts| ==> ',' !in ts[i]
    ensures Split(Join(ts, ", "), ',') == [ts[0]] + Spaced(ts[1..])
  {
    var none: string := [];
    SplitJoined(none, ts);
    assert none + Join(ts, ", ") == Join(ts, ", ");
    assert none + ts[0] == ts[0];
  }

  lemma SaveTagsOf(tags: string, ts: seq<string>)
    requires |Split(tags, ',')| == |ts|
    requires forall i :: 0 <= i < |ts| ==> Trim(Split(tags, ',')[i], Whitespace) == ts[i]
    ensures SaveTags(tags) == ts
  {
  }

  lemma TrimmedSpaced(ts: seq<string>)
    requires ts != [] && forall i :: 0 <= i < |ts| ==> Bare(ts[i], Whitespace)
    ensures forall i :: 0 <= i < |ts| ==> Trim(([ts[0]] + Spaced(ts[1..]))[i], Whitespace) == ts[i]
  {
    var pieces := [ts[0]] + Spaced(ts[1..]);
    forall i | 0 <= i < |ts| ensures Trim(pieces[i], Whitespace) == ts[i] {
      if i == 0 {
        TrimBare(ts[0], Whitespace);
      } else {
        assert pieces[i] == " " + ts[i];
        TrimAfterSpace(" ", ts[i], Whitespace);
      }
    }
  }

  lemma {:induction false} NonEmptyOfFull(ts: seq<string>)
    requires forall i :: 0 <= i < |ts| ==> ts[i] != []
    ensures NonEmpty(ts) == ts
    decreases |ts|
  {
    if ts != [] {
      NonEmptyOfFull(ts[1..]);
    }
  }
}
