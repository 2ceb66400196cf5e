/** Front matter: the `key: value` block between the first two `---` fences
    of a post file. `ParseMetadata` is the reader every page uses;
    `ExtractPreserved` is the stricter reader of the save handler, which keeps
    a post's date, linked repository and website. The writers' line format
    (`Entry`, `Quoted`, `TagsRaw`, `Document`) is here too, together with the
    lemmas that read it back. */
module FrontMatter {
  import opened Wrappers
  import opened Strings

  const Fence := "---"

  datatype Metadata = Metadata(
    title: string,
    date: string,
    tags: seq<string>,
    summary: string,
    author: Option<string>,
    image: Option<string>,
    imageAlt: Option<string>,
    keywords: Option<string>,
    canonical: Option<string>,
    githubRepo: Option<string>,
    website: Option<string>)

  /** `Metadata::default()`. */
  const Empty := Metadata([], [], [], [], None, None, None, None, None, None, None)

  // ---------------------------------------------------------------------
  // Fences and lines
  // ---------------------------------------------------------------------

  /** `content.splitn(3, "---")`. */
  function SplitFence3(s: string): (parts: seq<string>)
    ensures 1 <= |parts| <= 3
  {
    match SplitOnceStr(s, Fence)
    case None => [s]
    case Some((a, rest)) =>
      match SplitOnceStr(rest, Fence)
      case None => [a, rest]
      case Some((b, c)) => [a, b, c]
  }

  /** The content splits into a single part exactly when it has no fence. */
  lemma SplitFence3Free(s: string)
    ensures |SplitFence3(s)| == 1 <==> Free(s, Fence)
  {
    SplitOnceStrFirst(s, Fence);
  }

  /** The content has two non-overlapping `---` fences. */
  predicate HasTwoFences(content: string) {
    SplitOnceStr(content, Fence).Some? && SplitOnceStr(SplitOnceStr(content, Fence).value.1, Fence).Some?
  }

  /** The text after the front matter: `splitn(3, "---").nth(2)`, or empty. */
  function Body(content: string): string {
    var parts := SplitFence3(content);
    if |parts| == 3 then parts[2] else []
  }

  /** One line read as `key: value`: split at the first ':', the key
      trimmed, the value trimmed and then stripped of double quotes. */
  function KeyValue(line: string): (r: Option<(string, string)>)
    ensures r.None? <==> ':' !in line
  {
    match SplitOnce(line, ':')
    case None => None
    case Some((k, v)) => Some((Trim(k, Whitespace), Trim(Trim(v, Whitespace), Exactly('"'))))
  }

  /** The fields of `Metadata` a line can set. */
  datatype Field = Title | Date | Tags | Summary | Author | Image | ImageAlt | Keywords | Canonical | GithubRepo | Website

  /** The two readers of front matter: the one every page uses
      (`parse_metadata`) and the save handler's. */
  datatype Reader = PageReader | SaveReader

  /** The field a key sets. The page reader follows the arms of the
      `match key` in `parse_metadata`, where `homepage` is another name for
      the website; the save reader knows only `date`, `github_repo` and
      `website`. */
  function FieldOf(reader: Reader, key: string): Option<Field> {
    match reader
    case PageReader =>
      if key == "title" then Some(Title)
      else if key == "date" then Some(Date)
      else if key == "tags" then Some(Tags)
      else if key == "summary" then Some(Summary)
      else if key == "author" then Some(Author)
      else if key == "image" then Some(Image)
      else if key == "image_alt" then Some(ImageAlt)
      else if key == "keywords" then Some(Keywords)
      else if key == "canonical" then Some(Canonical)
      else if key == "github_repo" then Some(GithubRepo)
      else if key == "website" || key == "homepage" then Some(Website)
      else None
    case SaveReader =>
      if key == "date" then Some(Date)
      else if key == "github_repo" then Some(GithubRepo)
      else if key == "website" then Some(Website)
      else None
  }

  /** What one line sets: a field and its value, or nothing. */
  type Setting = Option<(Field, string)>

  function LineField(reader: Reader, line: string): Setting {
    match KeyValue(line)
    case None => None
    case Some((key, value)) =>
      match FieldOf(reader, key)
      case None => None
      case Some(f) => Some((f, value))
  }

  /** What each line sets. */
  function Settings(reader: Reader, ls: seq<string>): (es: seq<Setting>)
    ensures |es| == |ls|
  {
    if ls == [] then [] else Settings(reader, ls[..|ls| - 1]) + [LineField(reader, ls[|ls| - 1])]
  }

  lemma {:induction false} SettingsAppend(reader: Reader, a: seq<string>, b: seq<string>)
    ensures Settings(reader, a + b) == Settings(reader, a) + Settings(reader, b)
    decreases |b|
  {
    if b == [] {
      assert a + b == a;
    } else {
      var init := b[..|b| - 1];
      assert (a + b)[..|a + b| - 1] == a + init;
      assert (a + b)[|a + b| - 1] == b[|b| - 1];
      SettingsAppend(reader, a, init);
    }
  }

  lemma SettingsSnoc(reader: Reader, ls: seq<string>, l: string)
    ensures Settings(reader, ls + [l]) == Settings(reader, ls) + [LineField(reader, l)]
  {
    assert (ls + [l])[..|ls|] == ls;
  }

  // ---------------------------------------------------------------------
  // Last line wins
  // ---------------------------------------------------------------------

  predicate SetsField(e: Setting, f: Field) {
    e.Some? && e.value.0 == f
  }

  /** The value of the last setting of `f`. */
  function LastValue(es: seq<Setting>, f: Field): Option<string> {
    if es == [] then None
    else if SetsField(es[|es| - 1], f) then Some(es[|es| - 1].value.1)
    else LastValue(es[..|es| - 1], f)
  }

  /** The one-field update of `parse_metadata`'s `match key`. */
  function Assign(m: Metadata, f: Field, v: string): Metadata {
    match f
    case Title => m.(title := v)
    case Date => m.(date := v)
    case Tags => m.(tags := TagList(v))
    case Summary => m.(summary := v)
    case Author => m.(author := Some(v))
    case Image => m.(image := Some(v))
    case ImageAlt => m.(imageAlt := Some(v))
    case Keywords => m.(keywords := Some(v))
    case Canonical => m.(canonical := Some(v))
    case GithubRepo => m.(githubRepo := Some(v))
    case Website => m.(website := Some(v))
  }

  function Step(m: Metadata, e: Setting): Metadata {
    match e
    case None => m
    case Some((f, v)) => Assign(m, f, v)
  }

  /** The reference reading: each field holds the value of its last
      setting, or the default when nothing sets it. */
  function MetadataFrom(es: seq<Setting>): Metadata {
    Metadata(
      LastValue(es, Title).GetOr([]),
      LastValue(es, Date).GetOr([]),
      match LastValue(es, Tags) case Some(v) => TagList(v) case None => [],
      LastValue(es, Summary).GetOr([]),
      LastValue(es, Author),
      LastValue(es, Image),
      LastValue(es, ImageAlt),
      LastValue(es, Keywords),
      LastValue(es, Canonical),
      LastValue(es, GithubRepo),
      LastValue(es, Website))
  }

  lemma LastValueSnoc(es: seq<Setting>, e: Setting, f: Field)
    ensures LastValue(es + [e], f) == if SetsField(e, f) then Some(e.value.1) else LastValue(es, f)
  {
    assert (es + [e])[..|es|] == es;
  }

  /** Applying the settings one after another, as the loop of
      `parse_metadata` does, agrees with the last-setting-wins reading. */
  lemma MetadataFromSnoc(es: seq<Setting>, e: Setting)
    ensures MetadataFrom(es + [e]) == Step(MetadataFrom(es), e)
  {
    LastValueSnoc(es, e, Title);
    LastValueSnoc(es, e, Date);
    LastValueSnoc(es, e, Tags);
    LastValueSnoc(es, e, Summary);
    LastValueSnoc(es, e, Author);
    LastValueSnoc(es, e, Image);
    LastValueSnoc(es, e, ImageAlt);
    LastValueSnoc(es, e, Keywords);
    LastValueSnoc(es, e, Canonical);
    LastValueSnoc(es, e, GithubRepo);
    LastValueSnoc(es, e, Website);
  }

  lemma {:induction false} LastValueSkips(pre: seq<Setting>, e: Setting, post: seq<Setting>, f: Field)
    requires !SetsField(e, f)
    ensures LastValue(pre + [e] + post, f) == LastValue(pre + post, f)
    decreases |post|
  {
    if post == [] {
      assert pre + [e] + post == pre + [e];
      assert pre + post == pre;
      LastValueSnoc(pre, e, f);
    } else {
      var init, last := post[..|post| - 1], post[|post| - 1];
      assert pre + [e] + post == (pre + [e] + init) + [last];
      assert pre + post == (pre + init) + [last];
      LastValueSnoc(pre + [e] + init, last, f);
      LastValueSnoc(pre + init, last, f);
      LastValueSkips(pre, e, init, f);
    }
  }

  lemma {:induction false} LastValueSettled(x: seq<Setting>, y: seq<Setting>, post: seq<Setting>, j: nat, f: Field)
    requires j < |post| && SetsField(post[j], f)
    ensures LastValue(x + post, f) == LastValue(y + post, f)
    decreases |post|
  {
    var init, last := post[..|post| - 1], post[|post| - 1];
    assert x + post == (x + init) + [last];
    assert y + post == (y + init) + [last];
    LastValueSnoc(x + init, last, f);
    LastValueSnoc(y + init, last, f);
    if !SetsField(last, f) {
      assert j < |init| && init[j] == post[j];
      LastValueSettled(x, y, init, j, f);
    }
  }

  // ---------------------------------------------------------------------
  // Reading
  // ---------------------------------------------------------------------

  /** One comma-separated piece of a tag list: trimmed, then stripped of
      double quotes, then of single quotes. */
  function CleanTag(p: string): string {
    Trim(Trim(Trim(p, Whitespace), Exactly('"')), Exactly('\''))
  }

  function CleanTags(ps: seq<string>): (r: seq<string>)
    ensures |r| == |ps|
    ensures forall i :: 0 <= i < |ps| ==> r[i] == CleanTag(ps[i])
  {
    if ps == [] then [] else [CleanTag(ps[0])] + CleanTags(ps[1..])
  }

  /** The `tags` value: both `[a, b]` and `a, b` are accepted. */
  function TagList(value: string): seq<string> {
    NonEmpty(CleanTags(Split(Trim(value, Either('[', ']')), ',')))
  }

  /** One iteration of the loop in `parse_metadata`. */
  function ApplyLine(m: Metadata, line: string): Metadata {
    Step(m, LineField(PageReader, line))
  }

  /** The page reader's reading of front-matter lines: its loop applied to
      each line in turn, starting from the defaults. */
  function MetadataOf(ls: seq<string>): Metadata {
    if ls == [] then Empty else ApplyLine(MetadataOf(ls[..|ls| - 1]), ls[|ls| - 1])
  }

  /** What `parse_metadata` returns: nothing exactly when the content lacks
      two `---` fences, otherwise the fields read from the lines between them. */
  function Parse(content: string): (r: Option<Metadata>)
    ensures r.None? <==> !HasTwoFences(content)
  {
    var parts := SplitFence3(content);
    if |parts| < 3 then None else Some(MetadataOf(Lines(parts[1])))
  }

  lemma MetadataOfSnoc(ls: seq<string>, l: string)
    ensures MetadataOf(ls + [l]) == ApplyLine(MetadataOf(ls), l)
  {
    assert (ls + [l])[..|ls|] == ls;
  }

  /** The loop gives every field the value of the last line that sets it. */
  lemma {:induction false} MetadataOfLastWins(ls: seq<string>)
    ensures MetadataOf(ls) == MetadataFrom(Settings(PageReader, ls))
  {
    if ls != [] {
      var init, l := ls[..|ls| - 1], ls[|ls| - 1];
      MetadataOfLastWins(init);
      assert ls == init + [l];
      SettingsSnoc(PageReader, init, l);
      MetadataFromSnoc(Settings(PageReader, init), LineField(PageReader, l));
    }
  }

  /** `parse_metadata`. */
  method ParseMetadata(content: string) returns (r: Option<Metadata>)
    ensures r == Parse(content)
  {
    var parts := SplitFence3(content);
    if |parts| < 3 {
      return None;
    }
    var lines := Lines(parts[1]);
    var meta := Empty;
    for i := 0 to |lines|
      invariant meta == MetadataOf(lines[..i])
    {
      MetadataOfSnoc(lines[..i], lines[i]);
      assert lines[..i + 1] == lines[..i] + [lines[i]];
      meta := ApplyLine(meta, lines[i]);
    }
    assert lines[..|lines|] == lines;
    return Some(meta);
  }

  // ---------------------------------------------------------------------
  // Properties of the reader
  // ---------------------------------------------------------------------

  /** The lines that set a field, in order. */
  function KnownLines(ls: seq<string>): (r: seq<string>)
    ensures forall i :: 0 <= i < |r| ==> LineField(PageReader, r[i]).Some?
  {
    if ls == [] then []
    else KnownLines(ls[..|ls| - 1]) + (if LineField(PageReader, ls[|ls| - 1]).Some? then [ls[|ls| - 1]] else [])
  }

  lemma {:induction false} LastValueKnown(ls: seq<string>, f: Field)
    ensures LastValue(Settings(PageReader, KnownLines(ls)), f) == LastValue(Settings(PageReader, ls), f)
  {
    if ls != [] {
      var init, l := ls[..|ls| - 1], ls[|ls| - 1];
      LastValueKnown(init, f);
      LastValueSnoc(Settings(PageReader, init), LineField(PageReader, l), f);
      if LineField(PageReader, l).Some? {
        SettingsSnoc(PageReader, KnownLines(init), l);
        LastValueSnoc(Settings(PageReader, KnownLines(init)), LineField(PageReader, l), f);
      } else {
        assert KnownLines(ls) == KnownLines(init) + [];
        assert KnownLines(init) + [] == KnownLines(init);
      }
    }
  }

  /** Lines without ':' and lines with an unknown key change nothing. */
  lemma OnlyKnownLinesMatter(ls: seq<string>)
    ensures MetadataOf(KnownLines(ls)) == MetadataOf(ls)
  {
    MetadataOfLastWins(KnownLines(ls));
    MetadataOfLastWins(ls);
    forall f: Field | true
      ensures LastValue(Settings(PageReader, KnownLines(ls)), f) == LastValue(Settings(PageReader, ls), f)
    {
      LastValueKnown(ls, f);
    }
  }

  /** A line whose field is set again further down has no effect: the
      later line overwrites it, even when one says `homepage` and the other
      `website`. */
  lemma ShadowedLine(pre: seq<string>, l: string, post: seq<string>, j: nat)
    requires LineField(PageReader, l).Some?
    requires j < |post| && LineField(PageReader, post[j]).Some?
    requires LineField(PageReader, post[j]).value.0 == LineField(PageReader, l).value.0
    ensures MetadataOf(pre + [l] + post) == MetadataOf(pre + post)
  {
    MetadataOfLastWins(pre + [l] + post);
    MetadataOfLastWins(pre + post);
    var a, e, b := Settings(PageReader, pre), LineField(PageReader, l), Settings(PageReader, post);
    SettingsAppend(PageReader, pre + [l], post);
    SettingsSnoc(PageReader, pre, l);
    SettingsAppend(PageReader, pre, post);
    assert b[j] == LineField(PageReader, post[j]) by { SettingsAt(PageReader, post, j); }
    forall f: Field | true ensures LastValue(a + [e] + b, f) == LastValue(a + b, f) {
      if SetsField(e, f) {
        LastValueSettled(a + [e], a, b, j, f);
      } else {
        LastValueSkips(a, e, b, f);
      }
    }
  }

  lemma {:induction false} SettingsAt(reader: Reader, ls: seq<string>, j: nat)
    requires j < |ls|
    ensures Settings(reader, ls)[j] == LineField(reader, ls[j])
  {
    if j < |ls| - 1 {
      SettingsAt(reader, ls[..|ls| - 1], j);
    }
  }

  /** Every tag the reader produces is non-empty, holds no comma, and has no
      single quote at either end. */
  lemma TagListShape(value: string)
    ensures forall i :: 0 <= i < |TagList(value)| ==>
      TagList(value)[i] != [] && ',' !in TagList(value)[i] && Bare(TagList(value)[i], Exactly('\''))
  {
    var pieces := Split(Trim(value, Either('[', ']')), ',');
    var cleaned := CleanTags(pieces);
    assert forall i :: 0 <= i < |pieces| ==> Clean(pieces[i], Exactly(',')) by {
      FieldsShape(Trim(value, Either('[', ']')), Exactly(','));
    }
    assert forall t :: t in cleaned ==> ',' !in t && Bare(t, Exactly('\'')) by {
      forall t | t in cleaned ensures ',' !in t && Bare(t, Exactly('\'')) {
        var n :| 0 <= n < |cleaned| && cleaned[n] == t;
        CleanTagShape(pieces[n]);
      }
    }
    forall i | 0 <= i < |TagList(value)|
      ensures TagList(value)[i] != [] && ',' !in TagList(value)[i]
      ensures Bare(TagList(value)[i], Exactly('\''))
    {
      assert TagList(value)[i] in cleaned;
    }
  }

  /** One cleaned piece keeps the piece's lack of commas and has no single
      quote at either end. */
  lemma CleanTagShape(p: string)
    requires Clean(p, Exactly(','))
    ensures ',' !in CleanTag(p) && Bare(CleanTag(p), Exactly('\''))
  {
    TrimClean(p, Whitespace, Exactly(','));
    TrimClean(Trim(p, Whitespace), Exactly('"'), Exactly(','));
    TrimClean(Trim(Trim(p, Whitespace), Exactly('"')), Exactly('\''), Exactly(','));
    var t := CleanTag(p);
    assert forall j :: 0 <= j < |t| ==> t[j] != ',';
  }

  /** Every tag of a parsed post satisfies `TagListShape`. */
  lemma ParsedTagsShape(content: string)
    requires Parse(content).Some?
    ensures forall t :: t in Parse(content).value.tags ==>
      t != [] && ',' !in t && Bare(t, Exactly('\''))
  {
    var ls := Lines(SplitFence3(content)[1]);
    MetadataOfLastWins(ls);
    var es := Settings(PageReader, ls);
    match LastValue(es, Tags)
    case Some(v) => TagListShape(v);
    case None =>
  }

  // ---------------------------------------------------------------------
  // The save handler's reader
  // ---------------------------------------------------------------------

  /** The front matter as the save handler finds it:
      `strip_prefix("---")` followed by `split_once("---")`. */
  function StrictFrontMatter(content: string): Option<string> {
    if StartsWith(content, Fence) then
      match SplitOnceStr(content[|Fence|..], Fence)
      case Some((fm, _)) => Some(fm)
      case None => None
    else None
  }

  /** The fields the save handler carries over from the file it overwrites. */
  datatype Preserved = Preserved(date: Option<string>, githubRepo: Option<string>, website: Option<string>)

  const NothingPreserved := Preserved(None, None, None)

  /** The reference reading: the last `date`, `github_repo` and `website` settings. */
  function PreservedFrom(es: seq<Setting>): Preserved {
    Preserved(LastValue(es, Date), LastValue(es, GithubRepo), LastValue(es, Website))
  }

  /** What the extraction loop finds: the fields read from the lines of
      the strict front matter; nothing when the file could not be read
      (`None`) or has no strict front matter. */
  function PreservedOf(existing: Option<string>): Preserved {
    match existing
    case None => NothingPreserved
    case Some(content) =>
      match StrictFrontMatter(content)
      case None => NothingPreserved
      case Some(fm) => SavedFields(Lines(fm))
  }

  /** The extraction loop applied to each line in turn. */
  function SavedFields(ls: seq<string>): Preserved {
    if ls == [] then NothingPreserved else Keep(SavedFields(ls[..|ls| - 1]), ls[|ls| - 1])
  }

  /** The extraction loop of `admin_save_post`. */
  method ExtractPreserved(existing: Option<string>) returns (p: Preserved)
    ensures p == PreservedOf(existing)
  {
    var date, githubRepo, website := None, None, None;
    if existing.Some? {
      var fm := StrictFrontMatter(existing.value);
      if fm.Some? {
        var lines := Lines(fm.value);
        for i := 0 to |lines|
          invariant Preserved(date, githubRepo, website) == SavedFields(lines[..i])
        {
          assert lines[..i + 1] == lines[..i] + [lines[i]];
          SavedFieldsSnoc(lines[..i], lines[i]);
          var kv := KeyValue(lines[i]);
          KeepLine(Preserved(date, githubRepo, website), lines[i]);
          if kv.Some? {
            var (key, value) := kv.value;
            if key == "date" {
              date := Some(value);
            } else if key == "github_repo" {
              githubRepo := Some(value);
            } else if key == "website" {
              website := Some(value);
            }
          }
        }
        assert lines[..|lines|] == lines;
      }
    }
    p := Preserved(date, githubRepo, website);
  }

  /** One iteration of the save handler's extraction loop. */
  function Keep(p: Preserved, l: string): Preserved {
    Record(p, LineField(SaveReader, l))
  }

  function Record(p: Preserved, e: Setting): Preserved {
    match e
    case None => p
    case Some((f, v)) =>
      if f == Date then p.(date := Some(v))
      else if f == GithubRepo then p.(githubRepo := Some(v))
      else if f == Website then p.(website := Some(v))
      else p
  }

  /** `Keep` spelled out as the extraction loop's `if` chain. */
  lemma KeepLine(p: Preserved, line: string)
    ensures Keep(p, line) ==
      match KeyValue(line)
      case None => p
      case Some((key, value)) =>
        if key == "date" then p.(date := Some(value))
        else if key == "github_repo" then p.(githubRepo := Some(value))
        else if key == "website" then p.(website := Some(value))
        else p
  {
  }

  lemma SavedFieldsSnoc(ls: seq<string>, l: string)
    ensures SavedFields(ls + [l]) == Keep(SavedFields(ls), l)
  {
    assert (ls + [l])[..|ls|] == ls;
  }

  /** The extraction loop keeps the last `date`, `github_repo` and `website` line. */
  lemma {:induction false} SavedFieldsLastWins(ls: seq<string>)
    ensures SavedFields(ls) == PreservedFrom(Settings(SaveReader, ls))
  {
    if ls != [] {
      var init, l := ls[..|ls| - 1], ls[|ls| - 1];
      SavedFieldsLastWins(init);
      assert ls == init + [l];
      var es, e := Settings(SaveReader, init), LineField(SaveReader, l);
      SettingsSnoc(SaveReader, init, l);
      LastValueSnoc(es, e, Date);
      LastValueSnoc(es, e, GithubRepo);
      LastValueSnoc(es, e, Website);
    }
  }

  /** For a file that starts with its fence, both readers see the same
      block, so they agree on the date and the linked repository. The save
      reader looks only for `website`, where the page reader also takes
      `homepage`. */
  lemma ReadersAgree(content: string)
    requires StartsWith(content, Fence)
    ensures Parse(content).Some? <==> StrictFrontMatter(content).Some?
    ensures Parse(content).Some? ==>
      && PreservedOf(Some(content)).date.GetOr([]) == Parse(content).value.date
      && PreservedOf(Some(content)).githubRepo == Parse(content).value.githubRepo
  {
    assert content == [] + Fence + content[|Fence|..];
    assert forall j :: 0 <= j < 0 ==> !MatchAt(content, Fence, j);
    SplitOnceStrAt([], Fence, content[|Fence|..]);
    if Parse(content).Some? {
      var ls := Lines(SplitFence3(content)[1]);
      MetadataOfLastWins(ls);
      SavedFieldsLastWins(ls);
      SameField(ls, Date);
      SameField(ls, GithubRepo);
    }
  }

  /** Both readers take the same keys for the date and the repository. */
  lemma {:induction false} SameField(ls: seq<string>, f: Field)
    requires f == Date || f == GithubRepo
    ensures LastValue(Settings(SaveReader, ls), f) == LastValue(Settings(PageReader, ls), f)
  {
    if ls != [] {
      var init, l := ls[..|ls| - 1], ls[|ls| - 1];
      SameField(init, f);
      assert ls == init + [l];
      SettingsSnoc(SaveReader, init, l);
      SettingsSnoc(PageReader, init, l);
      SameKey(l, f);
      LastValueSnoc(Settings(SaveReader, init), LineField(SaveReader, l), f);
      LastValueSnoc(Settings(PageReader, init), LineField(PageReader, l), f);
    }
  }

  lemma SameKey(l: string, f: Field)
    requires f == Date || f == GithubRepo
    ensures SetsField(LineField(SaveReader, l), f) <==> SetsField(LineField(PageReader, l), f)
    ensures SetsField(LineField(SaveReader, l), f) ==>
      LineField(SaveReader, l).value.1 == LineField(PageReader, l).value.1
  {
    match KeyValue(l)
    case None =>
    case Some((key, _)) => SameFieldOf(key, f);
  }

  lemma SameFieldOf(key: string, f: Field)
    requires f == Date || f == GithubRepo
    ensures FieldOf(SaveReader, key) == Some(f) <==> FieldOf(PageReader, key) == Some(f)
  {
  }

  /** A `homepage` line is read by the page reader and ignored by the save reader. */
  lemma HomepageOnlyForPages(x: string)
    requires Bare(x, Exactly('"'))
    ensures LineField(PageReader, Entry("homepage", Quoted(x))) == Some((Website, x))
    ensures LineField(SaveReader, Entry("homepage", Quoted(x))) == None
  {
    QuotedLine(PageReader, "homepage", x);
    QuotedLine(SaveReader, "homepage", x);
    HomepageKey();
  }

  lemma HomepageKey()
    ensures FieldOf(PageReader, "homepage") == Some(Website)
    ensures FieldOf(SaveReader, "homepage") == None
    ensures PlainKey("homepage")
  {
  }

  // ---------------------------------------------------------------------
  // Reading line by line
  // ---------------------------------------------------------------------

  /** The page reader's loop from a given starting value, first line first. */
  function ApplyLines(m: Metadata, ls: seq<string>): Metadata
    decreases |ls|
  {
    if ls == [] then m else ApplyLines(ApplyLine(m, ls[0]), ls[1..])
  }

  /** The save handler's loop from a given starting value. */
  function KeepLines(p: Preserved, ls: seq<string>): Preserved
    decreases |ls|
  {
    if ls == [] then p else KeepLines(Keep(p, ls[0]), ls[1..])
  }

  /** Reading further lines continues from what the earlier ones gave. */
  lemma {:induction false} MetadataOfFold(q: seq<string>, ls: seq<string>)
    ensures MetadataOf(q + ls) == ApplyLines(MetadataOf(q), ls)
    decreases |ls|
  {
    if ls == [] {
      assert q + ls == q;
    } else {
      MetadataOfSnoc(q, ls[0]);
      assert q + ls == (q + [ls[0]]) + ls[1..];
      MetadataOfFold(q + [ls[0]], ls[1..]);
    }
  }

  lemma {:induction false} PreservedFold(q: seq<string>, ls: seq<string>)
    ensures SavedFields(q + ls) == KeepLines(SavedFields(q), ls)
    decreases |ls|
  {
    if ls == [] {
      assert q + ls == q;
    } else {
      SavedFieldsSnoc(q, ls[0]);
      assert q + ls == (q + [ls[0]]) + ls[1..];
      PreservedFold(q + [ls[0]], ls[1..]);
    }
  }

  lemma ApplyLinesCons(m: Metadata, l: string, ls: seq<string>)
    ensures ApplyLines(m, [l] + ls) == ApplyLines(ApplyLine(m, l), ls)
  {
    assert ([l] + ls)[1..] == ls;
  }

  lemma KeepLinesCons(p: Preserved, l: string, ls: seq<string>)
    ensures KeepLines(p, [l] + ls) == KeepLines(Keep(p, l), ls)
  {
    assert ([l] + ls)[1..] == ls;
  }

  /** A written `key: "x"` line sets the key's field to `x`. */
  lemma QuotedLine(reader: Reader, key: string, x: string)
    requires PlainKey(key) && Bare(x, Exactly('"'))
    ensures LineField(reader, Entry(key, Quoted(x))) ==
      match FieldOf(reader, key) case None => None case Some(f) => Some((f, x))
  {
    QuotedEntry(key, x);
  }

  lemma ApplyQuoted(m: Metadata, key: string, x: string, f: Field)
    requires PlainKey(key) && Bare(x, Exactly('"'))
    requires FieldOf(PageReader, key) == Some(f) && f != Tags
    ensures ApplyLine(m, Entry(key, Quoted(x))) == Assign(m, f, x)
  {
    QuotedLine(PageReader, key, x);
  }

  lemma ApplyTagsCons(m: Metadata, ts: seq<string>, rest: seq<string>)
    requires ts != [] && forall i :: 0 <= i < |ts| ==> ReadsBack(ts[i])
    ensures ApplyLines(m, [Entry("tags", TagsRaw(ts))] + rest) == ApplyLines(m.(tags := NonEmpty(ts)), rest)
  {
    ApplyLinesCons(m, Entry("tags", TagsRaw(ts)), rest);
    ApplyTags(m, ts);
  }

  /** `key: "value"` lines, one per pair. */
  function QuotedLines(ws: seq<(string, string)>): (r: seq<string>)
    ensures |r| == |ws|
  {
    if ws == [] then [] else [Entry(ws[0].0, Quoted(ws[0].1))] + QuotedLines(ws[1..])
  }

  /** Pairs whose lines read back as written. */
  predicate Readable(ws: seq<(string, string)>) {
    forall i :: 0 <= i < |ws| ==> PlainKey(ws[i].0) && Bare(ws[i].1, Exactly('"'))
  }

  /** What a reader makes of a written pair. */
  function PairSetting(reader: Reader, w: (string, string)): Setting {
    match FieldOf(reader, w.0)
    case None => None
    case Some(f) => Some((f, w.1))
  }

  function StepAll(m: Metadata, ws: seq<(string, string)>): Metadata
    decreases |ws|
  {
    if ws == [] then m else StepAll(Step(m, PairSetting(PageReader, ws[0])), ws[1..])
  }

  function RecordAll(p: Preserved, ws: seq<(string, string)>): Preserved
    decreases |ws|
  {
    if ws == [] then p else RecordAll(Record(p, PairSetting(SaveReader, ws[0])), ws[1..])
  }

  lemma StepAllCons(m: Metadata, w: (string, string), ws: seq<(string, string)>)
    ensures StepAll(m, [w] + ws) == StepAll(Step(m, PairSetting(PageReader, w)), ws)
  {
    assert ([w] + ws)[1..] == ws;
  }

  lemma RecordAllCons(p: Preserved, w: (string, string), ws: seq<(string, string)>)
    ensures RecordAll(p, [w] + ws) == RecordAll(Record(p, PairSetting(SaveReader, w)), ws)
  {
    assert ([w] + ws)[1..] == ws;
  }

  /** The page reader's loop over written pairs settles each pair in turn. */
  lemma {:induction false} ApplyQuotedLines(m: Metadata, ws: seq<(string, string)>, rest: seq<string>)
    requires Readable(ws)
    ensures ApplyLines(m, QuotedLines(ws) + rest) == ApplyLines(StepAll(m, ws), rest)
    decreases |ws|
  {
    if ws == [] {
      assert QuotedLines(ws) + rest == rest;
    } else {
      var l := Entry(ws[0].0, Quoted(ws[0].1));
      assert QuotedLines(ws) + rest == [l] + (QuotedLines(ws[1..]) + rest);
      ApplyLinesCons(m, l, QuotedLines(ws[1..]) + rest);
      QuotedLine(PageReader, ws[0].0, ws[0].1);
      assert Readable(ws[1..]) by {
        forall i | 0 <= i < |ws[1..]| ensures PlainKey(ws[1..][i].0) && Bare(ws[1..][i].1, Exactly('"')) {
          assert ws[1..][i] == ws[i + 1];
        }
      }
      ApplyQuotedLines(Step(m, PairSetting(PageReader, ws[0])), ws[1..], rest);
    }
  }

  /** The same for the save handler's loop. */
  lemma {:induction false} KeepQuotedLines(p: Preserved, ws: seq<(string, string)>, rest: seq<string>)
    requires Readable(ws)
    ensures KeepLines(p, QuotedLines(ws) + rest) == KeepLines(RecordAll(p, ws), rest)
    decreases |ws|
  {
    if ws == [] {
      assert QuotedLines(ws) + rest == rest;
    } else {
      var l := Entry(ws[0].0, Quoted(ws[0].1));
      assert QuotedLines(ws) + rest == [l] + (QuotedLines(ws[1..]) + rest);
      KeepLinesCons(p, l, QuotedLines(ws[1..]) + rest);
      QuotedLine(SaveReader, ws[0].0, ws[0].1);
      assert Readable(ws[1..]) by {
        forall i | 0 <= i < |ws[1..]| ensures PlainKey(ws[1..][i].0) && Bare(ws[1..][i].1, Exactly('"')) {
          assert ws[1..][i] == ws[i + 1];
        }
      }
      KeepQuotedLines(Record(p, PairSetting(SaveReader, ws[0])), ws[1..], rest);
    }
  }

  /** The lines of writable pairs are writable. */
  lemma {:induction false} QuotedLinesWritable(ws: seq<(string, string)>)
    requires forall i :: 0 <= i < |ws| ==> PlainKey(ws[i].0) && Quotable(ws[i].1)
    ensures forall i :: 0 <= i < |ws| ==> Writable(QuotedLines(ws)[i])
    decreases |ws|
  {
    if ws != [] {
      QuotedWritable(ws[0].0, ws[0].1);
      assert forall i :: 0 <= i < |ws[1..]| ==> PlainKey(ws[1..][i].0) && Quotable(ws[1..][i].1) by {
        forall i | 0 <= i < |ws[1..]| ensures PlainKey(ws[1..][i].0) && Quotable(ws[1..][i].1) {
          assert ws[1..][i] == ws[i + 1];
        }
      }
      QuotedLinesWritable(ws[1..]);
      forall i | 0 <= i < |ws| ensures Writable(QuotedLines(ws)[i]) {
        if i > 0 {
          assert QuotedLines(ws)[i] == QuotedLines(ws[1..])[i - 1];
        }
      }
    }
  }

  lemma KeepTagsCons(p: Preserved, raw: string, rest: seq<string>)
    ensures KeepLines(p, [Entry("tags", raw)] + rest) == KeepLines(p, rest)
  {
    KeepLinesCons(p, Entry("tags", raw), rest);
    KeepTags(p, raw);
  }

  /** The layout both writers use: quoted entries, a tag list, then more
      quoted entries. */
  function Layout(head: seq<(string, string)>, ts: seq<string>, rest: seq<(string, string)>): seq<string> {
    QuotedLines(head) + [Entry("tags", TagsRaw(ts))] + QuotedLines(rest)
  }

  /** The page reader settles the head, then the tags, then the rest. */
  lemma ApplyLayout(head: seq<(string, string)>, ts: seq<string>, rest: seq<(string, string)>)
    requires Readable(head) && Readable(rest)
    requires ts != [] && forall i :: 0 <= i < |ts| ==> ReadsBack(ts[i])
    ensures ApplyLines(Empty, Layout(head, ts, rest)) == StepAll(StepAll(Empty, head).(tags := NonEmpty(ts)), rest)
  {
    ApplyAround(Empty, head, Entry("tags", TagsRaw(ts)), rest);
    ApplyTags(StepAll(Empty, head), ts);
  }

  /** The page reader over quoted pairs around one other line. */
  lemma ApplyAround(m: Metadata, head: seq<(string, string)>, l: string, rest: seq<(string, string)>)
    requires Readable(head) && Readable(rest)
    ensures ApplyLines(m, QuotedLines(head) + [l] + QuotedLines(rest)) == StepAll(ApplyLine(StepAll(m, head), l), rest)
  {
    var b := QuotedLines(rest);
    assert QuotedLines(head) + [l] + b == QuotedLines(head) + ([l] + b);
    ApplyQuotedLines(m, head, [l] + b);
    ApplyLinesCons(StepAll(m, head), l, b);
    ApplyQuotedLines(ApplyLine(StepAll(m, head), l), rest, []);
    assert b + [] == b;
  }

  /** The save reader records the head, skips the tags, then records the rest. */
  lemma KeepLayout(head: seq<(string, string)>, ts: seq<string>, rest: seq<(string, string)>)
    requires Readable(head) && Readable(rest)
    ensures KeepLines(NothingPreserved, Layout(head, ts, rest)) == RecordAll(RecordAll(NothingPreserved, head), rest)
  {
    KeepAround(NothingPreserved, head, Entry("tags", TagsRaw(ts)), rest);
    KeepTags(RecordAll(NothingPreserved, head), TagsRaw(ts));
  }

  /** The save reader over quoted pairs around one other line. */
  lemma KeepAround(p: Preserved, head: seq<(string, string)>, l: string, rest: seq<(string, string)>)
    requires Readable(head) && Readable(rest)
    ensures KeepLines(p, QuotedLines(head) + [l] + QuotedLines(rest)) == RecordAll(Keep(RecordAll(p, head), l), rest)
  {
    var b := QuotedLines(rest);
    assert QuotedLines(head) + [l] + b == QuotedLines(head) + ([l] + b);
    KeepQuotedLines(p, head, [l] + b);
    KeepLinesCons(RecordAll(p, head), l, b);
    KeepQuotedLines(Keep(RecordAll(p, head), l), rest, []);
    assert b + [] == b;
  }

  /** The keys the writers use, as both readers take them. */
  lemma WriterKeys()
    ensures PlainKey("title") && PlainKey("date") && PlainKey("tags") && PlainKey("summary")
    ensures PlainKey("author") && PlainKey("keywords") && PlainKey("github_repo") && PlainKey("website")
  {
    LowerKey("title");
    LowerKey("date");
    LowerKey("tags");
    LowerKey("summary");
    LowerKey("author");
    LowerKey("keywords");
    LowerKey("github_repo");
    LowerKey("website");
  }

  /** A key of lowercase letters and underscores is plain. */
  lemma LowerKey(key: string)
    requires forall i :: 0 <= i < |key| ==> 'a' <= key[i] <= 'z' || key[i] == '_'
    ensures PlainKey(key)
  {
  }

  lemma PageKeys()
    ensures FieldOf(PageReader, "title") == Some(Title) && FieldOf(PageReader, "date") == Some(Date)
    ensures FieldOf(PageReader, "summary") == Some(Summary) && FieldOf(PageReader, "author") == Some(Author)
    ensures FieldOf(PageReader, "keywords") == Some(Keywords)
    ensures FieldOf(PageReader, "github_repo") == Some(GithubRepo)
    ensures FieldOf(PageReader, "website") == Some(Website)
  {
  }

  lemma SaveKeys()
    ensures FieldOf(SaveReader, "title") == None && FieldOf(SaveReader, "date") == Some(Date)
    ensures FieldOf(SaveReader, "summary") == None && FieldOf(SaveReader, "author") == None
    ensures FieldOf(SaveReader, "keywords") == None
    ensures FieldOf(SaveReader, "github_repo") == Some(GithubRepo)
    ensures FieldOf(SaveReader, "website") == Some(Website)
  {
  }

  /** A written tag list sets the tags to its non-empty entries. */
  lemma ApplyTags(m: Metadata, ts: seq<string>)
    requires ts != [] && forall i :: 0 <= i < |ts| ==> ReadsBack(ts[i])
    ensures ApplyLine(m, Entry("tags", TagsRaw(ts))) == m.(tags := NonEmpty(ts))
  {
    var v := TagsRaw(ts);
    TagsRoundTrip(ts);
    TagsLine(v);
    assert RawValue(v) == v;
    StepTags(m, v);
  }

  lemma StepTags(m: Metadata, v: string)
    ensures Step(m, Some((Tags, v))) == m.(tags := TagList(v))
  {
  }

  lemma TagsLine(raw: string)
    ensures LineField(PageReader, Entry("tags", raw)) == Some((Tags, RawValue(raw)))
  {
    TagsKey(raw);
  }

  /** The save handler ignores the tags line. */
  lemma KeepTags(p: Preserved, raw: string)
    ensures Keep(p, Entry("tags", raw)) == p
  {
    TagsKey(raw);
  }

  lemma TagsKey(raw: string)
    ensures KeyValue(Entry("tags", raw)) == Some(("tags", RawValue(raw)))
  {
    EntryKeyValue("tags", raw);
  }

  // ---------------------------------------------------------------------
  // Writing
  // ---------------------------------------------------------------------

  /** The writers' line format `key: raw`. */
  function Entry(key: string, raw: string): string {
    key + ": " + raw
  }

  /** `"x"`, as the writers' templates put a value. */
  function Quoted(x: string): string {
    "\"" + x + "\""
  }

  /** The quoted tags, joined by ", ". */
  function QuotedList(ts: seq<string>): string
    decreases |ts|
  {
    if |ts| == 0 then [] else if |ts| == 1 then Quoted(ts[0]) else Quoted(ts[0]) + ", " + QuotedList(ts[1..])
  }

  /** A tag list as the writers produce it: `["a", "b"]`. */
  function TagsRaw(ts: seq<string>): string {
    "[" + QuotedList(ts) + "]"
  }

  /** The text between the two fences: a line break, then one line per entry. */
  function Block(ls: seq<string>): string {
    "\n" + JoinLines(ls)
  }

  /** A front-matter file: `---`, the entry lines, `---`, then the body. */
  function Document(ls: seq<string>, body: string): string {
    Fence + Block(ls) + Fence + body
  }

  /** A line a writer may emit: one line, kept by `lines()`, with no fence in it. */
  predicate Writable(l: string) {
    PlainLine(l) && Free(l, Fence)
  }

  /** A key the writers use: no ':', no '-', no whitespace at either end. */
  predicate PlainKey(key: string) {
    ':' !in key && '\n' !in key && '-' !in key && Bare(key, Whitespace)
  }

  /** A value a writer may quote: one line, no fence, no '"' at either end. */
  predicate Quotable(x: string) {
    '\n' !in x && Free(x, Fence) && Bare(x, Exactly('"'))
  }

  /** A tag the tag-list reader gives back unchanged once quoted. */
  predicate ReadsBack(t: string) {
    ',' !in t && Bare(t, Exactly('"')) && Bare(t, Exactly('\''))
  }

  /** A tag a writer may emit. */
  predicate SafeTag(t: string) {
    Quotable(t) && ReadsBack(t)
  }

  /** What the reader makes of the raw text after `key:`. */
  function RawValue(raw: string): string {
    Trim(Trim(" " + raw, Whitespace), Exactly('"'))
  }

  lemma FreeShort(s: string)
    requires |s| < 3 || '-' !in s
    ensures Free(s, Fence)
  {
    forall k | 0 <= k <= |s| - 3 ensures !MatchAt(s, Fence, k) {
      assert s[k..k + 3][0] == s[k];
    }
  }

  /** Gluing two fence-free pieces creates no fence when one of the two
      touching characters is not a dash: every window across the joint
      holds both of them. */
  lemma FreeGlue(a: string, b: string)
    requires Free(a, Fence) && Free(b, Fence)
    requires a == [] || b == [] || a[|a| - 1] != '-' || b[0] != '-'
    ensures Free(a + b, Fence)
  {
    var s := a + b;
    forall k | 0 <= k <= |s| - 3 ensures !MatchAt(s, Fence, k) {
      if k + 3 <= |a| {
        assert s[k..k + 3] == a[k..k + 3];
        assert !MatchAt(a, Fence, k);
      } else if k >= |a| {
        assert s[k..k + 3] == b[k - |a|..k - |a| + 3];
        assert !MatchAt(b, Fence, k - |a|);
      } else {
        Straddle(a, b, k);
      }
    }
  }

  /** A window across the joint holds the last character of `a` and the
      first of `b`. */
  lemma Straddle(a: string, b: string, k: int)
    requires 0 <= k < |a| < k + 3 <= |a| + |b|
    requires a[|a| - 1] != '-' || b[0] != '-'
    ensures !MatchAt(a + b, Fence, k)
  {
    var s := a + b;
    assert s[|a| - 1] == a[|a| - 1];
    assert s[|a|] == b[0];
    var w := s[k..k + 3];
    assert w[|a| - 1 - k] == s[|a| - 1];
    assert w[|a| - k] == s[|a|];
  }

  lemma {:induction false} JoinLinesShape(ls: seq<string>)
    requires forall i :: 0 <= i < |ls| ==> Writable(ls[i])
    ensures Free(JoinLines(ls), Fence)
    ensures ls != [] ==> JoinLines(ls)[|JoinLines(ls)| - 1] == '\n'
  {
    if ls == [] {
      FreeShort([]);
    } else {
      JoinLinesShape(ls[1..]);
      FreeShort("\n");
      FreeGlue(ls[0], "\n");
      FreeGlue(ls[0] + "\n", JoinLines(ls[1..]));
    }
  }

  lemma BlockShape(ls: seq<string>)
    requires forall i :: 0 <= i < |ls| ==> Writable(ls[i])
    ensures Free(Block(ls), Fence) && Block(ls) != [] && Block(ls)[|Block(ls)| - 1] == '\n'
  {
    JoinLinesShape(ls);
    FreeShort("\n");
    FreeGlue("\n", JoinLines(ls));
  }

  /** After a fence-free block that ends a line, the next fence is the first one. */
  lemma FenceAfterBlock(mid: string, body: string)
    requires Free(mid, Fence) && mid != [] && mid[|mid| - 1] == '\n'
    ensures SplitOnceStr(mid + Fence + body, Fence) == Some((mid, body))
  {
    forall j | 0 <= j < |mid| ensures !MatchAt(mid + Fence + body, Fence, j) {
      NoFenceBefore(mid, Fence + body, j);
    }
    SplitOnceStrAt(mid, Fence, body);
    assert mid + Fence + body == mid + (Fence + body);
  }

  /** No fence starts inside a fence-free text that ends a line. */
  lemma NoFenceBefore(mid: string, tail: string, j: int)
    requires Free(mid, Fence) && mid != [] && mid[|mid| - 1] == '\n' && 0 <= j < |mid|
    ensures !MatchAt(mid + tail, Fence, j)
  {
    var rest := mid + tail;
    if j + 3 <= |mid| {
      assert rest[j..j + 3] == mid[j..j + 3];
      assert !MatchAt(mid, Fence, j);
    } else if j + 3 <= |rest| {
      assert rest[j..j + 3][|mid| - 1 - j] == '\n';
      assert Fence[|mid| - 1 - j] == '-';
    }
  }

  lemma DocumentShape(ls: seq<string>, body: string)
    ensures Document(ls, body) == [] + Fence + (Block(ls) + Fence + body)
    ensures Document(ls, body)[|Fence|..] == Block(ls) + Fence + body
  {
  }

  /** The two fences of a written file are the first two the reader finds. */
  lemma DocumentSplits(ls: seq<string>, body: string)
    requires forall i :: 0 <= i < |ls| ==> Writable(ls[i])
    ensures SplitFence3(Document(ls, body)) == [[], Block(ls), body]
    ensures StrictFrontMatter(Document(ls, body)) == Some(Block(ls))
  {
    var rest := Block(ls) + Fence + body;
    DocumentShape(ls, body);
    SplitOnceStrAt([], Fence, rest);
    BlockShape(ls);
    FenceAfterBlock(Block(ls), body);
  }

  lemma LinesOfBlock(ls: seq<string>)
    requires forall i :: 0 <= i < |ls| ==> Writable(ls[i])
    ensures Lines(Block(ls)) == [[]] + ls
  {
    LinesAfterNewline(JoinLines(ls));
    LinesOfJoinLines(ls);
  }

  /** The empty line after the opening fence sets nothing. */
  lemma AfterBlank(ls: seq<string>)
    ensures MetadataOf([[]] + ls) == MetadataOf(ls)
    ensures SavedFields([[]] + ls) == SavedFields(ls)
  {
    MetadataOfFold([[]], ls);
    MetadataOfFold([], ls);
    PreservedFold([[]], ls);
    PreservedFold([], ls);
    assert [] + ls == ls;
    var blank: seq<string> := [[]];
    assert blank[..0] == [];
  }

  /** A written file reads back as its lines, and its body is what follows
      the closing fence. */
  lemma ParseDocument(ls: seq<string>, body: string)
    requires forall i :: 0 <= i < |ls| ==> Writable(ls[i])
    ensures Parse(Document(ls, body)) == Some(MetadataOf(ls))
    ensures Body(Document(ls, body)) == body
  {
    var d := Document(ls, body);
    assert SplitFence3(d) == [[], Block(ls), body] by { DocumentSplits(ls, body); }
    assert Lines(Block(ls)) == [[]] + ls by { LinesOfBlock(ls); }
    ParseOfParts(d, Block(ls), ls);
  }

  /** Content whose front matter reads as a blank line then `ls` parses as `ls`. */
  lemma ParseOfParts(content: string, mid: string, ls: seq<string>)
    requires |SplitFence3(content)| == 3 && SplitFence3(content)[1] == mid
    requires Lines(mid) == [[]] + ls
    ensures Parse(content) == Some(MetadataOf(ls))
  {
    AfterBlank(ls);
  }

  /** The save handler reads a written file's date, repository and website back. */
  lemma PreservedDocument(ls: seq<string>, body: string)
    requires forall i :: 0 <= i < |ls| ==> Writable(ls[i])
    ensures PreservedOf(Some(Document(ls, body))) == SavedFields(ls)
  {
    var d := Document(ls, body);
    assert StrictFrontMatter(d) == Some(Block(ls)) by { DocumentSplits(ls, body); }
    assert Lines(Block(ls)) == [[]] + ls by { LinesOfBlock(ls); }
    PreservedOfParts(d, Block(ls), ls);
  }

  /** Content whose strict front matter reads as a blank line then `ls`
      preserves what `ls` records. */
  lemma PreservedOfParts(content: string, mid: string, ls: seq<string>)
    requires StrictFrontMatter(content) == Some(mid)
    requires Lines(mid) == [[]] + ls
    ensures PreservedOf(Some(content)) == SavedFields(ls)
  {
    AfterBlank(ls);
  }

  lemma TrimQuoted(x: string)
    requires Bare(x, Exactly('"'))
    ensures Trim(Quoted(x), Exactly('"')) == x
  {
    assert Quoted(x) == "\"" + (x + "\"");
    TrimStartPast("\"", x + "\"", Exactly('"'));
    if x == [] {
      assert x + "\"" == "\"";
    } else {
      assert (x + "\"")[0] == x[0];
      assert TrimStart(x + "\"", Exactly('"')) == x + "\"";
      TrimEndPast(x, "\"", Exactly('"'));
      assert x[..|x|] == x;
    }
  }

  /** A quoted value reads back as itself. */
  lemma QuotedValue(sp: string, x: string)
    requires Within(sp, Whitespace)
    requires Bare(x, Exactly('"'))
    ensures Trim(Trim(sp + Quoted(x), Whitespace), Exactly('"')) == x
  {
    TrimAfterSpace(sp, Quoted(x), Whitespace);
    TrimQuoted(x);
  }

  lemma EntryKeyValue(key: string, raw: string)
    requires PlainKey(key)
    ensures KeyValue(Entry(key, raw)) == Some((key, RawValue(raw)))
  {
    assert Entry(key, raw) == key + [':'] + (" " + raw);
    SplitOnceAt(key, ':', " " + raw);
    TrimBare(key, Whitespace);
  }

  /** `key: "x"` sets the key's field to `x`. */
  lemma QuotedEntry(key: string, x: string)
    requires PlainKey(key) && Bare(x, Exactly('"'))
    ensures KeyValue(Entry(key, Quoted(x))) == Some((key, x))
  {
    EntryKeyValue(key, Quoted(x));
    QuotedValue(" ", x);
  }

  /** A value with a '"' at either end does not survive quoting: the reader
      strips every surrounding double quote, so `key: "x"` reads back as
      something other than `x` (a title `Say "hi"` comes back as `Say "hi`). */
  lemma QuoteLost(key: string, x: string)
    requires PlainKey(key) && x != [] && (x[0] == '"' || x[|x| - 1] == '"')
    ensures KeyValue(Entry(key, Quoted(x))).Some?
    ensures KeyValue(Entry(key, Quoted(x))).value.1 != x
  {
    EntryKeyValue(key, Quoted(x));
  }

  /** The same for the title a writer puts in a post. */
  lemma TitleQuoteLost(m: Metadata, x: string)
    requires x != [] && (x[0] == '"' || x[|x| - 1] == '"')
    ensures ApplyLine(m, Entry("title", Quoted(x))).title != x
  {
    WriterKeys();
    QuoteLost("title", x);
    EntryKeyValue("title", Quoted(x));
    TitleLine(m, Entry("title", Quoted(x)), RawValue(Quoted(x)));
  }

  lemma TitleLine(m: Metadata, l: string, v: string)
    requires KeyValue(l) == Some(("title", v))
    ensures ApplyLine(m, l).title == v
  {
    PageKeys();
  }

  lemma QuotedFree(x: string)
    requires Free(x, Fence)
    ensures Free(Quoted(x), Fence)
  {
    FreeShort("\"");
    FreeGlue("\"", x);
    FreeGlue("\"" + x, "\"");
  }

  lemma EntryWritable(key: string, raw: string)
    requires PlainKey(key) && '\n' !in raw && Free(raw, Fence)
    requires raw != [] && raw[|raw| - 1] != '\r'
    ensures Writable(Entry(key, raw))
  {
    FreeShort(key);
    FreeShort(": ");
    FreeGlue(key, ": ");
    FreeGlue(key + ": ", raw);
  }

  lemma QuotedWritable(key: string, x: string)
    requires PlainKey(key) && Quotable(x)
    ensures Writable(Entry(key, Quoted(x)))
  {
    QuotedFree(x);
    EntryWritable(key, Quoted(x));
  }

  lemma {:induction false} QuotedListShape(ts: seq<string>)
    requires forall i :: 0 <= i < |ts| ==> Quotable(ts[i])
    ensures '\n' !in QuotedList(ts) && Free(QuotedList(ts), Fence)
    ensures ts != [] ==> QuotedList(ts)[0] == '"' && QuotedList(ts)[|QuotedList(ts)| - 1] == '"'
    decreases |ts|
  {
    if |ts| == 0 {
      FreeShort([]);
    } else {
      QuotedFree(ts[0]);
      if |ts| > 1 {
        QuotedListShape(ts[1..]);
        FreeShort(", ");
        FreeGlue(Quoted(ts[0]), ", ");
        FreeGlue(Quoted(ts[0]) + ", ", QuotedList(ts[1..]));
      }
    }
  }

  lemma TagsWritable(ts: seq<string>)
    requires forall i :: 0 <= i < |ts| ==> Quotable(ts[i])
    ensures Writable(Entry("tags", TagsRaw(ts)))
  {
    QuotedListShape(ts);
    FreeShort("[");
    FreeShort("]");
    FreeGlue("[", QuotedList(ts));
    FreeGlue("[" + QuotedList(ts), "]");
    EntryWritable("tags", TagsRaw(ts));
  }

  lemma CleanTagOf(sp: string, t: string)
    requires Within(sp, Whitespace) && Bare(t, Exactly('"')) && Bare(t, Exactly('\''))
    ensures CleanTag(sp + Quoted(t)) == t
  {
    QuotedValue(sp, t);
    TrimBare(t, Exactly('\''));
  }

  lemma CleanTagsAppend(a: seq<string>, b: seq<string>)
    ensures CleanTags(a + b) == CleanTags(a) + CleanTags(b)
  {
  }

  lemma CleanPiece(sp: string, t: string)
    requires Within(sp, Whitespace) && ',' !in t
    ensures Clean(sp + Quoted(t), Exactly(','))
  {
    var s := sp + Quoted(t);
    forall i | 0 <= i < |s| ensures s[i] != ',' {
      if i < |sp| {
        assert s[i] == sp[i];
      } else if i == |sp| || i == |s| - 1 {
      } else {
        assert s[i] == t[i - |sp| - 1];
      }
    }
  }

  /** The pieces of a written tag list clean up to the tags themselves. */
  lemma {:induction false} TagPieces(sp: string, ts: seq<string>)
    requires Within(sp, Whitespace) && ts != []
    requires forall i :: 0 <= i < |ts| ==> ReadsBack(ts[i])
    ensures CleanTags(Split(sp + QuotedList(ts), ',')) == ts
    decreases |ts|
  {
    if |ts| == 1 {
      TagPiecesOne(sp, ts[0]);
      assert ts == [ts[0]];
    } else {
      var rest := ts[1..];
      ReadsBackTail(ts);
      SpaceWithin();
      TagPieces(" ", rest);
      TagPiecesCons(sp, ts[0], rest);
      assert ts == [ts[0]] + rest;
    }
  }

  lemma ReadsBackTail(ts: seq<string>)
    requires ts != [] && forall i :: 0 <= i < |ts| ==> ReadsBack(ts[i])
    ensures ReadsBack(ts[0]) && forall i :: 0 <= i < |ts[1..]| ==> ReadsBack(ts[1..][i])
  {
    forall i | 0 <= i < |ts[1..]| ensures ReadsBack(ts[1..][i]) {
      assert ts[1..][i] == ts[i + 1];
    }
  }

  lemma SpaceWithin()
    ensures Within(" ", Whitespace)
  {
    assert IsWhitespace(' ');
  }

  /** A list of one tag is one piece. */
  lemma TagPiecesOne(sp: string, t: string)
    requires Within(sp, Whitespace) && ReadsBack(t)
    ensures CleanTags(Split(sp + QuotedList([t]), ',')) == [t]
  {
    var head := sp + Quoted(t);
    CleanPiece(sp, t);
    CleanTagOf(sp, t);
    assert QuotedList([t]) == Quoted(t);
    FieldsOfClean(head, Exactly(','));
  }

  /** One more tag in front of a list whose pieces clean up to its tags. */
  lemma TagPiecesCons(sp: string, t: string, rest: seq<string>)
    requires Within(sp, Whitespace) && ReadsBack(t) && rest != []
    requires CleanTags(Split(" " + QuotedList(rest), ',')) == rest
    ensures CleanTags(Split(sp + QuotedList([t] + rest), ',')) == [t] + rest
  {
    var head := sp + Quoted(t);
    var tail := " " + QuotedList(rest);
    CleanPiece(sp, t);
    CleanTagOf(sp, t);
    assert ([t] + rest)[1..] == rest;
    assert QuotedList([t] + rest) == Quoted(t) + ", " + QuotedList(rest);
    CommaJoint(sp, Quoted(t), QuotedList(rest));
    FieldsAfterSeparator(head, ',', tail, Exactly(','));
    CleanTagsAppend([head], Split(tail, ','));
  }

  lemma CommaJoint(sp: string, a: string, b: string)
    ensures sp + (a + ", " + b) == (sp + a) + [','] + (" " + b)
  {
    assert ", " == [','] + " ";
  }

  /** The tag list without its brackets. */
  lemma TagsRawTrim(ts: seq<string>)
    requires ts != []
    ensures Trim(TagsRaw(ts), Either('[', ']')) == QuotedList(ts)
  {
    var q := QuotedList(ts);
    QuotedListEnds(ts);
    assert TagsRaw(ts) == "[" + (q + "]");
    TrimStartPast("[", q + "]", Either('[', ']'));
    assert (q + "]")[0] == q[0];
    assert TrimStart(q + "]", Either('[', ']')) == q + "]";
    TrimEndPast(q, "]", Either('[', ']'));
    assert q[..|q|] == q;
  }

  lemma QuotedListEnds(ts: seq<string>)
    requires ts != []
    ensures QuotedList(ts) != [] && QuotedList(ts)[0] == '"' && QuotedList(ts)[|QuotedList(ts)| - 1] == '"'
  {
    if |ts| > 1 {
      QuotedListEnds(ts[1..]);
    }
  }

  /** The reader takes a written tag list as it stands. */
  lemma TagsEntry(ts: seq<string>)
    requires ts != []
    ensures KeyValue(Entry("tags", TagsRaw(ts))) == Some(("tags", TagsRaw(ts)))
  {
    QuotedListEnds(ts);
    EntryKeyValue("tags", TagsRaw(ts));
    TrimAfterSpace(" ", TagsRaw(ts), Whitespace);
    TrimBare(TagsRaw(ts), Exactly('"'));
  }

  /** A written tag list reads back as its non-empty tags. */
  lemma TagsRoundTrip(ts: seq<string>)
    requires ts != [] && forall i :: 0 <= i < |ts| ==> ReadsBack(ts[i])
    ensures KeyValue(Entry("tags", TagsRaw(ts))) == Some(("tags", TagsRaw(ts)))
    ensures TagList(TagsRaw(ts)) == NonEmpty(ts)
  {
    TagsEntry(ts);
    TagsRawTrim(ts);
    TagPieces([], ts);
    assert [] + QuotedList(ts) == QuotedList(ts);
  }
}
