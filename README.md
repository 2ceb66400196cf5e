# Markdown blog server: front matter, post listing, search and admin login

The blog keeps each post as a Markdown file under `content/`. The file opens
with a front-matter block fenced by `---` lines, and the block holds
`key: value` lines: a quoted title, date, summary, author, keywords, image,
canonical URL, GitHub repository, website, and a tag list such as
`["a", "b"]`.

This project models the logic of `src/main.rs` that does not depend on I/O:

- **Front matter.** The reader `parse_metadata` splits the text at the first two fences and takes the last value of each key.
- **Writers.** Two writers produce front matter: `create_post_from_readme` (imports a GitHub repository) and `admin_save_post` (the editor). The save handler has its own small reader. It keeps a file's date, `github_repo` and `website` across edits.
- **Round trips.** Each writer is proved to produce a file the reader reads back to the fields it wrote, with the body unchanged. This holds only for values the template can carry:
  - a value is one line, holds no `---`, and has no `"` at either end;
  - a tag also has no comma and no `'` at either end.

  Other values are changed by the source itself. The reader strips every surrounding `"`, so a title `Say "hi"` comes back as `Say "hi` (`FrontMatter.QuoteLost`). A `---` inside a value ends the front matter early.
- **Text utilities.**
  - `strip_html_tags`, `calculate_reading_time`, and the four slug computations (heading anchors, post slugs, the edit page's title slug, save slugs).
  - Deriving a `Post` from a directory entry and its defaults.
  - Sorting newest first, filtering by tag, and searching.
  - The webhook's branch gate and the importer's fork/archived filter.
- **Admin authentication.** `AdminState` holds two maps: sessions by token, and login attempts by client address. Five failures lock an address for 300 seconds. A session lasts 3600 seconds.

Structure:

- Values are datatypes, and the pure functions are Dafny functions with lemmas about them.
- Loops in the source (`parse_metadata`, the save handler's extractor, `strip_html_tags`, the README tag collection, `get_posts`' directory scan, `search_posts`, the edit page's scan, the cookie loops) are methods with loop invariants. Each one is proved equal to a specification function.
- `AdminState` is a class with `sessions` and `loginAttempts` fields. Its handler methods update those fields.

Modules, one file each: `Wrappers` (`wrappers.dfy`), `Strings` (`strings.dfy`,
the Rust `str` operations used), `Slugs` (`slugs.dfy`), `FrontMatter`
(`front_matter.dfy`), `GitHub` (`github.dfy`), `Html` (`html.dfy`), `Posts`
(`posts.dfy`), `Editor` (`editor.dfy`) and `AdminAuth` (`admin_auth.dfy`).

How Rust behaviour is modelled:

- **Time.** Clock readings are a `nat` number of seconds, one reading per request. `Instant::duration_since` saturates at zero (`AdminAuth.Elapsed`).
- **Parameters.** Environment variables (`SITE_URL`, `ADMIN_PASSWORD`, `GITHUB_USERNAME`), the session token (`Uuid::new_v4`) and today's date are parameters.
- **The content directory.** It is a sequence of directory entries, or a map from file names to contents.
- **Strings.**
  - `str::splitn(3, "---")` is a leftmost, non-overlapping search.
  - `lines()` strips a `\r` only when it comes before a `\n`.
  - `split_whitespace` and `trim` use Unicode White_Space.
  - Lower-casing and `is_alphanumeric` are ASCII only (see Left out).
  - `word_count as u32` wraps modulo 2^32.

## Model

| member | source | states |
|---|---|---|
| Strings.Lower | src/main.rs:1058 | lower-casing keeps the length, maps each character on its own, and leaves no upper-case letter |
| Strings.LowerAppend | src/main.rs:1068-1075 | lower-casing a concatenation lower-cases each part |
| Strings.FieldsShape | src/main.rs:1466 | `split` pieces contain no separator; the first piece is a prefix ending at the first separator; every character comes from the input |
| Strings.FieldsOfClean | src/main.rs:1466 | a string without the separator splits into just itself |
| Strings.FieldsAfterSeparator | src/main.rs:1466 | splitting `a + sep + b` gives `a` followed by the split of `b` |
| Strings.FieldsConcat | src/main.rs:272-280 | gluing the split pieces back gives the input with the separators removed |
| Strings.WordCount | src/main.rs:489 | the number of `split_whitespace` words is the number of word starts |
| Strings.Trim | src/main.rs:1058 | a non-empty trimmed string neither starts nor ends with a trimmed character |
| Strings.TrimAfterSpace | src/main.rs:1058 | trimming drops any leading whitespace and keeps an already-bare string |
| Strings.TrimEmpty | src/main.rs:914-924 | trimming leaves nothing exactly when every character is whitespace |
| Strings.TrimPadded | src/main.rs:1058 | trimming drops whitespace on both sides of a bare string and keeps that string |
| Strings.ReplaceChar | src/main.rs:901 | same length; every `a` becomes `b` and every other character is kept in place |
| Strings.Find | src/main.rs:212 | a found index is at or after the start and a match is there |
| Strings.FindLeftmost | src/main.rs:212 | the search finds the leftmost match, and reports none only when there is no match |
| Strings.ContainsMatch | src/main.rs:1077 | `contains` holds exactly when the needle occurs at some index |
| Strings.SplitOnceStrFirst | src/main.rs:212 | splitting at a fence fails exactly when the text has no fence, and otherwise splits at the first one |
| Strings.SplitOnce | src/main.rs:220 | `splitn(2, ':')` fails exactly when there is no colon, and otherwise splits at the first one |
| Strings.Lines | src/main.rs:219 | no line holds a line break |
| Strings.LinesOfJoinLines | src/main.rs:219 | joining plain lines with `\n` line ends and splitting them again gives the lines back |
| Slugs.HeadingSlug | src/main.rs:272-280 | the heading anchor is the alphanumeric runs of the lower-cased text, joined with `-` |
| Slugs.PostSlug | src/main.rs:521-527 | the post slug (spaces kept, then split on whitespace) is the same slug function as the heading anchor |
| Slugs.EditPageSlug | src/main.rs:1355-1362 | the edit page's title slug agrees with the post slug |
| Slugs.TitleSaveSlug | src/main.rs:1407-1416 | the save handler's `-`-splitting slug agrees with the others |
| Slugs.SlugShape | src/main.rs:272-280 | a slug is runs of lower-case alphanumerics joined by single `-`, with no `-` at either end, and keeps every alphanumeric of the lower-cased title in order |
| Slugs.SlugIdempotent | src/main.rs:272-280 | slugifying a slug gives it back |
| FrontMatter.SplitFence3Free | src/main.rs:212 | `splitn(3, "---")` yields a single part exactly when the text has no fence |
| FrontMatter.KeyValue | src/main.rs:220-224 | a line is a key/value pair exactly when it holds a colon |
| FrontMatter.Parse | src/main.rs:211-249 | metadata is found exactly when the text holds at least two fences |
| FrontMatter.ParseMetadata | src/main.rs:211-249 | the line loop computes the metadata `Parse` defines |
| FrontMatter.MetadataOfLastWins | src/main.rs:219-246 | each field holds the value of the last line that sets it |
| FrontMatter.OnlyKnownLinesMatter | src/main.rs:219-246 | lines with an unknown key or no colon do not change the result |
| FrontMatter.ShadowedLine | src/main.rs:219-246 | a line overridden by a later line for the same field can be deleted |
| FrontMatter.TagListShape | src/main.rs:227-235 | every parsed tag is non-empty, has no comma, and has no single quote at either end |
| FrontMatter.ParsedTagsShape | src/main.rs:227-235 | the tags of any parsed post have that same shape |
| FrontMatter.ExtractPreserved | src/main.rs:1419-1444 | the save handler's extractor loop computes the kept date, `github_repo` and `website` |
| FrontMatter.SavedFieldsLastWins | src/main.rs:1419-1444 | the extractor keeps the last value of each of its three keys |
| FrontMatter.ReadersAgree | src/main.rs:1419-1444 | for text opening with a fence, both readers accept the same files and agree on the date and the repository |
| FrontMatter.HomepageOnlyForPages | src/main.rs:242 | a `homepage:` line sets the page's website, but the save handler does not keep it |
| FrontMatter.TagsRoundTrip | src/main.rs:227-235 | a tag list written as `["a", "b"]` reads back as the same non-empty tags |
| FrontMatter.ParseDocument | src/main.rs:211-249 | a document written from one-line entries reads back to those entries' metadata and keeps its body |
| FrontMatter.PreservedDocument | src/main.rs:1419-1444 | the extractor reads back the date and links written into such a document |
| FrontMatter.QuoteLost | src/main.rs:220-224 | a value with a `"` at either end does not read back as itself, because the reader strips every surrounding `"` |
| FrontMatter.TitleQuoteLost | src/main.rs:222-226 | so a written title with a `"` at either end is read back as a different title |
| GitHub.ActiveRepos | src/main.rs:850 | the importer keeps exactly the repositories that are neither forks nor archived |
| GitHub.ActiveReposAppend | src/main.rs:850 | the filter works page by page |
| GitHub.ActiveReposIdempotent | src/main.rs:850 | filtering twice is filtering once |
| GitHub.IsMainPush | src/main.rs:1668-1675 | a push passes the gate exactly when its ref is `refs/heads/main` or `refs/heads/master`; a payload with no ref never passes |
| GitHub.TagPushIgnored | src/main.rs:1668-1675 | a tag push never passes |
| GitHub.BranchPrefixIgnored | src/main.rs:1668-1675 | a branch whose name only begins with `main` never passes |
| GitHub.ReadmeDate | src/main.rs:896-899 | the date is the part of the push (else update) time before the first `T`, or `2025-01-01` |
| GitHub.ReadmeTagList | src/main.rs:903-912 | the tags are `github`, `project`, the lower-cased language when there is one, then exactly the first min(3, n) topics in order; the length is 2 + (1 if a language) + min(3, n) |
| GitHub.ReadmeTags | src/main.rs:903-912 | the tag-collecting loop builds that list |
| GitHub.ReadmeSummary | src/main.rs:901 | the summary is the description, or `A GitHub project`, character for character, except that each double quote becomes a single quote |
| GitHub.Homepage | src/main.rs:914-924 | the website is empty without a homepage and the whitespace-trimmed homepage otherwise |
| GitHub.HomepageBlank | src/main.rs:914-924 | the website is empty exactly when there is no homepage or it is all whitespace |
| GitHub.HomepagePadded | src/main.rs:914-924 | a bare homepage surrounded by whitespace gives that homepage |
| GitHub.CreatePostFromReadme | src/main.rs:895-953 | the importer writes the front-matter template around the README |
| GitHub.ReadmeRoundTrip | src/main.rs:895-953 | an imported post reads back to its title, date, tags, summary, author, keywords, repository and website; its body is the README |
| GitHub.ReadmePreserved | src/main.rs:895-953 | the save handler's extractor reads back an imported post's date, repository and website |
| Html.StripHtmlTags | src/main.rs:436-448 | the loop computes the tag-free scan of the input |
| Html.StripSubsequence | src/main.rs:436-448 | stripping only deletes characters |
| Html.TagFreeUnchanged | src/main.rs:436-448 | text without angle brackets passes through unchanged |
| Html.StripIdempotent | src/main.rs:436-448 | stripping twice is stripping once |
| Html.TextKept | src/main.rs:436-448 | text outside tags is kept in place |
| Html.TagDropped | src/main.rs:436-448 | a tag disappears with everything inside it |
| Posts.DefaultSite | src/main.rs:51-63 | the site URL comes from `SITE_URL`, else `http://localhost:8080` |
| Posts.ReadingTime | src/main.rs:488-492 | the minutes are the word count divided by 200 and at least one; the count wraps at 2^32 |
| Posts.Extension | src/main.rs:501 | the extension is the dot-free text after the last dot; there is none when no dot follows the first character, or for `..` |
| Posts.MarkdownFileName | src/main.rs:501 | `stem.md` is listed exactly when the stem is non-empty |
| Posts.SummaryOf | src/main.rs:533-537 | an empty summary becomes the body's first 160 characters followed by `...` |
| Posts.KeywordsFromFirstFive | src/main.rs:545-547 | default keywords use only the first five tags |
| Posts.MakePost | src/main.rs:506-550 | a post keeps the metadata's title and tags; its slug is the title slug; it defaults the author and image text; it counts the body's words |
| Posts.CanonicalDefault | src/main.rs:548-550 | the default canonical URL is the site URL, `/blog/`, then the slug |
| Posts.PostOf | src/main.rs:501-503 | an entry yields a post exactly when it is a `.md` file whose text has front matter |
| Posts.CollectedPosts | src/main.rs:499-561 | the listed posts are exactly the posts of the entries that yield one |
| Posts.LexLeTotal | src/main.rs:564 | the string order compares any two dates |
| Posts.LexLeTrans | src/main.rs:564 | the string order is transitive |
| Posts.SortByDate | src/main.rs:564 | sorting is a permutation |
| Posts.SortNewestFirst | src/main.rs:564 | sorted posts run from the latest ISO date down |
| Posts.GetPosts | src/main.rs:495-566 | the listing is the collected posts, newest first, and a permutation of them |
| Posts.TagPosts | src/main.rs:596-604 | the tag page shows exactly the posts holding the tag, ignoring case |
| Posts.TagPostsNewestFirst | src/main.rs:596-604 | filtering keeps the newest-first order |
| Posts.TagPostsIgnoreCase | src/main.rs:596-604 | the upper/lower case of the tag in the URL does not matter |
| Posts.SearchQuery | src/main.rs:1058 | the query has no whitespace at either end, no upper-case letter, and is no longer than the parameter |
| Posts.Matching | src/main.rs:1066-1088 | the results are exactly the posts whose lower-cased haystack contains the query |
| Posts.SearchResults | src/main.rs:1057-1090 | an empty query gives no results; otherwise the matching posts |
| Posts.SearchPosts | src/main.rs:1057-1090 | the search loop computes those results |
| Posts.TitleFound | src/main.rs:1068-1077 | a post whose lower-cased title contains the query is found |
| Posts.QueryTrimmed | src/main.rs:1058 | leading whitespace in the query does not change the search |
| Posts.QueryPadded | src/main.rs:1058 | a bare query with whitespace on both sides becomes exactly its lower-cased self |
| Editor.SaveSlugAsWritten | src/main.rs:1407-1416 | the save handler uses a submitted slug, even an empty one, else the title slug |
| Editor.NewPostUnlisted | src/main.rs:1407-1416 | a new post (whose slug field is empty) is saved to `.md`, which the listing never shows |
| Editor.SaveSlug | src/main.rs:1407-1416 | corrected: an empty submitted slug falls back to the title slug |
| Editor.SavedPostListed | src/main.rs:1407-1416 | with the correction, a saved post with a non-empty slug free of `/`, or with an alphanumeric title, lands in a listed `.md` file |
| Editor.SlashedSlugNested | src/main.rs:1407-1419 | the file name holds a `/`, so names a path below or outside the content directory, exactly when a submitted slug holds one; a title slug never does |
| Editor.SaveTags | src/main.rs:1466 | one piece per comma field, each the trimmed field, with no comma and no whitespace at either end |
| Editor.WritePost | src/main.rs:1418-1473 | the write puts the template at the slug's file and leaves other files alone; the date and links come from the file it replaces |
| Editor.AdminSavePost | src/main.rs:1399-1478 | as written: the handler saves under the submitted slug, even an empty one, else the title slug, and writes as `WritePost` states |
| Editor.AdminSavePostCorrected | src/main.rs:1399-1478 | corrected: the same handler under `SaveSlug`, where an empty submitted slug falls back to the title slug |
| Editor.SaveSlugsAgree | src/main.rs:1407-1416 | the slug as written and the corrected slug differ exactly when the submitted slug is empty and the title has a slug |
| Editor.SaveRoundTrip | src/main.rs:1455-1471 | a saved post reads back to the form's title, summary and tags, with the kept or today's date and the kept links; its body is the content |
| Editor.SavedPostShown | src/main.rs:1399-1478 | as written: a saved post appears in the listing with those fields when the form carries a non-empty slug free of `/`, or no slug and a title with a letter or digit |
| Editor.SaveKeepsPreserved | src/main.rs:1419-1453 | saving over a saved post keeps its date, repository and website |
| Editor.EditKeepsDate | src/main.rs:1446 | a second save keeps the first save's date |
| Editor.FileStem | src/main.rs:1364-1368 | the stem followed by `.` and the extension is the file name |
| Editor.EditSavesInPlace | src/main.rs:1364-1368 | the edit page's slug field names the file it came from |
| Editor.EditPageBlank | src/main.rs:1335-1394 | with no post whose title has the slug, the editor is blank |
| Editor.EditPageAt | src/main.rs:1346-1381 | otherwise it shows the first such post in directory order |
| Editor.AdminEditPost | src/main.rs:1335-1394 | the directory scan computes that page |
| Editor.TrimmedPieces | src/main.rs:1370-1379 | tags shown as `a, b` split back to the same trimmed tags |
| Editor.EditedTagsSurvive | src/main.rs:1370-1379 | saving the edit page unchanged keeps the post's tags when none is empty, holds a comma or has whitespace at either end |
| Editor.PaddedTagTrimmed | src/main.rs:1466 | a tag shown with leading whitespace, which the reader can produce from a quoted tag, is saved without it |
| AdminAuth.AdminPassword | src/main.rs:30 | the password comes from `ADMIN_PASSWORD`, else `admin123` |
| AdminAuth.Elapsed | src/main.rs:1108 | elapsed time saturates at zero |
| AdminAuth.ClientIp | src/main.rs:1146-1152 | the client address is the `x-forwarded-for` text before the first comma, or `unknown` |
| AdminAuth.ClientIpFirst | src/main.rs:1146-1152 | a proxy chain's first address is used |
| AdminAuth.Refreshed | src/main.rs:1189-1202 | the lock is cleared; an expired lock clears the count; a window older than five minutes restarts from now with no attempts; otherwise the window start is kept and, without a lock, nothing changes |
| AdminAuth.Failed | src/main.rs:1230-1243 | a failure adds one to the count, and the fifth failure locks for 300 seconds |
| AdminAuth.LockedRejects | src/main.rs:1178-1191 | a locked address is refused with the seconds remaining, and nothing changes |
| AdminAuth.CorrectPasswordLogsIn | src/main.rs:1207-1221 | the right password clears the address's attempts and adds a session for the new token |
| AdminAuth.WrongPasswordCounted | src/main.rs:1230-1243 | a wrong password adds one to the count, and locks exactly when the count reaches five |
| AdminAuth.OtherAddressesUntouched | src/main.rs:1168-1244 | a login changes only its own address's attempts |
| AdminAuth.LoginKeepsBounded | src/main.rs:1230-1243 | attempt counts never exceed five, so the `u32` cannot overflow |
| AdminAuth.FiveFailuresLock | src/main.rs:1230-1243 | five quick failures lock the address, and even the right password is then refused |
| AdminAuth.SessionToken | src/main.rs:1103-1104 | a cookie part names a token exactly when it starts with `session=` |
| AdminAuth.TokensInMembers | src/main.rs:1101-1104 | the tokens of a cookie are exactly those of its `session=` parts |
| AdminAuth.LogoutEndsSessions | src/main.rs:1256-1269 | after logout, the cookie no longer authenticates |
| AdminAuth.SingleCookie | src/main.rs:1101-1104 | the cookie `session=<token>` carries exactly that token |
| AdminAuth.SessionLastsAnHour | src/main.rs:1108 | a fresh session authenticates exactly for its first 3600 seconds |
| AdminAuth.AdminState.constructor | src/main.rs:99-111 | the state starts with no sessions and no attempts |
| AdminAuth.AdminState.IsAuthenticated | src/main.rs:1098-1117 | the cookie loop accepts exactly when some token in the cookie has a live session |
| AdminAuth.AdminState.AnyLive | src/main.rs:1101-1114 | the loop finds a live session exactly when one exists |
| AdminAuth.AdminState.LoginSubmit | src/main.rs:1168-1244 | the handler updates both maps as `Login` defines (via the client address and the password check) and keeps attempt counts bounded |
| AdminAuth.AdminState.Logout | src/main.rs:1256-1269 | logout removes every session named in the cookie and leaves attempts alone |

## Left out

- Editor.SavedPostListed and Editor.SavedPostShown: only for slugs without `/`. The directory is a flat list of entry names, so a submitted slug with `/` or `../`, which the handler writes below or outside `content/`, has no place in it. `Editor.SlashedSlugNested` shows when that happens.
- HTTP routing, axum extractors, response bodies, Handlebars templates and security headers: no logic beyond what is modelled.
- `markdown_to_html` and `highlight_code`: a directory entry supplies the rendered HTML, the date text and the ISO date of each post.
- chrono date parsing and formatting: dates are opaque strings, and the ISO date comes with the entry.
- Filesystem I/O: the directory is a sequence of entries, or a map from names to contents. Directory order is taken as given. A failed read, a non-UTF-8 name and a failed write are not modelled.
- FrontMatter.ParseDocument, GitHub.ReadmeRoundTrip, Editor.SaveRoundTrip and Editor.EditedTagsSurvive: proved only for values the template can carry. A value must be one line, hold no `---`, and have no `"` at its ends; tags also need no comma and no `'` at their ends. For `Editor.EditedTagsSurvive` a tag also needs no whitespace at its ends, which the save trims (`Editor.PaddedTagTrimmed`). The source garbles other values, and `FrontMatter.QuoteLost` shows one case.
- Posts.SortByDate: Rust's `sort_by` is stable, and the model does not prove stability; it proves only the newest-first order and the permutation.
- `html_escape` on the edit page, and the JavaScript editor: the page's fields are modelled unescaped.
- GitHub network calls (`fetch_github_repos`, `fetch_readme`, base64 decoding), `sync_github_repos`, the import and sync handlers, `github_links` and `save_github_links`: they are I/O around the modelled writer and filter.
- The webhook beyond its branch gate, `admin_delete_post`, `admin_dashboard`, `sitemap`, `rss_feed`, `robots_txt` and `single_post`: handlers with no logic beyond the modelled parts.
- `RwLock` locking and concurrent requests: each handler is one atomic step.
- `Instant` precision: time is whole seconds, and one clock reading stands for the several the handler takes. The lockout's remaining time is therefore exact.
- `Uuid::new_v4`: the session token comes from the caller.
- A cookie header that is not visible ASCII (`to_str` failing) is modelled as an absent header.
- Strings.Lower: ASCII only, because Unicode case mapping can change a string's length.
- Slugs.SlugOf: ASCII letters and digits only count as alphanumeric.

## Findings

| source | as written | input that shows it | evidently intended | confidence | as-written member | corrected member |
|---|---|---|---|---|---|---|
| src/main.rs:1407-1416 | the save handler falls back to the title slug only when no slug is submitted; the editor form always submits its hidden slug field, which a new post leaves empty (src/main.rs:1331, src/main.rs:2196) | saving a new post titled "Hello World", whose form carries `slug=""` | an empty slug falls back to the title's slug, giving `content/hello-world.md` | not executed | Editor.NewPostUnlisted | Editor.SavedPostListed |
