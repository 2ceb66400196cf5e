/** The blog's four slug generators: the heading anchor in the Markdown
    renderer, the post slug, the edit page's slug and the save handler's
    slug. Each is proved equal to one reference shape: the maximal runs of
    alphanumeric characters of the lowercased text, joined by single dashes. */
module Slugs {
  import opened Strings

  /** The reference definition: the maximal alphanumeric runs of `s`. */
  function AlnumRuns(s: string): seq<string> {
    NonEmpty(Fields(s, NonAlphanumeric))
  }

  /** The shape every generator produces. */
  function SlugOf(text: string): string {
    Join(AlnumRuns(Lower(text)), "-")
  }

  /** A character a slug may hold: a lowercase letter, a digit or a dash. */
  predicate SlugChar(c: char) {
    (IsAlphanumeric(c) && !IsUpper(c)) || c == '-'
  }

  /** Only slug characters, no dash at either end and no two dashes in a row. */
  predicate WellShaped(r: string) {
    && (forall i :: 0 <= i < |r| ==> SlugChar(r[i]))
    && (r != [] ==> r[0] != '-' && r[|r| - 1] != '-')
    && (forall i :: 0 <= i < |r| - 1 && r[i] == '-' ==> r[i + 1] != '-')
  }

  /** Each text character is replaced by `r` unless it is alphanumeric. */
  function ReplaceNonAlnum(s: string, r: char): string {
    seq(|s|, i requires 0 <= i < |s| => if IsAlphanumeric(s[i]) then s[i] else r)
  }

  /** The heading anchor (`slugify` in `markdown_to_html`): non-alphanumeric
      characters become spaces, then the words are joined by dashes. */
  function HeadingSlug(text: string): (r: string)
    ensures r == SlugOf(text)
  {
    var l := Lower(text);
    var spaced := ReplaceNonAlnum(l, ' ');
    FieldsRelabel(l, spaced, NonAlphanumeric, Whitespace);
    Join(Words(spaced), "-")
  }

  /** The post slug of `get_posts`: alphanumerics and spaces are kept, every
      other character becomes a space, then the words are joined by dashes. */
  function PostSlug(title: string): (r: string)
    ensures r == SlugOf(title)
  {
    var l := Lower(title);
    var spaced := seq(|l|, i requires 0 <= i < |l| =>
      if IsAlphanumeric(l[i]) || l[i] == ' ' then l[i] else ' ');
    FieldsRelabel(l, spaced, NonAlphanumeric, Whitespace);
    Join(Words(spaced), "-")
  }

  /** The edit page's slug, written out again in the handler with the
      comment that it is computed the way `get_posts` computes it. */
  function EditPageSlug(title: string): (r: string)
    ensures r == PostSlug(title)
  {
    var l := Lower(title);
    var spaced := seq(|l|, i requires 0 <= i < |l| =>
      if IsAlphanumeric(l[i]) || l[i] == ' ' then l[i] else ' ');
    FieldsRelabel(l, spaced, NonAlphanumeric, Whitespace);
    Join(Words(spaced), "-")
  }

  /** The save handler's slug from a title: non-alphanumerics become dashes,
      then the non-empty pieces between dashes are joined by dashes. */
  function TitleSaveSlug(title: string): (r: string)
    ensures r == SlugOf(title)
  {
    var l := Lower(title);
    var dashed := ReplaceNonAlnum(l, '-');
    FieldsRelabel(l, dashed, NonAlphanumeric, Exactly('-'));
    Join(NonEmpty(Split(dashed, '-')), "-")
  }

  /** Replacing separators by other separators, and keeping every other
      character, leaves the pieces unchanged. */
  lemma {:induction false} FieldsRelabel(s: string, t: string, k1: CharClass, k2: CharClass)
    requires |s| == |t|
    requires forall i :: 0 <= i < |s| ==> (InClass(t[i], k2) <==> InClass(s[i], k1))
    requires forall i :: 0 <= i < |s| && !InClass(s[i], k1) ==> t[i] == s[i]
    ensures Fields(t, k2) == Fields(s, k1)
    decreases |s|
  {
    if s != [] {
      assert forall i :: 0 <= i < |s| - 1 ==> s[1..][i] == s[i + 1] && t[1..][i] == t[i + 1];
      FieldsRelabel(s[1..], t[1..], k1, k2);
    }
  }

  /** A run the reference definition yields: non-empty, lowercase letters and digits. */
  predicate Run(p: string) {
    p != [] && forall i :: 0 <= i < |p| ==> IsAlphanumeric(p[i]) && !IsUpper(p[i])
  }

  lemma RunsOfLower(text: string)
    ensures forall i :: 0 <= i < |AlnumRuns(Lower(text))| ==> Run(AlnumRuns(Lower(text))[i])
  {
    var l := Lower(text);
    var f := Fields(l, NonAlphanumeric);
    FieldsShape(l, NonAlphanumeric);
    forall i | 0 <= i < |AlnumRuns(l)| ensures Run(AlnumRuns(l)[i]) {
      var p := AlnumRuns(l)[i];
      assert p in f;
      var n :| 0 <= n < |f| && f[n] == p;
      forall j | 0 <= j < |p| ensures IsAlphanumeric(p[j]) && !IsUpper(p[j]) {
        assert f[n][j] in l;
        var m :| 0 <= m < |l| && l[m] == p[j];
      }
    }
  }

  lemma {:induction false} JoinRunsShape(ps: seq<string>)
    requires forall i :: 0 <= i < |ps| ==> Run(ps[i])
    ensures WellShaped(Join(ps, "-"))
    ensures ps != [] ==> Join(ps, "-") != [] && Join(ps, "-")[0] == ps[0][0]
  {
    if |ps| > 1 {
      JoinRunsShape(ps[1..]);
      var p, j := ps[0], Join(ps[1..], "-");
      var r := p + "-" + j;
      assert Run(ps[1]) && j[0] == ps[1][0];
      forall i | 0 <= i < |r| - 1 && r[i] == '-' ensures r[i + 1] != '-' {
        if i == |p| {
          assert r[i + 1] == j[0];
        } else if i > |p| {
          assert r[i] == j[i - |p| - 1] && r[i + 1] == j[i - |p|];
        }
      }
      forall i | 0 <= i < |r| ensures SlugChar(r[i]) {
        if i < |p| {
          assert r[i] == p[i];
        } else if i > |p| {
          assert r[i] == j[i - |p| - 1];
        }
      }
    }
  }

  lemma {:induction false} RemoveAppend(a: string, b: string, k: CharClass)
    ensures Remove(a + b, k) == Remove(a, k) + Remove(b, k)
  {
    if a == [] {
      assert a + b == b;
    } else {
      assert (a + b)[0] == a[0];
      assert (a + b)[1..] == a[1..] + b;
      RemoveAppend(a[1..], b, k);
    }
  }

  lemma {:induction false} RemoveRun(p: string)
    requires forall i :: 0 <= i < |p| ==> IsAlphanumeric(p[i])
    ensures Remove(p, NonAlphanumeric) == p
  {
    if p != [] {
      assert forall i :: 0 <= i < |p| - 1 ==> p[1..][i] == p[i + 1];
      RemoveRun(p[1..]);
    }
  }

  /** The alphanumeric characters of a run list joined by dashes are the
      runs themselves, laid end to end. */
  lemma {:induction false} JoinRunsContent(ps: seq<string>)
    requires forall i :: 0 <= i < |ps| ==> Run(ps[i])
    ensures Remove(Join(ps, "-"), NonAlphanumeric) == Concat(ps)
  {
    if |ps| == 1 {
      RemoveRun(ps[0]);
      assert Concat(ps[1..]) == [];
    } else if |ps| > 1 {
      JoinRunsContent(ps[1..]);
      var j := Join(ps[1..], "-");
      RemoveAppend(ps[0] + "-", j, NonAlphanumeric);
      RemoveAppend(ps[0], "-", NonAlphanumeric);
      RemoveRun(ps[0]);
      assert Remove("-", NonAlphanumeric) == [];
    }
  }

  /** Every slug has the slug shape, and its letters and digits are exactly
      those of the lowercased text, in the same order. */
  lemma SlugShape(text: string)
    ensures WellShaped(SlugOf(text))
    ensures Remove(SlugOf(text), NonAlphanumeric) == Remove(Lower(text), NonAlphanumeric)
  {
    var l := Lower(text);
    RunsOfLower(text);
    JoinRunsShape(AlnumRuns(l));
    JoinRunsContent(AlnumRuns(l));
    ConcatNonEmpty(Fields(l, NonAlphanumeric));
    FieldsConcat(l, NonAlphanumeric);
  }

  lemma {:induction false} FieldsOfJoinedRuns(ps: seq<string>)
    requires ps != []
    requires forall i :: 0 <= i < |ps| ==> Run(ps[i])
    ensures Fields(Join(ps, "-"), NonAlphanumeric) == ps
  {
    if |ps| == 1 {
      FieldsOfClean(ps[0], NonAlphanumeric);
    } else {
      FieldsOfJoinedRuns(ps[1..]);
      assert ps[0] + "-" + Join(ps[1..], "-") == ps[0] + ['-'] + Join(ps[1..], "-");
      FieldsAfterSeparator(ps[0], '-', Join(ps[1..], "-"), NonAlphanumeric);
    }
  }

  lemma {:induction false} NonEmptyOfRuns(ps: seq<string>)
    requires forall i :: 0 <= i < |ps| ==> Run(ps[i])
    ensures NonEmpty(ps) == ps
  {
    if ps != [] {
      NonEmptyOfRuns(ps[1..]);
    }
  }

  /** A slug is its own slug: slugging is idempotent. */
  lemma SlugIdempotent(text: string)
    ensures SlugOf(SlugOf(text)) == SlugOf(text)
  {
    var runs := AlnumRuns(Lower(text));
    var r := SlugOf(text);
    RunsOfLower(text);
    JoinRunsShape(runs);
    assert Lower(r) == r;
    if runs == [] {
      assert r == [];
    } else {
      FieldsOfJoinedRuns(runs);
      NonEmptyOfRuns(runs);
    }
  }
}
